/** The 32-bit occupancy bitmaps of the allocator and the bit searches on them
    (kernel/core/arch_api.hpp). Only the low sixteen bits of a map are ever used. */
module Bitmap {

  /** A bit position as a machine word, the form in which it is shifted by. */
  function Position(i: nat): (p: bv32)
    requires i < 16
    ensures p < 16
  {
    if i < 8 then
      if i < 4 then (if i == 0 then 0 else if i == 1 then 1 else if i == 2 then 2 else 3)
      else (if i == 4 then 4 else if i == 5 then 5 else if i == 6 then 6 else 7)
    else
      if i < 12 then (if i == 8 then 8 else if i == 9 then 9 else if i == 10 then 10 else 11)
      else (if i == 12 then 12 else if i == 13 then 13 else if i == 14 then 14 else 15)
  }

  predicate BitAt(m: bv32, p: bv32)
    requires p < 16
  {
    (m >> p) & 1 == 1
  }

  predicate Bit(m: bv32, i: nat)
    requires i < 16
  {
    BitAt(m, Position(i))
  }

  function SetAt(m: bv32, p: bv32): bv32
    requires p < 16
  {
    m | (1 << p)
  }

  function SetBit(m: bv32, i: nat): bv32
    requires i < 16
  {
    SetAt(m, Position(i))
  }

  function ClearAt(m: bv32, p: bv32): bv32
    requires p < 16
  {
    m & !(1 << p)
  }

  function ClearBit(m: bv32, i: nat): bv32
    requires i < 16
  {
    ClearAt(m, Position(i))
  }

  /** The bits at position i and above. */
  function FromAt(m: bv32, p: bv32): bv32
    requires p < 16
  {
    m & (0xffff_ffff << p)
  }

  function FromBit(m: bv32, i: nat): bv32
    requires i < 16
  {
    FromAt(m, Position(i))
  }

  lemma PositionOrder(i: nat, j: nat)
    requires i < 16 && j < 16
    ensures Position(i) <= Position(j) <==> i <= j
  {
  }

  lemma SetBitBits(m: bv32, i: nat)
    requires i < 16
    ensures forall j | 0 <= j < 16 :: Bit(SetBit(m, i), j) <==> (Bit(m, j) || j == i)
    ensures m < 0x10000 ==> SetBit(m, i) < 0x10000
    ensures SetBit(m, i) != 0
  {
    hide Position, BitAt, SetAt, ClearAt, FromAt;
    SetRaw(m, Position(i), Position(i));
    forall j | 0 <= j < 16
      ensures Bit(SetBit(m, i), j) <==> (Bit(m, j) || j == i)
    {
      PositionOrder(i, j); PositionOrder(j, i);
      SetRaw(m, Position(i), Position(j));
    }
  }

  lemma SetRaw(m: bv32, i: bv32, j: bv32)
    requires i < 16 && j < 16
    ensures BitAt(SetAt(m, i), j) <==> (BitAt(m, j) || i == j)
    ensures m < 0x10000 ==> SetAt(m, i) < 0x10000
    ensures SetAt(m, i) != 0
  {
  }

  lemma ClearBitBits(m: bv32, i: nat)
    requires i < 16
    ensures forall j | 0 <= j < 16 :: Bit(ClearBit(m, i), j) <==> (Bit(m, j) && j != i)
    ensures m < 0x10000 ==> ClearBit(m, i) < 0x10000
  {
    hide Position, BitAt, SetAt, ClearAt, FromAt;
    ClearRaw(m, Position(i), Position(i));
    forall j | 0 <= j < 16
      ensures Bit(ClearBit(m, i), j) <==> (Bit(m, j) && j != i)
    {
      PositionOrder(i, j); PositionOrder(j, i);
      ClearRaw(m, Position(i), Position(j));
    }
  }

  lemma ClearRaw(m: bv32, i: bv32, j: bv32)
    requires i < 16 && j < 16
    ensures BitAt(ClearAt(m, i), j) <==> (BitAt(m, j) && i != j)
    ensures m < 0x10000 ==> ClearAt(m, i) < 0x10000
  {
  }

  lemma FromBitBits(m: bv32, i: nat)
    requires i < 16
    ensures forall j | 0 <= j < 16 :: Bit(FromBit(m, i), j) <==> (Bit(m, j) && i <= j)
    ensures m < 0x10000 ==> FromBit(m, i) < 0x10000
  {
    hide Position, BitAt, SetAt, ClearAt, FromAt;
    FromRaw(m, Position(i), Position(i));
    FromRawBound(m, Position(i));
    forall j | 0 <= j < 16
      ensures Bit(FromBit(m, i), j) <==> (Bit(m, j) && i <= j)
    {
      PositionOrder(i, j);
      FromRaw(m, Position(i), Position(j));
    }
  }

  lemma FromRaw(m: bv32, i: bv32, j: bv32)
    requires i < 16 && j < 16
    ensures BitAt(FromAt(m, i), j) <==> (BitAt(m, j) && i <= j)
  {
  }

  lemma FromRawBound(m: bv32, i: bv32)
    requires i < 16
    ensures m < 0x10000 ==> FromAt(m, i) < 0x10000
  {
  }

  /** A map is zero exactly when none of its bits is set. */
  lemma ZeroMap(m: bv32)
    requires m < 0x10000
    ensures m == 0 <==> forall i | 0 <= i < 16 :: !Bit(m, i)
  {
    if forall i | 0 <= i < 16 :: !Bit(m, i) {
      assert !Bit(m, 0) && !Bit(m, 1) && !Bit(m, 2) && !Bit(m, 3) && !Bit(m, 4) && !Bit(m, 5);
      assert !Bit(m, 6) && !Bit(m, 7) && !Bit(m, 8) && !Bit(m, 9) && !Bit(m, 10) && !Bit(m, 11);
      assert !Bit(m, 12) && !Bit(m, 13) && !Bit(m, 14) && !Bit(m, 15);
    }
    if m == 0 {
      forall i | 0 <= i < 16 ensures !Bit(m, i) { ZeroRaw(Position(i)); }
    }
  }

  lemma ZeroRaw(i: bv32)
    requires i < 16
    ensures !BitAt(0, i)
  {
  }

  /** Arch::find_lowest_bit on a non-zero map. */
  method FindLowestBit(m: bv32) returns (i: nat)
    requires 0 != m < 0x10000
    ensures i < 16 && Bit(m, i)
    ensures forall j | 0 <= j < i :: !Bit(m, j)
  {
    hide Bit;
    ZeroMap(m);
    i := 0;
    while !Bit(m, i)
      invariant i < 16
      invariant forall j | 0 <= j < i :: !Bit(m, j)
      decreases 16 - i
    {
      i := i + 1;
    }
  }
}
