/** The size-to-bin arithmetic of the two-level segregated-fit allocator
    (runtime/lua_heap.hpp, mapping_insert and mapping_search).

    A bin (fl, sl) is written as the single index `16 * fl + sl`; the search order of
    search_suitable_block is exactly the order of that index. */
module TlsfMapping {
  import opened Arithmetic

  const SL_INDEX_COUNT: nat := 16
  const FL_INDEX_COUNT: nat := 13
  const BIN_COUNT: nat := FL_INDEX_COUNT * SL_INDEX_COUNT

  /** The largest block size whose rounded-up search size still has most significant bit 17. */
  const MAX_EXACT: nat := 0x40000 - 0x2000

  function Pow2(n: nat): (r: nat)
    ensures r > 0
  {
    if n == 0 then 1 else 2 * Pow2(n - 1)
  }

  /** Arch::find_highest_bit on a non-zero word. */
  function Msb(x: nat): (r: nat)
    requires x > 0
    ensures Pow2(r) <= x < 2 * Pow2(r)
  {
    if x == 1 then 0 else 1 + Msb(x / 2)
  }

  lemma {:induction false} MsbUnique(x: nat, m: nat)
    requires x > 0 && Pow2(m) <= x < 2 * Pow2(m)
    ensures Msb(x) == m
  {
    if x == 1 {
      assert m > 0 ==> Pow2(m) == 2 * Pow2(m - 1);
    } else {
      assert m > 0;
      MsbUnique(x / 2, m - 1);
    }
  }

  lemma {:induction false} Pow2Monotone(a: nat, b: nat)
    requires a <= b
    ensures Pow2(a) <= Pow2(b)
    decreases b
  {
    if a < b { Pow2Monotone(a, b - 1); }
  }

  lemma MsbMonotone(x: nat, y: nat)
    requires 0 < x <= y
    ensures Msb(x) <= Msb(y)
  {
    if Msb(y) < Msb(x) {
      Pow2Monotone(Msb(y) + 1, Msb(x));
    }
  }

  lemma Pow2Values()
    ensures Pow2(0) == 1 && Pow2(1) == 2 && Pow2(2) == 4 && Pow2(3) == 8
    ensures Pow2(4) == 16 && Pow2(5) == 32 && Pow2(6) == 64 && Pow2(7) == 128
    ensures Pow2(8) == 256 && Pow2(9) == 512 && Pow2(10) == 1024 && Pow2(11) == 2048
    ensures Pow2(12) == 4096 && Pow2(13) == 8192 && Pow2(14) == 16384 && Pow2(15) == 32768
    ensures Pow2(16) == 65536 && Pow2(17) == 131072 && Pow2(18) == 262144
  {
  }

  /** The column of a size whose most significant bit is m: the four bits below the top one. */
  function Column(size: nat, m: nat): (sl: nat)
    requires m >= 5 && Pow2(m) <= size < 2 * Pow2(m)
    ensures sl < SL_INDEX_COUNT
  {
    ColumnBound(size, m);
    (size - Pow2(m)) / Pow2(m - 4)
  }

  lemma ColumnBound(size: nat, m: nat)
    requires m >= 5 && Pow2(m) <= size < 2 * Pow2(m)
    ensures 0 <= (size - Pow2(m)) / Pow2(m - 4) < 16
  {
    assert Pow2(m) == 2 * Pow2(m - 1) == 4 * Pow2(m - 2) == 8 * Pow2(m - 3) == 16 * Pow2(m - 4);
    QuotientBound(size - Pow2(m), Pow2(m - 4), 16);
  }

  function Min(a: nat, b: nat): nat { if a <= b then a else b }

  /** mapping_insert: the bin a block of the given size is filed under. */
  function InsertBin(size: nat): (k: nat)
    ensures k < BIN_COUNT
  {
    if size < 32 then
      Min(size / 2, SL_INDEX_COUNT - 1)
    else
      var m := Msb(size);
      MsbMonotone(32, size); assert Msb(32) == 5;
      SL_INDEX_COUNT * Min(m - 5, FL_INDEX_COUNT - 1) + Column(size, m)
  }

  /** mapping_search: the first bin searched for a block of the given size. */
  function SearchSize(size: nat): (r: nat)
    ensures r >= size
  {
    if size < 32 then size
    else MsbMonotone(32, size); assert Msb(32) == 5; size + Pow2(Msb(size) - 4) - 1
  }

  function SearchBin(size: nat): (k: nat)
    ensures k < BIN_COUNT
  {
    InsertBin(SearchSize(size))
  }

  /** The required sizes for which every block found at or above the search bin is big enough. */
  predicate Exact(r: nat)
  {
    r < 32 || 64 <= r <= MAX_EXACT
  }

  lemma InsertBinLarge(size: nat)
    requires 32 <= size < 0x40000
    ensures 5 <= Msb(size) <= 17
    ensures InsertBin(size) == 16 * (Msb(size) - 5) + Column(size, Msb(size))
  {
    Pow2Values();
    MsbUnique(32, 5);
    MsbUnique(0x3ffff, 17);
    MsbMonotone(32, size);
    MsbMonotone(size, 0x3ffff);
  }

  /** A block in the same first-level row at or above the rounded-up column covers the request. */
  lemma CeilingColumn(r: nat, s: nat, base: nat, d: nat)
    requires d > 0 && r >= base && s >= base
    requires (s - base) / d >= (r + d - 1 - base) / d
    ensures s >= r
  {
    var q := (r + d - 1 - base) / d;
    assert (r + d - 1 - base) < d * q + d;
    assert s - base >= d * ((s - base) / d);
    assert d * ((s - base) / d) >= d * q;
  }

  /** A block of size s filed at or above the search bin of r is big enough, unless r lies in [32, 64)
      and s below 32, which share the first-level row 0. */
  lemma SearchIsExact(r: nat, s: nat)
    requires Exact(r) || (32 <= r < 64 && 32 <= s)
    requires r % 8 == 0 && s % 8 == 0
    requires InsertBin(s) >= SearchBin(r)
    ensures s >= r
  {
    if r < 32 {
      SearchSmall(r, s);
    } else if s < r {
      if s < 32 {
        SearchRowAboveZero(r);
      } else {
        SearchLarge(r, s);
      }
    }
  }

  lemma SearchSmall(r: nat, s: nat)
    requires r < 32 && r % 8 == 0 && s % 8 == 0
    requires InsertBin(s) >= SearchBin(r)
    ensures s >= r
  {
  }

  lemma SearchRowAboveZero(r: nat)
    requires 64 <= r <= MAX_EXACT
    ensures SearchBin(r) >= 16
  {
    Pow2Values();
    MsbUnique(64, 6);
    MsbMonotone(64, SearchSize(r));
    SearchSizeBound(r);
    InsertBinLarge(SearchSize(r));
  }

  lemma SearchSizeBound(r: nat)
    requires 32 <= r <= MAX_EXACT
    ensures SearchSize(r) < 0x40000
  {
    Pow2Values();
    InsertBinLarge(r);
    Pow2Monotone(Msb(r) - 4, 13);
  }

  lemma SameRow(q: nat, c: nat, m: nat, m': nat, c': nat)
    requires 5 <= q <= m <= m' && c < 16
    requires 16 * (q - 5) + c >= 16 * (m' - 5) + c'
    ensures q == m == m' && c >= c'
  {
  }

  lemma SearchLarge(r: nat, s: nat)
    requires 32 <= r <= MAX_EXACT && 32 <= s <= r
    requires InsertBin(s) >= SearchBin(r)
    ensures s >= r
  {
    hide Msb, Pow2;
    var r' := SearchSize(r);
    SearchSizeBound(r);
    InsertBinLarge(r); InsertBinLarge(s); InsertBinLarge(r');
    MsbMonotone(s, r); MsbMonotone(r, r');
    SameRow(Msb(s), Column(s, Msb(s)), Msb(r), Msb(r'), Column(r', Msb(r')));
    CeilingIn(r, s, Msb(r));
  }

  lemma CeilingIn(r: nat, s: nat, m: nat)
    requires 5 <= m && r > 0 && Pow2(m) <= s < 2 * Pow2(m) && Msb(r) == m
    requires r + Pow2(m - 4) - 1 < 2 * Pow2(m)
    requires Column(s, m) >= Column(r + Pow2(m - 4) - 1, m)
    ensures s >= r
  {
    hide Pow2, Msb;
    CeilingColumn(r, s, Pow2(m), Pow2(m - 4));
  }

  // ----- Outside `Exact`

  /** The least size of a block, in a pool whose blocks have at least `least` bytes, that is filed at or above the
      search bin of r. */
  function LeastFound(least: nat, r: nat): (s: nat)
    requires !Exact(r)
  {
    if r < 64 then
      if r == 56 then 24 else least
    else
      SearchHigh(r);
      0x20000 + 0x2000 * (SearchBin(r) - 192)
  }

  /** Beyond the table all sizes share the last row. */
  lemma SearchHigh(r: nat)
    requires r > MAX_EXACT
    ensures SearchBin(r) >= 192
    ensures r < 0x40000 ==> SearchBin(r) == 192
  {
    Pow2Values();
    if r < 0x40000 {
      MsbUnique(r, 17);
      MsbUnique(SearchSize(r), 18);
    } else {
      MsbUnique(0x40000, 18);
      MsbMonotone(0x40000, SearchSize(r));
    }
  }

  lemma LastRow(c: nat)
    requires c < 16
    ensures InsertBin(0x20000 + 0x2000 * c) == 192 + c
  {
    Pow2Values();
    var s := 0x20000 + 0x2000 * c;
    MsbUnique(s, 17);
    InsertBinLarge(s);
    assert (0x2000 * c) / 0x2000 == c;
  }

  /** Nothing smaller lies that high in the last row. */
  lemma LastRowLeast(s: nat, c: nat)
    requires c < 16 && InsertBin(s) >= 192 + c
    ensures s >= 0x20000 + 0x2000 * c
  {
    if s < 0x40000 {
      Pow2Values();
      if s >= 32 { InsertBinLarge(s); }
      assert Msb(s) == 17;
      assert (s - 0x20000) / 0x2000 >= c;
    }
  }

  lemma FoundInRowZero(r: nat, s: nat)
    requires 32 <= r < 64 && r % 8 == 0 && (s == 16 || s == 24)
    ensures InsertBin(s) < 16 && (InsertBin(s) >= SearchBin(r) <==> s == 24 || r != 56)
  {
    Pow2Values();
    MsbUnique(r, 5);
    MsbUnique(SearchSize(r), 5);
  }

  /** Outside `Exact` that size is found and smaller than r, ... */
  lemma LeastIsFound(least: nat, r: nat)
    requires !Exact(r) && r % 8 == 0 && (least == 16 || least == 24)
    ensures var s := LeastFound(least, r);
            && s % 8 == 0 && least <= s < r && InsertBin(s) >= SearchBin(r)
            && (r < 64 ==> s <= 24 && InsertBin(s) < 16)
            && (r >= 64 ==> InsertBin(s) == SearchBin(r) && s + 0x2000 <= r)
            && (s == least || s + 24 <= r)
  {
    hide InsertBin, SearchBin;
    if r < 64 {
      FoundInRowZero(r, LeastFound(least, r));
    } else {
      SearchHigh(r);
      LastRow(SearchBin(r) - 192);
    }
  }

  /** ... and no smaller one is. */
  lemma NoneLess(least: nat, r: nat, s: nat)
    requires !Exact(r) && r % 8 == 0 && (least == 16 || least == 24)
    requires least <= s && s % 8 == 0 && InsertBin(s) >= SearchBin(r)
    ensures s >= LeastFound(least, r)
  {
    hide InsertBin, SearchBin;
    if r < 64 {
      if s < 24 { FoundInRowZero(r, s); }
    } else {
      SearchHigh(r);
      LastRowLeast(s, SearchBin(r) - 192);
    }
  }

  /** Some smaller block size is filed at or above the search bin. */
  lemma SearchIsNotExact(r: nat) returns (s: nat)
    requires !Exact(r) && r % 8 == 0
    ensures s % 8 == 0 && 24 <= s < r
    ensures InsertBin(s) >= SearchBin(r)
  {
    LeastIsFound(24, r);
    s := LeastFound(24, r);
  }

  // ----- Which blocks a search finds

  /** Up to 2^18 bytes bins grow with sizes, within the small blocks and from 32 bytes on. */
  lemma InsertBinMonotone(s: nat, z: nat)
    requires 32 <= s <= z < 0x40000
    ensures InsertBin(s) <= InsertBin(z)
  {
    hide Msb, Pow2, Column;
    InsertBinLarge(s);
    InsertBinLarge(z);
    MsbMonotone(s, z);
    if Msb(s) == Msb(z) { ColumnMonotone(s, z, Msb(s)); }
  }

  lemma ColumnMonotone(s: nat, z: nat, m: nat)
    requires m >= 5 && Pow2(m) <= s <= z < 2 * Pow2(m)
    ensures Column(s, m) <= Column(z, m)
  {
    QuotientMonotone(s - Pow2(m), z - Pow2(m), Pow2(m - 4));
  }

  /** A size of row m - 5 by its column and the rest. */
  function ColumnSize(m: nat, q: nat, e: nat): nat
    requires m >= 5
  {
    Pow2(m) + q * Pow2(m - 4) + e
  }

  lemma Sixteenth(m: nat)
    requires m >= 5
    ensures Pow2(m) == 16 * Pow2(m - 4) && Pow2(m + 1) == 2 * Pow2(m)
  {
    assert Pow2(m) == 2 * Pow2(m - 1) == 4 * Pow2(m - 2) == 8 * Pow2(m - 3) == 16 * Pow2(m - 4);
  }

  lemma MsbAt(m: nat, q: nat, e: nat)
    requires 5 <= m && q < 16 && e < Pow2(m - 4)
    ensures Pow2(m) <= ColumnSize(m, q, e) < 2 * Pow2(m) && ColumnSize(m, q, e) >= 32 && Msb(ColumnSize(m, q, e)) == m
  {
    hide Msb;
    Sixteenth(m);
    Within(q, e, Pow2(m - 4));
    MsbUnique(ColumnSize(m, q, e), m);
    Pow2Monotone(5, m);
    assert Pow2(5) == 32;
  }

  lemma ColumnAt(m: nat, q: nat, e: nat)
    requires 5 <= m && e < Pow2(m - 4) && Pow2(m) <= ColumnSize(m, q, e) < 2 * Pow2(m)
    ensures Column(ColumnSize(m, q, e), m) == q
  {
    hide Pow2, Msb;
    QuotientIs(Pow2(m - 4), q, e);
  }

  /** Its bin. */
  lemma BinAt(m: nat, q: nat, e: nat)
    requires 5 <= m <= 17 && q < 16 && e < Pow2(m - 4)
    ensures ColumnSize(m, q, e) >= 32 && Msb(ColumnSize(m, q, e)) == m
    ensures InsertBin(ColumnSize(m, q, e)) == 16 * (m - 5) + q
  {
    hide Msb, Pow2, Column, ColumnSize;
    MsbAt(m, q, e);
    ColumnAt(m, q, e);
  }

  lemma Within(q: nat, e: nat, d: nat)
    requires q < 16 && e < d
    ensures q * d + e < 16 * d
  {
    TimesMonotone(d, q + 1, 16);
  }

  /** Every size from 32 on is one. */
  lemma AsColumn(r: nat) returns (m: nat, q: nat, e: nat)
    requires r >= 32
    ensures m == Msb(r) && m >= 5 && q < 16 && e < Pow2(m - 4) && r == ColumnSize(m, q, e)
  {
    hide Msb, Pow2;
    m := Msb(r);
    RowAbove(r);
    Sixteenth(m);
    q, e := Split(r - Pow2(m), Pow2(m - 4), 16);
  }

  lemma RowAbove(r: nat)
    requires r >= 32
    ensures Msb(r) >= 5
  {
    MsbMonotone(32, r);
    assert Msb(32) == 5;
  }

  /** Where the search for it starts: at its bin if it is the least size there, else at the next one. */
  lemma SearchAt(m: nat, q: nat, e: nat)
    requires 5 <= m <= 17 && q < 16 && e < Pow2(m - 4) && (e == 0 || q < 15 || m < 17)
    ensures SearchBin(ColumnSize(m, q, e)) == 16 * (m - 5) + q + if e == 0 then 0 else 1
  {
    hide Msb, Column, InsertBin;
    var s, d := ColumnSize(m, q, e), Pow2(m - 4);
    BinAt(m, q, e);
    assert SearchSize(s) == s + d - 1;
    Sixteenth(m);
    if e == 0 {
      BinAt(m, q, d - 1);
    } else if q < 15 {
      assert SearchSize(s) == ColumnSize(m, q + 1, e - 1);
      BinAt(m, q + 1, e - 1);
    } else {
      assert Pow2(m + 1 - 4) == 2 * d;
      assert SearchSize(s) == ColumnSize(m + 1, 0, e - 1);
      BinAt(m + 1, 0, e - 1);
    }
  }

  /** The sizes to which `SearchAt` applies. */
  lemma AsSearched(r: nat) returns (m: nat, q: nat, e: nat)
    requires 32 <= r <= MAX_EXACT
    ensures m == Msb(r) && 5 <= m <= 17 && q < 16 && e < Pow2(m - 4) && r == ColumnSize(m, q, e)
    ensures e == 0 || q < 15 || m < 17
  {
    hide Msb;
    m, q, e := AsColumn(r);
    Pow2Values();
    InsertBinLarge(r);
  }

  /** The search starts at the least bin that holds no size below r. */
  lemma SearchIsLeast(r: nat)
    requires 32 < r <= MAX_EXACT
    ensures SearchBin(r) == InsertBin(r - 1) + 1
  {
    hide Msb, InsertBin, SearchBin, ColumnSize, Pow2;
    var m, q, e := AsSearched(r);
    SearchAt(m, q, e);
    OneLess(m, q, e);
    if e > 0 {
      BinAt(m, q, e - 1);
    } else if q > 0 {
      BinAt(m, q - 1, Pow2(m - 4) - 1);
    } else {
      RowStart(m, r);
      BinAt(m - 1, 15, Pow2(m - 5) - 1);
    }
  }

  lemma OneLess(m: nat, q: nat, e: nat)
    requires m >= 5
    ensures e > 0 ==> ColumnSize(m, q, e) - 1 == ColumnSize(m, q, e - 1)
    ensures e == 0 && q > 0 ==> ColumnSize(m, q, e) - 1 == ColumnSize(m, q - 1, Pow2(m - 4) - 1)
    ensures e == 0 && q == 0 ==> ColumnSize(m, q, e) == Pow2(m)
  {
    if q > 0 { assert q * Pow2(m - 4) == (q - 1) * Pow2(m - 4) + Pow2(m - 4); }
  }

  lemma RowStart(m: nat, r: nat)
    requires m >= 5 && r == Pow2(m) && r > 32
    ensures m >= 6 && r - 1 == ColumnSize(m - 1, 15, Pow2(m - 5) - 1)
  {
    assert Pow2(5) == 32;
    Sixteenth(m - 1);
    assert Pow2(m) == 2 * Pow2(m - 1);
  }

  /** A size rounded up to five significant bits. */
  function RoundedUp(r: nat): nat
    requires r >= 32
  {
    MsbMonotone(32, r);
    assert Msb(32) == 5;
    var d := Pow2(Msb(r) - 4);
    (r + d - 1) / d * d
  }

  lemma RoundedAt(m: nat, q: nat, e: nat)
    requires 5 <= m && q < 16 && e < Pow2(m - 4)
    ensures ColumnSize(m, q, e) >= 32
    ensures RoundedUp(ColumnSize(m, q, e)) == ColumnSize(m, if e == 0 then q else q + 1, 0)
  {
    hide Msb, Pow2;
    MsbAt(m, q, e);
    Sixteenth(m);
    CeilingOf(q, e, Pow2(m - 4));
  }

  lemma CeilingOf(q: nat, e: nat, d: nat)
    requires e < d
    ensures (16 * d + q * d + e + d - 1) / d * d == 16 * d + (if e == 0 then q else q + 1) * d
  {
    var k, r := if e == 0 then 16 + q else 17 + q, if e == 0 then d - 1 else e - 1;
    assert 16 * d + q * d + e + d - 1 == d * k + r;
    QuotientIs(d, k, r);
  }

  /** The blocks that a search for r bytes finds, by their sizes. Row 0 holds the sizes below 32 and those from 32 to
      63, one over the other; above it a block is found if it has r bytes, rounded up; the last rows run together. */
  predicate Finds(r: nat, z: nat)
  {
    if r < 32 then r <= z < 32 || z >= r + 32
    else if r < 64 then z >= r || r <= z + 32 < 64
    else if r <= MAX_EXACT then z >= RoundedUp(r)
    else z >= 0x20000
  }

  lemma FindsIff(r: nat, z: nat)
    requires 16 <= r < 0x40000 && 16 <= z < 0x40000 && r % 8 == 0 && z % 8 == 0
    ensures InsertBin(z) >= SearchBin(r) <==> Finds(r, z)
  {
    hide InsertBin, SearchBin, RoundedUp;
    if r < 64 {
      FindsLow(r, z);
    } else if r <= MAX_EXACT {
      FindsExact(r, z);
    } else {
      SearchHigh(r);
      if z >= 0x20000 { LastRow(0); InsertBinMonotone(0x20000, z); }
      if InsertBin(z) >= 192 { LastRowLeast(z, 0); }
    }
  }

  lemma FindsExact(r: nat, z: nat)
    requires 64 <= r <= MAX_EXACT && z < 0x40000
    ensures InsertBin(z) >= SearchBin(r) <==> z >= RoundedUp(r)
  {
    hide InsertBin, SearchBin, RoundedUp, Msb, ColumnSize, Pow2;
    var m, q, e := AsSearched(r);
    SearchAt(m, q, e);
    RoundedAt(m, q, e);
    Rounding(m, q, e);
    if z >= RoundedUp(r) {
      RoundedBin(m, q, e);
      InsertBinMonotone(RoundedUp(r), z);
    } else if z < r {
      SearchIsLeast(r);
      if z >= 32 { InsertBinMonotone(z, r - 1); } else { SmallBin(z); SearchRowAboveZero(r); }
    } else {
      SameColumn(m, q, e, z);
      BinAt(m, q, e + (z - r));
    }
  }

  lemma SmallBin(z: nat)
    requires z < 32
    ensures InsertBin(z) < 16
  {
  }

  lemma Rounding(m: nat, q: nat, e: nat)
    requires m >= 5 && e < Pow2(m - 4)
    ensures ColumnSize(m, q, e) <= ColumnSize(m, if e == 0 then q else q + 1, 0) < ColumnSize(m, q, e) + Pow2(m - 4)
  {
    assert (q + 1) * Pow2(m - 4) == q * Pow2(m - 4) + Pow2(m - 4);
  }

  lemma SameColumn(m: nat, q: nat, e: nat, z: nat)
    requires m >= 5 && e < Pow2(m - 4)
    requires ColumnSize(m, q, e) <= z < ColumnSize(m, if e == 0 then q else q + 1, 0)
    ensures e > 0 && z == ColumnSize(m, q, e + (z - ColumnSize(m, q, e))) && e + (z - ColumnSize(m, q, e)) < Pow2(m - 4)
  {
    assert (q + 1) * Pow2(m - 4) == q * Pow2(m - 4) + Pow2(m - 4);
  }

  lemma RoundedBin(m: nat, q: nat, e: nat)
    requires 5 <= m <= 17 && q < 16 && e < Pow2(m - 4) && (e == 0 || q < 15 || m < 17)
    ensures ColumnSize(m, q, e) >= 32
    ensures InsertBin(ColumnSize(m, if e == 0 then q else q + 1, 0)) == 16 * (m - 5) + q + if e == 0 then 0 else 1
  {
    hide InsertBin, Msb;
    MsbAt(m, q, e);
    if e == 0 {
      BinAt(m, q, 0);
    } else if q < 15 {
      BinAt(m, q + 1, 0);
    } else {
      Sixteenth(m);
      assert ColumnSize(m, 16, 0) == ColumnSize(m + 1, 0, 0);
      BinAt(m + 1, 0, 0);
    }
  }

  /** Row 0. */
  lemma FindsLow(r: nat, z: nat)
    requires 16 <= r < 64 && 16 <= z < 0x40000 && r % 8 == 0 && z % 8 == 0
    ensures InsertBin(z) >= SearchBin(r) <==> Finds(r, z)
  {
    hide Msb, InsertBin, SearchBin, RoundedUp;
    LowBins(r);
    if z < 64 { LowBin(z); } else { BinLarge(z); }
  }

  lemma LowBin(z: nat)
    requires z < 64 && z % 8 == 0
    ensures InsertBin(z) == (if z < 32 then z else z - 32) / 2
  {
    Pow2Values();
    if z >= 32 { MsbUnique(z, 5); }
  }

  lemma LowBins(r: nat)
    requires r < 64 && r % 8 == 0
    ensures SearchBin(r) == (if r < 32 then r else r - 32) / 2
  {
    hide Msb;
    Pow2Values();
    if r >= 32 { MsbUnique(r, 5); MsbUnique(r + 1, 5); }
  }

  lemma BinLarge(z: nat)
    requires z >= 64
    ensures InsertBin(z) >= 16
  {
    Pow2Values();
    MsbUnique(64, 6);
    MsbMonotone(64, z);
  }

  /** No more than a sixteenth is added by rounding up. */
  lemma RoundedBelow(r: nat)
    requires r >= 64
    ensures r <= RoundedUp(r) <= r + r / 16
  {
    hide Msb, RoundedUp;
    var m, q, e := AsColumn(r);
    RoundedAt(m, q, e);
    Rounding(m, q, e);
    Sixteenth(m);
    QuotientMonotone(Pow2(m), r, 16);
    if e == 0 { assert RoundedUp(r) == r; }
  }
}
