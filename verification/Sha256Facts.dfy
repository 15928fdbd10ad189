/** What the functions and constants of FIPS 180-4 are, said without their definitions: bit by bit, and as roots of the
    first primes (sections 4.1.2, 4.2.2 and 5.3.3). */
module Sha256Facts {
  import opened Sha256Spec

  /** Bit i of a word, counted from the least significant. */
  predicate Bit(x: Word, i: Word)
    requires i < 32
  {
    (x >> i) & 1 == 1
  }

  lemma LowBit(x: Word, y: Word) returns (i: Word)
    requires x & 0xffff != y & 0xffff
    ensures i < 32 && Bit(x, i) != Bit(y, i)
  {
    i := if Bit(x, 0) != Bit(y, 0) then 0 else if Bit(x, 1) != Bit(y, 1) then 1
         else if Bit(x, 2) != Bit(y, 2) then 2 else if Bit(x, 3) != Bit(y, 3) then 3
         else if Bit(x, 4) != Bit(y, 4) then 4 else if Bit(x, 5) != Bit(y, 5) then 5
         else if Bit(x, 6) != Bit(y, 6) then 6 else if Bit(x, 7) != Bit(y, 7) then 7
         else if Bit(x, 8) != Bit(y, 8) then 8 else if Bit(x, 9) != Bit(y, 9) then 9
         else if Bit(x, 10) != Bit(y, 10) then 10 else if Bit(x, 11) != Bit(y, 11) then 11
         else if Bit(x, 12) != Bit(y, 12) then 12 else if Bit(x, 13) != Bit(y, 13) then 13
         else if Bit(x, 14) != Bit(y, 14) then 14 else 15;
  }

  lemma HighBit(x: Word, y: Word) returns (i: Word)
    requires x & 0xffff0000 != y & 0xffff0000
    ensures i < 32 && Bit(x, i) != Bit(y, i)
  {
    i := if Bit(x, 16) != Bit(y, 16) then 16 else if Bit(x, 17) != Bit(y, 17) then 17
         else if Bit(x, 18) != Bit(y, 18) then 18 else if Bit(x, 19) != Bit(y, 19) then 19
         else if Bit(x, 20) != Bit(y, 20) then 20 else if Bit(x, 21) != Bit(y, 21) then 21
         else if Bit(x, 22) != Bit(y, 22) then 22 else if Bit(x, 23) != Bit(y, 23) then 23
         else if Bit(x, 24) != Bit(y, 24) then 24 else if Bit(x, 25) != Bit(y, 25) then 25
         else if Bit(x, 26) != Bit(y, 26) then 26 else if Bit(x, 27) != Bit(y, 27) then 27
         else if Bit(x, 28) != Bit(y, 28) then 28 else if Bit(x, 29) != Bit(y, 29) then 29
         else if Bit(x, 30) != Bit(y, 30) then 30 else 31;
  }

  /** Words that differ do so in some bit. */
  lemma SomeBit(x: Word, y: Word) returns (i: Word)
    requires x != y
    ensures i < 32 && Bit(x, i) != Bit(y, i)
  {
    hide Bit;
    if x & 0xffff != y & 0xffff { i := LowBit(x, y); } else { i := HighBit(x, y); }
  }

  /** x chooses between y and z. */
  lemma ChBit(x: Word, y: Word, z: Word, i: Word)
    requires i < 32
    ensures Bit(Ch(x, y, z), i) == if Bit(x, i) then Bit(y, i) else Bit(z, i)
  {
    assert Bit(x, i) || (x >> i) & 1 == 0;
  }

  /** Two of the three at least. */
  lemma MajBit(x: Word, y: Word, z: Word, i: Word)
    requires i < 32
    ensures Bit(Maj(x, y, z), i) == if Bit(x, i) == Bit(y, i) then Bit(x, i) else Bit(z, i)
  {
    assert Bit(x, i) || (x >> i) & 1 == 0;
  }

  lemma XorBit(x: Word, y: Word, z: Word, i: Word)
    requires i < 32
    ensures Bit(Xor3(x, y, z), i) == ((Bit(x, i) == Bit(y, i)) == Bit(z, i))
  {
    assert Bit(x, i) || (x >> i) & 1 == 0;
    assert Bit(y, i) || (y >> i) & 1 == 0;
    assert Bit(z, i) || (z >> i) & 1 == 0;
  }

  /** The place n above i, counted around the word. */
  function Turned(i: Word, n: Word): (r: Word)
    requires i < 32 && n < 32
    ensures r < 32
  {
    (i + n) % 32
  }

  /** A rotation takes the bit from n places above, a shift too while there is one. */
  lemma Rotated2(x: Word, i: Word)
    requires i < 32
    ensures Bit(Rotr(x, 2), i) == Bit(x, Turned(i, 2))
  {
  }

  lemma Rotated13(x: Word, i: Word)
    requires i < 32
    ensures Bit(Rotr(x, 13), i) == Bit(x, Turned(i, 13))
  {
  }

  lemma Rotated22(x: Word, i: Word)
    requires i < 32
    ensures Bit(Rotr(x, 22), i) == Bit(x, Turned(i, 22))
  {
  }

  lemma Rotated6(x: Word, i: Word)
    requires i < 32
    ensures Bit(Rotr(x, 6), i) == Bit(x, Turned(i, 6))
  {
  }

  lemma Rotated11(x: Word, i: Word)
    requires i < 32
    ensures Bit(Rotr(x, 11), i) == Bit(x, Turned(i, 11))
  {
  }

  lemma Rotated25(x: Word, i: Word)
    requires i < 32
    ensures Bit(Rotr(x, 25), i) == Bit(x, Turned(i, 25))
  {
  }

  lemma Rotated7(x: Word, i: Word)
    requires i < 32
    ensures Bit(Rotr(x, 7), i) == Bit(x, Turned(i, 7))
  {
  }

  lemma Rotated18(x: Word, i: Word)
    requires i < 32
    ensures Bit(Rotr(x, 18), i) == Bit(x, Turned(i, 18))
  {
  }

  lemma Rotated17(x: Word, i: Word)
    requires i < 32
    ensures Bit(Rotr(x, 17), i) == Bit(x, Turned(i, 17))
  {
  }

  lemma Rotated19(x: Word, i: Word)
    requires i < 32
    ensures Bit(Rotr(x, 19), i) == Bit(x, Turned(i, 19))
  {
  }

  lemma Shifted3(x: Word, i: Word)
    requires i < 32
    ensures Bit(Shr(x, 3), i) == (i < 29 && Bit(x, i + 3))
  {
  }

  lemma Shifted10(x: Word, i: Word)
    requires i < 32
    ensures Bit(Shr(x, 10), i) == (i < 22 && Bit(x, i + 10))
  {
  }

  lemma BigSigma0Bit(x: Word, i: Word)
    requires i < 32
    ensures Bit(BigSigma0(x), i) == ((Bit(x, Turned(i, 2)) == Bit(x, Turned(i, 13))) == Bit(x, Turned(i, 22)))
  {
    hide Rotr, Shr, Xor3, Bit, Turned;
    Rotated2(x, i);
    Rotated13(x, i);
    Rotated22(x, i);
    XorBit(Rotr(x, 2), Rotr(x, 13), Rotr(x, 22), i);
  }

  lemma BigSigma1Bit(x: Word, i: Word)
    requires i < 32
    ensures Bit(BigSigma1(x), i) == ((Bit(x, Turned(i, 6)) == Bit(x, Turned(i, 11))) == Bit(x, Turned(i, 25)))
  {
    hide Rotr, Shr, Xor3, Bit, Turned;
    Rotated6(x, i);
    Rotated11(x, i);
    Rotated25(x, i);
    XorBit(Rotr(x, 6), Rotr(x, 11), Rotr(x, 25), i);
  }

  lemma SmallSigma0Bit(x: Word, i: Word)
    requires i < 32
    ensures Bit(SmallSigma0(x), i) == ((Bit(x, Turned(i, 7)) == Bit(x, Turned(i, 18))) == (i < 29 && Bit(x, i + 3)))
  {
    hide Rotr, Shr, Xor3, Bit, Turned;
    Rotated7(x, i);
    Rotated18(x, i);
    Shifted3(x, i);
    XorBit(Rotr(x, 7), Rotr(x, 18), Shr(x, 3), i);
  }

  lemma SmallSigma1Bit(x: Word, i: Word)
    requires i < 32
    ensures Bit(SmallSigma1(x), i) == ((Bit(x, Turned(i, 17)) == Bit(x, Turned(i, 19))) == (i < 22 && Bit(x, i + 10)))
  {
    hide Rotr, Shr, Xor3, Bit, Turned;
    Rotated17(x, i);
    Rotated19(x, i);
    Shifted10(x, i);
    XorBit(Rotr(x, 17), Rotr(x, 19), Shr(x, 10), i);
  }

  /** The first byte holds the highest eight bits. */
  lemma WordBytesBit(w: Word, j: nat, i: Word)
    requires j < 4 && i < 8
    ensures Bit(WordBytes(w)[j] as Word, i) == Bit(w, 8 * (3 - j) as Word + i)
  {
    if j == 0 { assert (w >> (24 + i)) & 1 == (((w >> 24) & 0xff) >> i) & 1; }
  }

  /** A block's words read from it as they are written. */
  lemma WordReadBack(block: Bytes, t: nat)
    requires |block| == BLOCK && t < 16
    ensures WordBytes(BlockWord(block, t)) == block[4 * t..4 * t + 4]
  {
  }

  // ----- Roots of primes

  const TWO32: nat := 0x1_0000_0000

  /** The primes up to 311. */
  const PRIMES: seq<nat> :=
    [2, 3, 5, 7, 11, 13, 17, 19, 23, 29, 31, 37, 41, 43, 47, 53]
  + [59, 61, 67, 71, 73, 79, 83, 89, 97, 101, 103, 107, 109, 113, 127, 131]
  + [137, 139, 149, 151, 157, 163, 167, 173, 179, 181, 191, 193, 197, 199, 211, 223]
  + [227, 229, 233, 239, 241, 251, 257, 263, 269, 271, 277, 281, 283, 293, 307, 311]

  /** q is the cube root of p in units of 2^-32, rounded down. */
  predicate CubeRoot(p: nat, q: nat) {
    q * q * q <= p * TWO32 * TWO32 * TWO32 < (q + 1) * (q + 1) * (q + 1)
  }

  predicate SquareRoot(p: nat, q: nat) {
    q * q <= p * TWO32 * TWO32 < (q + 1) * (q + 1)
  }

  function CubeFloor(p: nat): nat {
    if p < 8 then 1 else if p < 27 then 2 else if p < 64 then 3 else if p < 125 then 4 else if p < 216 then 5 else 6
  }

  function SquareFloor(p: nat): nat {
    if p < 4 then 1 else if p < 9 then 2 else if p < 16 then 3 else 4
  }

  /** The first 32 bits of the fraction of a prime's cube root. */
  predicate CubeFraction(p: nat, k: Word) {
    CubeRoot(p, CubeFloor(p) * TWO32 + k as nat)
  }

  predicate SquareFraction(p: nat, k: Word) {
    SquareRoot(p, SquareFloor(p) * TWO32 + k as nat)
  }

  lemma Squares()
    ensures SquareFraction(2, 0x6a09e667) && SquareFraction(3, 0xbb67ae85)
    ensures SquareFraction(5, 0x3c6ef372) && SquareFraction(7, 0xa54ff53a)
    ensures SquareFraction(11, 0x510e527f) && SquareFraction(13, 0x9b05688c)
    ensures SquareFraction(17, 0x1f83d9ab) && SquareFraction(19, 0x5be0cd19)
  {
  }

  /** The initial hash value comes from the first eight primes. */
  lemma InitialRoots(i: nat)
    requires i < 8
    ensures SquareFraction(PRIMES[i], WordOf(INITIAL, i))
  {
    hide SquareFraction;
    Squares();
    assert i == 0 || i == 1 || i == 2 || i == 3 || i == 4 || i == 5 || i == 6 || i == 7;
  }

  lemma Cubes0()
    ensures CubeFraction(2, 0x428a2f98) && CubeFraction(3, 0x71374491)
    ensures CubeFraction(5, 0xb5c0fbcf) && CubeFraction(7, 0xe9b5dba5)
    ensures CubeFraction(11, 0x3956c25b) && CubeFraction(13, 0x59f111f1)
    ensures CubeFraction(17, 0x923f82a4) && CubeFraction(19, 0xab1c5ed5)
  {
  }

  lemma Cubes8()
    ensures CubeFraction(23, 0xd807aa98) && CubeFraction(29, 0x12835b01)
    ensures CubeFraction(31, 0x243185be) && CubeFraction(37, 0x550c7dc3)
    ensures CubeFraction(41, 0x72be5d74) && CubeFraction(43, 0x80deb1fe)
    ensures CubeFraction(47, 0x9bdc06a7) && CubeFraction(53, 0xc19bf174)
  {
  }

  lemma Cubes16()
    ensures CubeFraction(59, 0xe49b69c1) && CubeFraction(61, 0xefbe4786)
    ensures CubeFraction(67, 0x0fc19dc6) && CubeFraction(71, 0x240ca1cc)
    ensures CubeFraction(73, 0x2de92c6f) && CubeFraction(79, 0x4a7484aa)
    ensures CubeFraction(83, 0x5cb0a9dc) && CubeFraction(89, 0x76f988da)
  {
  }

  lemma Cubes24()
    ensures CubeFraction(97, 0x983e5152) && CubeFraction(101, 0xa831c66d)
    ensures CubeFraction(103, 0xb00327c8) && CubeFraction(107, 0xbf597fc7)
    ensures CubeFraction(109, 0xc6e00bf3) && CubeFraction(113, 0xd5a79147)
    ensures CubeFraction(127, 0x06ca6351) && CubeFraction(131, 0x14292967)
  {
  }

  lemma Cubes32()
    ensures CubeFraction(137, 0x27b70a85) && CubeFraction(139, 0x2e1b2138)
    ensures CubeFraction(149, 0x4d2c6dfc) && CubeFraction(151, 0x53380d13)
    ensures CubeFraction(157, 0x650a7354) && CubeFraction(163, 0x766a0abb)
    ensures CubeFraction(167, 0x81c2c92e) && CubeFraction(173, 0x92722c85)
  {
  }

  lemma Cubes40()
    ensures CubeFraction(179, 0xa2bfe8a1) && CubeFraction(181, 0xa81a664b)
    ensures CubeFraction(191, 0xc24b8b70) && CubeFraction(193, 0xc76c51a3)
    ensures CubeFraction(197, 0xd192e819) && CubeFraction(199, 0xd6990624)
    ensures CubeFraction(211, 0xf40e3585) && CubeFraction(223, 0x106aa070)
  {
  }

  lemma Cubes48()
    ensures CubeFraction(227, 0x19a4c116) && CubeFraction(229, 0x1e376c08)
    ensures CubeFraction(233, 0x2748774c) && CubeFraction(239, 0x34b0bcb5)
    ensures CubeFraction(241, 0x391c0cb3) && CubeFraction(251, 0x4ed8aa4a)
    ensures CubeFraction(257, 0x5b9cca4f) && CubeFraction(263, 0x682e6ff3)
  {
  }

  lemma Cubes56()
    ensures CubeFraction(269, 0x748f82ee) && CubeFraction(271, 0x78a5636f)
    ensures CubeFraction(277, 0x84c87814) && CubeFraction(281, 0x8cc70208)
    ensures CubeFraction(283, 0x90befffa) && CubeFraction(293, 0xa4506ceb)
    ensures CubeFraction(307, 0xbef9a3f7) && CubeFraction(311, 0xc67178f2)
  {
  }

  lemma Roots0(t: nat)
    requires t < 8
    ensures CubeFraction(PRIMES[t], Constant(t))
  {
    hide CubeFraction;
    Cubes0();
  }

  lemma Roots8(t: nat)
    requires 8 <= t < 16
    ensures CubeFraction(PRIMES[t], Constant(t))
  {
    hide CubeFraction;
    Cubes8();
  }

  lemma Roots16(t: nat)
    requires 16 <= t < 24
    ensures CubeFraction(PRIMES[t], Constant(t))
  {
    hide CubeFraction;
    Cubes16();
  }

  lemma Roots24(t: nat)
    requires 24 <= t < 32
    ensures CubeFraction(PRIMES[t], Constant(t))
  {
    hide CubeFraction;
    Cubes24();
  }

  lemma Roots32(t: nat)
    requires 32 <= t < 40
    ensures CubeFraction(PRIMES[t], Constant(t))
  {
    hide CubeFraction;
    Cubes32();
  }

  lemma Roots40(t: nat)
    requires 40 <= t < 48
    ensures CubeFraction(PRIMES[t], Constant(t))
  {
    hide CubeFraction;
    Cubes40();
  }

  lemma Roots48(t: nat)
    requires 48 <= t < 56
    ensures CubeFraction(PRIMES[t], Constant(t))
  {
    hide CubeFraction;
    Cubes48();
  }

  lemma Roots56(t: nat)
    requires 56 <= t < 64
    ensures CubeFraction(PRIMES[t], Constant(t))
  {
    hide CubeFraction;
    Cubes56();
  }

  /** The constants come from the first sixty-four. */
  lemma CubeRoots(t: nat)
    requires t < 64
    ensures CubeFraction(PRIMES[t], Constant(t))
  {
    hide CubeFraction;
    if t < 8 { Roots0(t); } else if t < 16 { Roots8(t); } else if t < 24 { Roots16(t); } else if t < 32 { Roots24(t); }
    else if t < 40 { Roots32(t); } else if t < 48 { Roots40(t); } else if t < 56 { Roots48(t); } else { Roots56(t); }
  }
}
