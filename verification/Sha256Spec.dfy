/** SHA-256 as FIPS 180-4 defines it: padding (section 5.1.1), constants (4.2.2, 5.3.3), hash computation (6.2.2). */
module Sha256Spec {
  import opened Arithmetic
  import opened ByteMemory

  type Byte = bv8
  type Word = bv32
  type Bytes = seq<bv8>

  const BLOCK: nat := 64
  const DIGEST: nat := 32
  const MOD64: nat := 0x1_0000_0000_0000_0000

  // ----- Functions of section 4.1.2

  /** Addition modulo 2^32. */
  function Plus(x: Word, y: Word): Word { x + y }

  function Rotr(x: Word, n: nat): Word
    requires n <= 32
  {
    (x >> n) | (x << (32 - n))
  }

  function Shr(x: Word, n: nat): Word
    requires n <= 32
  {
    x >> n
  }

  function Ch(x: Word, y: Word, z: Word): Word { (x & y) ^ (!x & z) }

  function Maj(x: Word, y: Word, z: Word): Word { (x & y) ^ (x & z) ^ (y & z) }

  function Xor3(x: Word, y: Word, z: Word): Word { x ^ y ^ z }

  function BigSigma0(x: Word): Word { Xor3(Rotr(x, 2), Rotr(x, 13), Rotr(x, 22)) }

  function BigSigma1(x: Word): Word { Xor3(Rotr(x, 6), Rotr(x, 11), Rotr(x, 25)) }

  function SmallSigma0(x: Word): Word { Xor3(Rotr(x, 7), Rotr(x, 18), Shr(x, 3)) }

  function SmallSigma1(x: Word): Word { Xor3(Rotr(x, 17), Rotr(x, 19), Shr(x, 10)) }

  // ----- Constants

  const K: seq<Word> :=
    [ 0x428a2f98, 0x71374491, 0xb5c0fbcf, 0xe9b5dba5, 0x3956c25b, 0x59f111f1, 0x923f82a4, 0xab1c5ed5,
      0xd807aa98, 0x12835b01, 0x243185be, 0x550c7dc3, 0x72be5d74, 0x80deb1fe, 0x9bdc06a7, 0xc19bf174]
  + [ 0xe49b69c1, 0xefbe4786, 0x0fc19dc6, 0x240ca1cc, 0x2de92c6f, 0x4a7484aa, 0x5cb0a9dc, 0x76f988da,
      0x983e5152, 0xa831c66d, 0xb00327c8, 0xbf597fc7, 0xc6e00bf3, 0xd5a79147, 0x06ca6351, 0x14292967]
  + [ 0x27b70a85, 0x2e1b2138, 0x4d2c6dfc, 0x53380d13, 0x650a7354, 0x766a0abb, 0x81c2c92e, 0x92722c85,
      0xa2bfe8a1, 0xa81a664b, 0xc24b8b70, 0xc76c51a3, 0xd192e819, 0xd6990624, 0xf40e3585, 0x106aa070]
  + [ 0x19a4c116, 0x1e376c08, 0x2748774c, 0x34b0bcb5, 0x391c0cb3, 0x4ed8aa4a, 0x5b9cca4f, 0x682e6ff3,
      0x748f82ee, 0x78a5636f, 0x84c87814, 0x8cc70208, 0x90befffa, 0xa4506ceb, 0xbef9a3f7, 0xc67178f2]

  function Constant(t: nat): Word
    requires t < 64
  {
    K[t]
  }

  /** The eight words of a hash value, or the eight working variables. */
  datatype State = State(a: Word, b: Word, c: Word, d: Word, e: Word, f: Word, g: Word, h: Word)

  const INITIAL: State :=
    State(0x6a09e667, 0xbb67ae85, 0x3c6ef372, 0xa54ff53a, 0x510e527f, 0x9b05688c, 0x1f83d9ab, 0x5be0cd19)

  // ----- Section 6.2.2

  function BlockWord(block: Bytes, t: nat): Word
    requires |block| == BLOCK && t < 16
  {
    (block[4 * t] as Word << 24) | (block[4 * t + 1] as Word << 16)
    | (block[4 * t + 2] as Word << 8) | (block[4 * t + 3] as Word)
  }

  /** Word t of the message schedule. */
  function Schedule(block: Bytes, t: nat): Word
    requires |block| == BLOCK
  {
    if t < 16 then BlockWord(block, t)
    else ScheduleNext(Schedule(block, t - 2), Schedule(block, t - 7), Schedule(block, t - 15), Schedule(block, t - 16))
  }

  function ScheduleNext(w2: Word, w7: Word, w15: Word, w16: Word): Word {
    Plus(Plus(Plus(SmallSigma1(w2), w7), SmallSigma0(w15)), w16)
  }

  function Round(s: State, k: Word, w: Word): State {
    var t1 := Plus(Plus(Plus(Plus(s.h, BigSigma1(s.e)), Ch(s.e, s.f, s.g)), k), w);
    var t2 := Plus(BigSigma0(s.a), Maj(s.a, s.b, s.c));
    State(Plus(t1, t2), s.a, s.b, s.c, Plus(s.d, t1), s.e, s.f, s.g)
  }

  /** The working variables after t rounds. */
  function Rounds(s: State, block: Bytes, t: nat): State
    requires |block| == BLOCK && t <= 64
  {
    if t == 0 then s else Round(Rounds(s, block, t - 1), Constant(t - 1), Schedule(block, t - 1))
  }

  function Sum(s: State, v: State): State {
    State(Plus(s.a, v.a), Plus(s.b, v.b), Plus(s.c, v.c), Plus(s.d, v.d),
          Plus(s.e, v.e), Plus(s.f, v.f), Plus(s.g, v.g), Plus(s.h, v.h))
  }

  function Compress(s: State, block: Bytes): State
    requires |block| == BLOCK
  {
    Sum(s, Rounds(s, block, 64))
  }

  /** The hash value after all the blocks of a padded message. */
  function Blocks(s: State, m: Bytes): State
    requires |m| % BLOCK == 0
  {
    if m == [] then s else Compress(Blocks(s, m[..|m| - BLOCK]), m[|m| - BLOCK..])
  }

  // ----- Section 5.1.1

  function Zeros(n: nat): (z: Bytes)
    ensures |z| == n
  {
    seq(n, _ => 0)
  }

  /** How many zero bytes follow the 0x80 byte. */
  function ZeroBytes(length: nat): nat {
    (BLOCK + 55 - length % BLOCK) % BLOCK
  }

  predicate PadsTo448(length: nat, zeroBits: nat) { (8 * length + 1 + zeroBits) % 512 == 448 }

  /** The number of zero bits after the 1 bit is the least that makes the length 448 modulo 512. */
  lemma ZeroBitsLeast(length: nat)
    ensures PadsTo448(length, 7 + 8 * ZeroBytes(length))
    ensures forall z | 0 <= z < 7 + 8 * ZeroBytes(length) :: !PadsTo448(length, z)
  {
    var q := PaddedTurns(length);
    forall z | 0 <= z < 7 + 8 * ZeroBytes(length) ensures !PadsTo448(length, z) { NotSooner(length, z, q); }
  }

  lemma PaddedTurns(length: nat) returns (q: nat)
    ensures ZeroBytes(length) < 64 && 8 * length + 1 + (7 + 8 * ZeroBytes(length)) == 512 * q + 448
  {
    var r := length % BLOCK;
    q := length / BLOCK + if r <= 55 then 0 else 1;
    assert length == BLOCK * (length / BLOCK) + r;
  }

  lemma NotSooner(length: nat, z: nat, q: nat)
    requires ZeroBytes(length) < 64 && 8 * length + 1 + (7 + 8 * ZeroBytes(length)) == 512 * q + 448
    requires z < 7 + 8 * ZeroBytes(length)
    ensures !PadsTo448(length, z)
  {
    hide ZeroBytes;
  }

  lemma PaddedLength(length: nat)
    ensures (length + 1 + ZeroBytes(length) + 8) % BLOCK == 0
  {
    var r, q, k := length % BLOCK, length / BLOCK, ZeroBytes(length);
    assert length == BLOCK * q + r;
    var turns := if r <= 55 then 1 else 2;
    assert length + 1 + k + 8 == BLOCK * (q + turns);
  }

  /** Byte i of a number, counted from the least significant. */
  function NthByte(n: nat, i: nat): Byte {
    (n / Pow256(i) % 256) as Byte
  }

  /** The number that bytes stand for, the most significant first. */
  function BigEndian(bs: Bytes): nat
  {
    if bs == [] then 0 else 256 * BigEndian(bs[..|bs| - 1]) + bs[|bs| - 1] as nat
  }

  /** A number as n bytes, the most significant first. */
  function BigEndianBytes(v: nat, n: nat): (bs: Bytes)
    ensures |bs| == n
  {
    if n == 0 then [] else BigEndianBytes(v / 256, n - 1) + [(v % 256) as Byte]
  }

  /** Bytes read back as the number they were written from. */
  lemma {:induction false} BigEndianValue(v: nat, n: nat)
    ensures BigEndian(BigEndianBytes(v, n)) == v % Pow256(n)
  {
    if n > 0 {
      var front := BigEndianBytes(v / 256, n - 1);
      var bs := BigEndianBytes(v, n);
      BigEndianValue(v / 256, n - 1);
      assert bs[..n - 1] == front && bs[n - 1] == (v % 256) as Byte;
      ByteOf(v % 256);
      ModDigit(v, 256, Pow256(n - 1));
    }
  }

  lemma NthShift(v: nat, i: nat)
    ensures NthByte(v, i + 1) == NthByte(v / 256, i)
  {
    DivTwice(v, Pow256(i));
  }

  lemma DivTwice(v: nat, p: nat)
    requires p > 0
    ensures v / (256 * p) == v / 256 / p
  {
    var q, r := v / 256 / p, v / 256 % p;
    assert v / 256 == p * q + r;
    assert v == 256 * p * q + (256 * r + v % 256);
    QuotientIs(256 * p, q, 256 * r + v % 256);
  }

  /** Byte for byte. */
  lemma {:induction false} BigEndianAt(v: nat, n: nat, j: nat)
    requires j < n
    ensures BigEndianBytes(v, n)[j] == NthByte(v, n - 1 - j)
  {
    hide NthByte;
    if j == n - 1 {
      LastByte(v);
    } else {
      BigEndianAt(v / 256, n - 1, j);
      NthShift(v, n - 2 - j);
    }
  }

  lemma LastByte(v: nat)
    ensures NthByte(v, 0) == (v % 256) as Byte
  {
  }

  /** The length in bits as eight bytes, most significant first. For the messages of FIPS 180-4, which are shorter
      than 2^64 bits, the modulo changes nothing. */
  function LengthField(length: nat): (r: Bytes)
    ensures |r| == 8
  {
    seq(8, j requires 0 <= j < 8 => NthByte(8 * length % MOD64, 7 - j))
  }

  lemma LengthFieldValue(length: nat)
    ensures BigEndian(LengthField(length)) == 8 * length % MOD64
  {
    hide NthByte, BigEndian, BigEndianBytes, Pow256;
    var v := 8 * length % MOD64;
    forall j | 0 <= j < 8 ensures LengthField(length)[j] == BigEndianBytes(v, 8)[j] { BigEndianAt(v, 8, j); }
    assert LengthField(length) == BigEndianBytes(v, 8);
    BigEndianValue(v, 8);
    Powers();
  }

  function Padding(length: nat): (r: Bytes)
    ensures (length + |r|) % BLOCK == 0
  {
    PaddedLength(length);
    [0x80] + Zeros(ZeroBytes(length)) + LengthField(length)
  }

  function WordBytes(w: Word): (r: Bytes)
    ensures |r| == 4
  {
    [((w >> 24) & 0xff) as Byte, ((w >> 16) & 0xff) as Byte, ((w >> 8) & 0xff) as Byte, (w & 0xff) as Byte]
  }

  function WordOf(s: State, i: nat): Word
    requires i < 8
  {
    if i == 0 then s.a else if i == 1 then s.b else if i == 2 then s.c else if i == 3 then s.d
    else if i == 4 then s.e else if i == 5 then s.f else if i == 6 then s.g else s.h
  }

  /** The bytes of the first n words of a hash value. */
  function Output(s: State, n: nat): (r: Bytes)
    requires n <= 8
    ensures |r| == 4 * n
  {
    if n == 0 then [] else Output(s, n - 1) + WordBytes(WordOf(s, n - 1))
  }

  /** The message and its padding, in whole blocks. */
  function Padded(m: Bytes): (r: Bytes)
    ensures |r| % BLOCK == 0
  {
    m + Padding(|m|)
  }

  /** The SHA-256 digest of a message. */
  function Sha256(m: Bytes): (r: Bytes)
    ensures |r| == DIGEST
  {
    Output(Blocks(INITIAL, Padded(m)), 8)
  }

  // ----- Blocks of a concatenation

  lemma BlocksAppend(s: State, m: Bytes, block: Bytes)
    requires |m| % BLOCK == 0 && |block| == BLOCK
    ensures Blocks(s, m + block) == Compress(Blocks(s, m), block)
  {
    var both := m + block;
    assert both[..|both| - BLOCK] == m && both[|both| - BLOCK..] == block;
  }
}
