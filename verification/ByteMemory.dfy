/** Byte-addressed memory and little-endian fields in it. */
module ByteMemory {

  type byte = b: int | 0 <= b < 256

  function Pow256(n: nat): (r: nat)
    ensures r > 0
  {
    if n == 0 then 1 else 256 * Pow256(n - 1)
  }

  lemma Powers()
    ensures Pow256(0) == 1 && Pow256(1) == 0x100 && Pow256(2) == 0x1_0000 && Pow256(3) == 0x100_0000
    ensures Pow256(4) == 0x1_0000_0000 && Pow256(8) == 0x1_0000_0000_0000_0000
  {
  }

  /** The n-byte little-endian field at address a. */
  function Load(m: seq<byte>, a: nat, n: nat): (v: nat)
    requires a + n <= |m|
    decreases n
  {
    if n == 0 then 0 else m[a] + 256 * Load(m, a + 1, n - 1)
  }

  function Store(m: seq<byte>, a: nat, n: nat, v: nat): (r: seq<byte>)
    requires a + n <= |m|
    ensures |r| == |m|
    ensures forall x | 0 <= x < |m| && !(a <= x < a + n) :: r[x] == m[x]
    decreases n
  {
    if n == 0 then m else Store(m[a := v % 256], a + 1, n - 1, v / 256)
  }

  lemma {:induction false} LoadFrame(m: seq<byte>, m': seq<byte>, a: nat, n: nat)
    requires a + n <= |m| && |m'| == |m|
    requires forall x | a <= x < a + n :: m'[x] == m[x]
    ensures Load(m', a, n) == Load(m, a, n)
    decreases n
  {
    if n > 0 { LoadFrame(m, m', a + 1, n - 1); }
  }

  /** A field reads back what was last stored in it. */
  lemma {:induction false} LoadStored(m: seq<byte>, a: nat, n: nat, v: nat)
    requires a + n <= |m| && v < Pow256(n)
    ensures Load(Store(m, a, n, v), a, n) == v
    decreases n
  {
    if n > 0 {
      LoadStored(m[a := v % 256], a + 1, n - 1, v / 256);
    }
  }

  /** A store leaves every disjoint field alone. */
  lemma LoadApart(m: seq<byte>, a: nat, n: nat, v: nat, a': nat, n': nat)
    requires a + n <= |m| && a' + n' <= |m|
    requires a + n <= a' || a' + n' <= a
    ensures Load(Store(m, a, n, v), a', n') == Load(m, a', n')
  {
    LoadFrame(m, Store(m, a, n, v), a', n');
  }

  lemma {:induction false} LoadBound(m: seq<byte>, a: nat, n: nat)
    requires a + n <= |m|
    ensures Load(m, a, n) < Pow256(n)
    decreases n
  {
    if n > 0 { LoadBound(m, a + 1, n - 1); }
  }
}
