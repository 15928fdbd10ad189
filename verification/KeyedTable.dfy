/** Fixed tables whose entries are found by a truncated string, as the SoftBus keeps them
    (net/distributed_bus.hpp:51-58, 95-104). Entries are filled from the front and never given up. */
module KeyedTable {

  const MOD32: nat := 0x1_0000_0000

  type Uint32 = n: int | 0 <= n < 0x1_0000_0000

  function Sub32(a: Uint32, b: Uint32): Uint32 {
    if a >= b then a - b else a - b + MOD32
  }

  function Add32(a: Uint32, b: Uint32): Uint32 {
    (a + b) % MOD32
  }

  datatype Entry<V> = Entry(key: string, value: V, valid: bool)

  ghost predicate Listed<V>(es: seq<Entry<V>>, n: nat, key: string)
    requires n <= |es|
  {
    exists i :: 0 <= i < n && es[i].key == key
  }

  ghost predicate Agrees<V>(e: Entry<V>, m: map<string, V>) { e.key in m && m[e.key] == e.value }

  /** The table holds exactly the pairs of m: each key once, in the first |m| entries. */
  ghost predicate Represents<V>(es: seq<Entry<V>>, m: map<string, V>)
  {
    && |m| <= |es|
    && (forall i | 0 <= i < |es| :: es[i].valid == (i < |m|))
    && (forall i | 0 <= i < |m| :: Agrees(es[i], m))
    && (forall i, j | 0 <= i < j < |m| :: es[i].key != es[j].key)
    && (forall k | k in m :: Listed(es, |m|, k))
  }

  /** Where a key is, if it is in the table. */
  predicate FoundAt<V>(es: seq<Entry<V>>, key: string, r: int)
  {
    if r >= 0 then r < |es| && es[r].valid && es[r].key == key
    else forall i | 0 <= i < |es| :: !(es[i].valid && es[i].key == key)
  }

  method Find<V>(a: array<Entry<V>>, key: string) returns (r: int)
    ensures FoundAt(a[..], key, r)
  {
    r := -1;
    for i := 0 to a.Length
      invariant r == -1 && forall j | 0 <= j < i :: !(a[j].valid && a[j].key == key)
    {
      if a[i].valid && a[i].key == key { return i; }
    }
  }

  /** The first entry not in use, if there is one. */
  predicate EmptyAt<V>(es: seq<Entry<V>>, r: int)
  {
    if r >= 0 then r < |es| && !es[r].valid && forall i | 0 <= i < r :: es[i].valid
    else forall i | 0 <= i < |es| :: es[i].valid
  }

  method FindEmpty<V>(a: array<Entry<V>>) returns (r: int)
    ensures EmptyAt(a[..], r)
  {
    r := -1;
    for i := 0 to a.Length
      invariant r == -1 && forall j | 0 <= j < i :: a[j].valid
    {
      if !a[i].valid { return i; }
    }
  }

  lemma FoundIff<V>(es: seq<Entry<V>>, m: map<string, V>, key: string, r: int)
    requires Represents(es, m) && FoundAt(es, key, r)
    ensures r >= 0 <==> key in m
    ensures r >= 0 ==> r < |m| && m[key] == es[r].value
  {
    if key in m {
      assert Listed(es, |m|, key);
    }
    if r >= 0 {
      assert Agrees(es[r], m);
    }
  }

  lemma EmptyIff<V>(es: seq<Entry<V>>, m: map<string, V>, r: int)
    requires Represents(es, m) && EmptyAt(es, r)
    ensures r >= 0 <==> |m| < |es|
    ensures r >= 0 ==> r == |m|
  {
    if |m| < |es| {
      assert !es[|m|].valid;
    }
  }

  lemma Updated<V>(es: seq<Entry<V>>, m: map<string, V>, r: nat, v: V)
    requires Represents(es, m) && r < |m|
    ensures Represents(es[r := es[r].(value := v)], m[es[r].key := v])
  {
    var es', m' := es[r := es[r].(value := v)], m[es[r].key := v];
    assert Agrees(es[r], m);
    SameSize(m, es[r].key, v);
    forall i | 0 <= i < |m'| ensures Agrees(es'[i], m') { assert Agrees(es[i], m); }
    forall k | k in m' ensures Listed(es', |m'|, k) { StillListed(es, es', |m|, |m'|, k); }
  }

  lemma SameSize<V>(m: map<string, V>, key: string, v: V)
    requires key in m
    ensures |m[key := v]| == |m| && m[key := v].Keys == m.Keys
  {
    var m' := m[key := v];
    assert m'.Keys == m.Keys && |m'.Keys| == |m'| && |m.Keys| == |m|;
  }

  lemma OneMore<V>(m: map<string, V>, key: string, v: V)
    requires key !in m
    ensures |m[key := v]| == |m| + 1
  {
    var m' := m[key := v];
    assert m'.Keys == m.Keys + {key} && |m'.Keys| == |m'| && |m.Keys| == |m|;
  }

  /** Entries that keep their keys list what they listed. */
  lemma StillListed<V>(es: seq<Entry<V>>, es': seq<Entry<V>>, n: nat, n': nat, k: string)
    requires n <= |es| == |es'| && n <= n' <= |es'| && Listed(es, n, k)
    requires forall i | 0 <= i < n :: es'[i].key == es[i].key
    ensures Listed(es', n', k)
  {
    var i :| 0 <= i < n && es[i].key == k;
    assert es'[i].key == k;
  }

  lemma Inserted<V>(es: seq<Entry<V>>, m: map<string, V>, key: string, v: V)
    requires Represents(es, m) && |m| < |es| && key !in m
    ensures Represents(es[|m| := Entry(key, v, true)], m[key := v])
  {
    var es', m' := es[|m| := Entry(key, v, true)], m[key := v];
    OneMore(m, key, v);
    forall i | 0 <= i < |m'| ensures Agrees(es'[i], m') { assert i < |m| ==> Agrees(es[i], m); }
    forall i, j | 0 <= i < j < |m'| ensures es'[i].key != es'[j].key { assert Agrees(es[i], m); }
    forall k | k in m' ensures Listed(es', |m'|, k) {
      if k != key {
        StillListed(es, es', |m|, |m'|, k);
      } else {
        assert es'[|m|].key == k;
      }
    }
  }
}
