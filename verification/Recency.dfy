/** The eviction order of the page cache: the valid slots, ordered by access tick, form an eight-entry
    move-to-front list (vfs/photon_cache.hpp:51-83, 105-131, 211-223). */
module Recency {
  import opened CacheModel

  type PageKey = (nat, nat)

  function KeyOf(s: Slot): PageKey { (s.block, s.offset) }

  // ----- Counting the valid slots

  ghost function KeysUpTo(pool: Pool, n: nat): set<PageKey>
    requires n <= POOL_SIZE
  {
    if n == 0 then {} else KeysUpTo(pool, n - 1) + (if pool[n - 1].valid then {KeyOf(pool[n - 1])} else {})
  }

  function CountValid(pool: Pool, n: nat): (c: nat)
    requires n <= POOL_SIZE
    ensures c <= n
  {
    if n == 0 then 0 else CountValid(pool, n - 1) + (if pool[n - 1].valid then 1 else 0)
  }

  ghost function Keys(pool: Pool): set<PageKey> { KeysUpTo(pool, POOL_SIZE) }

  lemma {:induction false} KeysAre(pool: Pool, n: nat)
    requires n <= POOL_SIZE
    ensures forall k :: k in KeysUpTo(pool, n) <==> exists i :: 0 <= i < n && pool[i].valid && KeyOf(pool[i]) == k
  {
    if n > 0 { KeysAre(pool, n - 1); }
  }

  lemma {:induction false} KeyCount(pool: Pool, n: nat)
    requires Unique(pool) && n <= POOL_SIZE
    ensures |KeysUpTo(pool, n)| == CountValid(pool, n)
  {
    if n > 0 {
      KeyCount(pool, n - 1);
      if pool[n - 1].valid { KeyIsNew(pool, n - 1); }
    }
  }

  lemma KeyIsNew(pool: Pool, n: nat)
    requires Unique(pool) && n < POOL_SIZE && pool[n].valid
    ensures KeyOf(pool[n]) !in KeysUpTo(pool, n)
  {
    KeysAre(pool, n);
  }

  lemma {:induction false} CountFull(pool: Pool, n: nat)
    requires n <= POOL_SIZE && forall i | 0 <= i < n :: pool[i].valid
    ensures CountValid(pool, n) == n
  {
    if n > 0 { CountFull(pool, n - 1); }
  }

  lemma {:induction false} CountShort(pool: Pool, n: nat, v: nat)
    requires v < n <= POOL_SIZE && !pool[v].valid
    ensures CountValid(pool, n) < n
  {
    if n - 1 > v { CountShort(pool, n - 1, v); }
  }

  // ----- The move-to-front list

  ghost predicate Distinct(l: seq<PageKey>)
  {
    forall i, j | 0 <= i < j < |l| :: l[i] != l[j]
  }

  ghost function Members(l: seq<PageKey>): set<PageKey> { set k | k in l }

  lemma {:induction false} DistinctCount(l: seq<PageKey>)
    requires Distinct(l)
    ensures |Members(l)| == |l|
  {
    if l != [] {
      DistinctCount(l[1..]);
      assert Members(l) == {l[0]} + Members(l[1..]);
    }
  }

  function Without(l: seq<PageKey>, k: PageKey): (r: seq<PageKey>)
    ensures forall x :: x in r <==> x in l && x != k
    ensures |r| <= |l|
  {
    if l == [] then [] else if l[0] == k then Without(l[1..], k) else [l[0]] + Without(l[1..], k)
  }

  function WithoutBlock(l: seq<PageKey>, b: nat): (r: seq<PageKey>)
    ensures forall x :: x in r <==> x in l && x.0 != b
  {
    if l == [] then [] else if l[0].0 == b then WithoutBlock(l[1..], b) else [l[0]] + WithoutBlock(l[1..], b)
  }

  /** The accessed page moves to the front; a ninth page pushes out the last one. */
  function Access(l: seq<PageKey>, k: PageKey): seq<PageKey>
  {
    var r := [k] + Without(l, k);
    if |r| > POOL_SIZE then r[..POOL_SIZE] else r
  }

  function AccessAll(l: seq<PageKey>, ks: seq<PageKey>): seq<PageKey>
  {
    if ks == [] then l else Access(AccessAll(l, ks[..|ks| - 1]), ks[|ks| - 1])
  }

  /** The pages of the n bytes from offset off of block b on, in order. */
  function PagesOf(ps: nat, b: nat, off: nat, n: nat): (ks: seq<PageKey>)
    requires ps > 0
    ensures |ks| <= n
  {
    if n == 0 then []
    else
      var o := PageBase(off + n - 1, ps);
      PagesOf(ps, b, off, if o > off then o - off else 0) + [(b, o)]
  }

  /** The next chunk of a range starts at place `at` of a page, with the range or with the page, and stays in it. */
  lemma NextPage(l: seq<PageKey>, ps: nat, b: nat, off: nat, n: nat, o: nat, at: nat, chunk: nat)
    requires ps > 0 && chunk > 0 && o % ps == 0 && off + n == o + at && at + chunk <= ps && (n == 0 || at == 0)
    ensures PagesOf(ps, b, off, n + chunk) == PagesOf(ps, b, off, n) + [(b, o)]
    ensures AccessAll(l, PagesOf(ps, b, off, n + chunk)) == Access(AccessAll(l, PagesOf(ps, b, off, n)), (b, o))
  {
    hide PageBase, Access;
    var ks := PagesOf(ps, b, off, n);
    BaseOf(o, at + chunk - 1, ps);
    assert PagesOf(ps, b, off, n + chunk) == ks + [(b, o)];
    assert (ks + [(b, o)])[..|ks|] == ks;
  }

  lemma NoPages(l: seq<PageKey>, ps: nat, b: nat, off: nat)
    requires ps > 0
    ensures PagesOf(ps, b, off, 0) == [] && AccessAll(l, PagesOf(ps, b, off, 0)) == l
  {
  }

  function TickOf(pool: Pool, k: PageKey): nat
  {
    var i := Find(pool, k.0, k.1);
    if i < POOL_SIZE then pool[i].tick else 0
  }

  ghost predicate Newer(pool: Pool, a: PageKey, b: PageKey) { TickOf(pool, a) > TickOf(pool, b) }

  ghost predicate Sorted(pool: Pool, l: seq<PageKey>)
  {
    forall i, j | 0 <= i < j < |l| :: Newer(pool, l[i], l[j])
  }

  /** l lists exactly the cached pages, the most recently used first; no tick is ahead of now. */
  ghost predicate InOrder(pool: Pool, l: seq<PageKey>, now: nat)
  {
    && Unique(pool) && Distinct(l) && Members(l) == Keys(pool) && Sorted(pool, l)
    && forall i | 0 <= i < POOL_SIZE && pool[i].valid :: pool[i].tick <= now
  }

  lemma InList(pool: Pool, l: seq<PageKey>, now: nat, k: PageKey)
    requires InOrder(pool, l, now)
    ensures k in l <==> Find(pool, k.0, k.1) < POOL_SIZE
  {
    KeysAre(pool, POOL_SIZE);
    assert k in l <==> k in Members(l);
  }

  lemma ListSize(pool: Pool, l: seq<PageKey>, now: nat)
    requires InOrder(pool, l, now)
    ensures |l| == CountValid(pool, POOL_SIZE)
  {
    DistinctCount(l);
    KeyCount(pool, POOL_SIZE);
  }

  /** With every slot in use, the slot with the oldest tick holds the last page of the list. */
  lemma OldestIsLast(pool: Pool, l: seq<PageKey>, now: nat, v: nat)
    requires InOrder(pool, l, now) && v < POOL_SIZE && forall i | 0 <= i < POOL_SIZE :: pool[i].valid
    requires forall i | 0 <= i < POOL_SIZE :: pool[v].tick <= pool[i].tick
    ensures |l| == POOL_SIZE && l[POOL_SIZE - 1] == KeyOf(pool[v])
  {
    ListSize(pool, l, now);
    CountFull(pool, POOL_SIZE);
    var last := l[POOL_SIZE - 1];
    InList(pool, l, now, KeyOf(pool[v]));
    InList(pool, l, now, last);
    FindHolder(pool, v);
    var j :| 0 <= j < |l| && l[j] == KeyOf(pool[v]);
    assert j < POOL_SIZE - 1 ==> Newer(pool, l[j], last);
  }

  lemma DistinctTicks(pool: Pool, l: seq<PageKey>, now: nat)
    requires InOrder(pool, l, now) && pool[0].valid && pool[1].valid
    ensures pool[0].tick != pool[1].tick
  {
    var a, b := KeyOf(pool[0]), KeyOf(pool[1]);
    InList(pool, l, now, a);
    InList(pool, l, now, b);
    FindHolder(pool, 0);
    FindHolder(pool, 1);
    var i :| 0 <= i < |l| && l[i] == a;
    var j :| 0 <= j < |l| && l[j] == b;
    assert !pool[1].Holds(pool[0].block, pool[0].offset);
    assert Newer(pool, l[i], l[j]) || Newer(pool, l[j], l[i]);
  }

  /** While the ticks order the pages, they cannot all be at the end of the 32-bit range. */
  lemma SlotToTake(pool: Pool, l: seq<PageKey>, now: nat)
    requires InOrder(pool, l, now)
    ensures !(forall i | 0 <= i < POOL_SIZE :: pool[i].valid && pool[i].tick >= now)
  {
    if pool[0].valid && pool[1].valid { DistinctTicks(pool, l, now); }
  }

  lemma {:induction false} WithoutSorted(pool: Pool, l: seq<PageKey>, k: PageKey)
    requires Distinct(l) && Sorted(pool, l)
    ensures Distinct(Without(l, k)) && Sorted(pool, Without(l, k))
  {
    if l != [] {
      assert forall i, j | 0 <= i < j < |l[1..]| :: Newer(pool, l[1..][i], l[1..][j]) by {
        forall i, j | 0 <= i < j < |l[1..]|
          ensures Newer(pool, l[1..][i], l[1..][j])
        {
          assert Newer(pool, l[i + 1], l[j + 1]);
        }
      }
      WithoutSorted(pool, l[1..], k);
      var r := Without(l[1..], k);
      if l[0] != k {
        forall j | 0 <= j < |r| ensures Newer(pool, l[0], r[j]) && l[0] != r[j] {
          assert r[j] in l[1..];
          var i :| 0 <= i < |l[1..]| && l[1..][i] == r[j];
          assert l[i + 1] == r[j] && Newer(pool, l[0], l[i + 1]);
        }
        PrependSorted(pool, l[0], r);
      }
    }
  }

  lemma PrependSorted(pool: Pool, k: PageKey, r: seq<PageKey>)
    requires Distinct(r) && Sorted(pool, r) && forall j | 0 <= j < |r| :: Newer(pool, k, r[j]) && k != r[j]
    ensures Distinct([k] + r) && Sorted(pool, [k] + r)
  {
    var l := [k] + r;
    forall i, j | 0 <= i < j < |l| ensures l[i] != l[j] && Newer(pool, l[i], l[j]) {
      assert i > 0 ==> Newer(pool, r[i - 1], r[j - 1]);
      assert i == 0 ==> Newer(pool, k, r[j - 1]);
    }
  }

  lemma SortedSame(pool: Pool, pool': Pool, l: seq<PageKey>)
    requires Sorted(pool, l) && forall i | 0 <= i < |l| :: TickOf(pool', l[i]) == TickOf(pool, l[i])
    ensures Sorted(pool', l)
  {
    forall i, j | 0 <= i < j < |l| ensures Newer(pool', l[i], l[j]) { assert Newer(pool, l[i], l[j]); }
  }

  /** The list in which k comes first and every other page keeps its place. */
  lemma FrontOrdered(pool: Pool, pool': Pool, l: seq<PageKey>, k: PageKey, now: nat)
    requires InOrder(pool, l, now) && Unique(pool')
    requires TickOf(pool', k) == now + 1
    requires forall x | x in l && x != k && x in Keys(pool') :: TickOf(pool', x) == TickOf(pool, x) <= now
    requires Keys(pool') <= Members(l) + {k} && k in Keys(pool')
    requires forall x | x in l && x != k :: x in Keys(pool')
    requires forall i | 0 <= i < POOL_SIZE && pool'[i].valid :: pool'[i].tick <= now + 1
    ensures InOrder(pool', [k] + Without(l, k), now + 1)
  {
    var r := Without(l, k);
    WithoutSorted(pool, l, k);
    forall i | 0 <= i < |r| ensures TickOf(pool', r[i]) == TickOf(pool, r[i]) <= now && r[i] != k { assert r[i] in l; }
    SortedSame(pool, pool', r);
    PrependSorted(pool', k, r);
    assert Members([k] + r) == Keys(pool');
  }

  /** Slots that agree on page, validity and tick are in the same order. */
  ghost predicate SameOrder(pool: Pool, pool': Pool)
  {
    forall i | 0 <= i < POOL_SIZE ::
      && pool'[i].valid == pool[i].valid && pool'[i].block == pool[i].block
      && pool'[i].offset == pool[i].offset && pool'[i].tick == pool[i].tick
  }

  lemma SameOrdered(pool: Pool, pool': Pool, l: seq<PageKey>, now: nat)
    requires InOrder(pool, l, now) && SameOrder(pool, pool')
    ensures InOrder(pool', l, now)
  {
    KeysAre(pool, POOL_SIZE); KeysAre(pool', POOL_SIZE);
    assert Keys(pool') == Keys(pool) by {
      forall k ensures k in Keys(pool') <==> k in Keys(pool) {
        if k in Keys(pool) {
          var i :| 0 <= i < POOL_SIZE && pool[i].valid && KeyOf(pool[i]) == k;
          assert KeyOf(pool'[i]) == k;
        }
        if k in Keys(pool') {
          var i :| 0 <= i < POOL_SIZE && pool'[i].valid && KeyOf(pool'[i]) == k;
          assert KeyOf(pool[i]) == k;
        }
      }
    }
    assert Unique(pool') by {
      forall i, j | 0 <= i < POOL_SIZE && 0 <= j < POOL_SIZE && i != j && pool'[i].valid
        ensures !pool'[j].Holds(pool'[i].block, pool'[i].offset)
      {
        assert pool[i].valid && !pool[j].Holds(pool[i].block, pool[i].offset);
      }
    }
    forall i | 0 <= i < |l| ensures TickOf(pool', l[i]) == TickOf(pool, l[i]) { FindSame(pool, pool', l[i].0, l[i].1); }
    SortedSame(pool, pool', l);
  }

  /** Pages other than k are held by the same slots with the same ticks. */
  ghost predicate SameBut(pool: Pool, pool': Pool, k: PageKey)
  {
    forall i, b: nat, o: nat {:trigger pool'[i].Holds(b, o)} | 0 <= i < POOL_SIZE && (b, o) != k ::
      pool'[i].Holds(b, o) == pool[i].Holds(b, o) && (pool[i].Holds(b, o) ==> pool'[i].tick == pool[i].tick)
  }

  lemma SameButTicks(pool: Pool, pool': Pool, k: PageKey, now: nat)
    requires Unique(pool) && Unique(pool') && SameBut(pool, pool', k)
    ensures forall x | x in Keys(pool) && x != k :: x in Keys(pool') && TickOf(pool', x) == TickOf(pool, x)
    ensures Keys(pool') <= Keys(pool) + {k}
  {
    KeysAre(pool, POOL_SIZE); KeysAre(pool', POOL_SIZE);
    forall x | x in Keys(pool) && x != k ensures x in Keys(pool') && TickOf(pool', x) == TickOf(pool, x) {
      var i :| 0 <= i < POOL_SIZE && pool[i].valid && KeyOf(pool[i]) == x;
      assert pool[i].Holds(x.0, x.1) && pool'[i].Holds(x.0, x.1);
      FindHolder(pool, i); FindHolder(pool', i);
    }
    forall x | x in Keys(pool') ensures x in Keys(pool) + {k} {
      var i :| 0 <= i < POOL_SIZE && pool'[i].valid && KeyOf(pool'[i]) == x;
      assert pool'[i].Holds(x.0, x.1);
      assert x != k ==> pool[i].Holds(x.0, x.1);
    }
  }

  /** Giving page k the newest tick, cached before or not, moves it to the front. */
  lemma AccessOrdered(pool: Pool, pool': Pool, l: seq<PageKey>, k: PageKey, i: nat, now: nat)
    requires InOrder(pool, l, now) && Unique(pool') && SameBut(pool, pool', k)
    requires i < POOL_SIZE && pool'[i].Holds(k.0, k.1) && pool'[i].tick == now + 1
    ensures InOrder(pool', Access(l, k), now + 1)
  {
    SameButTicks(pool, pool', k, now);
    KeysAre(pool, POOL_SIZE); KeysAre(pool', POOL_SIZE);
    FindHolder(pool', i);
    forall j | 0 <= j < POOL_SIZE && pool'[j].valid ensures pool'[j].tick <= now + 1 {
      var x := KeyOf(pool'[j]);
      if x == k { FindHolder(pool', j); } else { assert pool'[j].Holds(x.0, x.1) && pool[j].Holds(x.0, x.1); }
    }
    forall x | x in l
      ensures TickOf(pool, x) <= now && x in Keys(pool)
    {
      InList(pool, l, now, x);
      assert x in Members(l);
    }
    FrontOrdered(pool, pool', l, k, now);
    ListSize(pool', [k] + Without(l, k), now + 1);
  }

  function Emptied(pool: Pool, v: nat): Pool
    requires v < POOL_SIZE
  {
    pool[v := pool[v].(valid := false, dirty := false)]
  }

  lemma InitOf(l: seq<PageKey>)
    requires Distinct(l) && l != []
    ensures Distinct(l[..|l| - 1]) && Members(l[..|l| - 1]) == Members(l) - {l[|l| - 1]}
  {
    var r := l[..|l| - 1];
    forall k ensures k in Members(r) <==> k in Members(l) - {l[|l| - 1]} {
      if k in l && k != l[|l| - 1] {
        var i :| 0 <= i < |l| && l[i] == k;
        assert r[i] == k;
      }
    }
  }

  lemma EmptiedOrdered(pool: Pool, l: seq<PageKey>, v: nat, now: nat)
    requires InOrder(pool, l, now) && v < POOL_SIZE && pool[v].valid && l != [] && l[|l| - 1] == KeyOf(pool[v])
    ensures InOrder(Emptied(pool, v), l[..|l| - 1], now)
  {
    var pool', r, k := Emptied(pool, v), l[..|l| - 1], KeyOf(pool[v]);
    InitOf(l);
    KeysAre(pool, POOL_SIZE); KeysAre(pool', POOL_SIZE);
    assert SameBut(pool, pool', k);
    assert Unique(pool');
    SameButTicks(pool, pool', k, now);
    assert k !in Keys(pool');
    assert Members(r) == Keys(pool');
    forall i | 0 <= i < |r| ensures TickOf(pool', r[i]) == TickOf(pool, r[i]) {
      assert r[i] == l[i] && r[i] in Members(r);
      assert r[i] in Members(l);
    }
    assert Sorted(pool, r) by {
      forall i, j | 0 <= i < j < |r| ensures Newer(pool, r[i], r[j]) { assert Newer(pool, l[i], l[j]); }
    }
    SortedSame(pool, pool', r);
  }

  /** The slot a miss may take: one that holds nothing, or else the one with the oldest tick. */
  ghost predicate Takes(pool: Pool, v: nat)
    requires v < POOL_SIZE
  {
    pool[v].valid ==> forall i | 0 <= i < POOL_SIZE :: pool[i].valid && pool[v].tick <= pool[i].tick
  }

  /** What the scan has settled on: nothing yet, an empty slot, or the oldest one so far. */
  ghost predicate Settled(pool: Pool, i: nat, oldest: int, oldestTick: nat)
    requires i <= POOL_SIZE && -1 <= oldest < i
  {
    if oldest == -1 then
      oldestTick == TICKS - 1 && forall j | 0 <= j < i :: pool[j].valid && pool[j].tick >= TICKS - 1
    else if pool[oldest].valid then
      oldestTick == pool[oldest].tick && forall j | 0 <= j < i :: pool[j].valid && pool[oldest].tick <= pool[j].tick
    else
      oldestTick == 0
  }

  lemma {:induction false} ScanTakes(pool: Pool, i: nat, oldest: int, oldestTick: nat)
    requires i <= POOL_SIZE && -1 <= oldest < i && (forall j | 0 <= j < POOL_SIZE :: !pool[j].reserved)
    requires Settled(pool, i, oldest, oldestTick)
    ensures var v := ScanFrom(pool, i, oldest, oldestTick);
            if v >= 0 then Takes(pool, v)
            else forall j | 0 <= j < POOL_SIZE :: pool[j].valid && pool[j].tick >= TICKS - 1
    decreases POOL_SIZE - i
  {
    if i < POOL_SIZE {
      if !pool[i].valid {
        ScanTakes(pool, i + 1, i, 0);
      } else if pool[i].tick < oldestTick {
        ScanTakes(pool, i + 1, i, pool[i].tick);
      } else {
        ScanTakes(pool, i + 1, oldest, oldestTick);
      }
    }
  }

  /** With nothing reserved the scan finds such a slot, or all ticks are at the end of their range. */
  lemma VictimTakes(pool: Pool)
    requires forall j | 0 <= j < POOL_SIZE :: !pool[j].reserved
    ensures var v := Victim(pool);
            if v >= 0 then Takes(pool, v)
            else forall j | 0 <= j < POOL_SIZE :: pool[j].valid && pool[j].tick >= TICKS - 1
  {
    ScanTakes(pool, 0, -1, TICKS - 1);
  }

  /** A miss that fills such a slot acts on the list as an access: the least recently used page leaves. */
  lemma LoadOrdered(pool: Pool, l: seq<PageKey>, v: nat, s: Slot, now: nat)
    requires InOrder(pool, l, now) && v < POOL_SIZE && Takes(pool, v)
    requires s.valid && s.tick == now + 1 && Find(pool, s.block, s.offset) == POOL_SIZE
    ensures InOrder(pool[v := s], Access(l, KeyOf(s)), now + 1)
  {
    var k, pool' := KeyOf(s), pool[v := s];
    InList(pool, l, now, k);
    NotThere(l, k);
    LoadShape(pool, v, s);
    if !pool[v].valid {
      AccessOrdered(pool, pool', l, k, v, now);
    } else {
      OldestIsLast(pool, l, now, v);
      LoadFull(pool, l, v, s, now);
    }
  }

  /** A miss with every slot in use: the last page of the list leaves. */
  lemma LoadFull(pool: Pool, l: seq<PageKey>, v: nat, s: Slot, now: nat)
    requires InOrder(pool, l, now) && v < POOL_SIZE && pool[v].valid && |l| == POOL_SIZE
    requires l[POOL_SIZE - 1] == KeyOf(pool[v]) && KeyOf(s) !in l
    requires s.valid && s.tick == now + 1 && Find(pool, s.block, s.offset) == POOL_SIZE
    ensures InOrder(pool[v := s], Access(l, KeyOf(s)), now + 1)
  {
    LoadShape(pool, v, s);
    EmptiedOrdered(pool, l, v, now);
    var k, r := KeyOf(s), l[..|l| - 1];
    NotThere(l, k);
    NotThere(r, k);
    AccessOrdered(Emptied(pool, v), pool[v := s], r, k, v, now);
    assert ([k] + l)[..POOL_SIZE] == [k] + r;
  }

  lemma LoadShape(pool: Pool, v: nat, s: Slot)
    requires Unique(pool) && v < POOL_SIZE && s.valid && Find(pool, s.block, s.offset) == POOL_SIZE
    ensures Unique(pool[v := s]) && SameBut(Emptied(pool, v), pool[v := s], KeyOf(s))
    ensures !pool[v].valid ==> SameBut(pool, pool[v := s], KeyOf(s))
  {
    hide Find;
    var pool' := pool[v := s];
    forall i, j | 0 <= i < POOL_SIZE && 0 <= j < POOL_SIZE && i != j && pool'[i].valid
      ensures !pool'[j].Holds(pool'[i].block, pool'[i].offset)
    {
      if i == v {
        assert !pool[j].Holds(s.block, s.offset);
      } else if j == v {
        assert !pool[i].Holds(s.block, s.offset);
      } else {
        assert !pool[j].Holds(pool[i].block, pool[i].offset);
      }
    }
    forall i, b: nat, o: nat {:trigger pool'[i].Holds(b, o)} | 0 <= i < POOL_SIZE && (b, o) != KeyOf(s)
      ensures pool'[i].Holds(b, o) == Emptied(pool, v)[i].Holds(b, o)
      ensures pool'[i].Holds(b, o) ==> i != v
    {
    }
  }

  lemma {:induction false} NotThere(l: seq<PageKey>, k: PageKey)
    requires k !in l
    ensures Without(l, k) == l
  {
    if l != [] { NotThere(l[1..], k); }
  }

  lemma TouchOrdered(pool: Pool, l: seq<PageKey>, i: nat, now: nat)
    requires InOrder(pool, l, now) && i < POOL_SIZE && pool[i].valid
    ensures InOrder(pool[i := pool[i].(tick := now + 1)], Access(l, KeyOf(pool[i])), now + 1)
  {
    AccessOrdered(pool, pool[i := pool[i].(tick := now + 1)], l, KeyOf(pool[i]), i, now);
  }

  lemma {:induction false} BlockSorted(pool: Pool, l: seq<PageKey>, b: nat)
    requires Distinct(l) && Sorted(pool, l)
    ensures Distinct(WithoutBlock(l, b)) && Sorted(pool, WithoutBlock(l, b))
  {
    if l != [] {
      assert forall i, j | 0 <= i < j < |l[1..]| :: Newer(pool, l[1..][i], l[1..][j]) by {
        forall i, j | 0 <= i < j < |l[1..]|
          ensures Newer(pool, l[1..][i], l[1..][j])
        {
          assert Newer(pool, l[i + 1], l[j + 1]);
        }
      }
      BlockSorted(pool, l[1..], b);
      var r := WithoutBlock(l[1..], b);
      if l[0].0 != b {
        forall j | 0 <= j < |r| ensures Newer(pool, l[0], r[j]) && l[0] != r[j] {
          assert r[j] in l[1..];
          var i :| 0 <= i < |l[1..]| && l[1..][i] == r[j];
          assert l[i + 1] == r[j] && Newer(pool, l[0], l[i + 1]);
        }
        PrependSorted(pool, l[0], r);
      }
    }
  }

  /** Erasing a block filters its pages out of the list. */
  lemma EraseOrdered(pool: Pool, l: seq<PageKey>, b: nat, now: nat)
    requires InOrder(pool, l, now)
    ensures InOrder(Dropped(pool, b), WithoutBlock(l, b), now)
  {
    var pool', r := Dropped(pool, b), WithoutBlock(l, b);
    BlockSorted(pool, l, b);
    KeysAre(pool, POOL_SIZE); KeysAre(pool', POOL_SIZE);
    assert Unique(pool') by {
      forall i, j | 0 <= i < POOL_SIZE && 0 <= j < POOL_SIZE && i != j && pool'[i].valid
        ensures !pool'[j].Holds(pool'[i].block, pool'[i].offset)
      {
        assert pool[i].valid && !pool[j].Holds(pool[i].block, pool[i].offset);
      }
    }
    forall k ensures k in Members(r) <==> k in Keys(pool') {
      assert k in Members(l) <==> k in Keys(pool);
      if k in Keys(pool) && k.0 != b {
        var i :| 0 <= i < POOL_SIZE && pool[i].valid && KeyOf(pool[i]) == k;
        assert pool'[i] == pool[i];
      }
      if k in Keys(pool') {
        var i :| 0 <= i < POOL_SIZE && pool'[i].valid && KeyOf(pool'[i]) == k;
        assert pool[i].valid && KeyOf(pool[i]) == k;
      }
    }
    forall i | 0 <= i < |r| ensures TickOf(pool', r[i]) == TickOf(pool, r[i]) {
      assert r[i] in r && r[i].0 != b;
      FindSame(pool, pool', r[i].0, r[i].1);
    }
    SortedSame(pool, pool', r);
  }
}
