/** What the slots of the page cache and the flash together stand for: a flat byte store
    (vfs/photon_cache.hpp:8-48, 85-131, 202-221). */
module CacheModel {
  import opened Arithmetic
  import opened FlashDevice

  const POOL_SIZE: nat := 8

  datatype Slot = Slot(block: nat, offset: nat, data: seq<byte8>, valid: bool, dirty: bool, reserved: bool, tick: nat) {
    predicate Holds(b: nat, o: nat) { valid && block == b && offset == o }
  }

  type Pool = p: seq<Slot> | |p| == POOL_SIZE
    witness seq(POOL_SIZE, _ => Slot(0, 0, [], false, false, false, 0))

  /** The pages whose flash cells were programmed with data they could not take. */
  type PageSet = set<(nat, nat)>

  const TICKS: nat := 0x1_0000_0000

  /** The 32-bit access counter, one later. */
  function After(t: nat): (r: nat)
    ensures r < TICKS && (t < TICKS ==> r == t + 1 || (r == 0 && t == TICKS - 1))
  {
    (t + 1) % TICKS
  }

  // ----- The slot a miss takes

  /** The scan of a miss from slot i on, with the slot and the tick it has settled on so far. */
  function ScanFrom(pool: Pool, i: nat, oldest: int, oldestTick: nat): (r: int)
    requires i <= POOL_SIZE && -1 <= oldest < i && (oldest >= 0 ==> !pool[oldest].reserved)
    ensures -1 <= r < POOL_SIZE && (r >= 0 ==> !pool[r].reserved)
    decreases POOL_SIZE - i
  {
    if i == POOL_SIZE then oldest
    else if !pool[i].valid && !pool[i].reserved then ScanFrom(pool, i + 1, i, 0)
    else if !pool[i].reserved && pool[i].tick < oldestTick then ScanFrom(pool, i + 1, i, pool[i].tick)
    else ScanFrom(pool, i + 1, oldest, oldestTick)
  }

  /** The slot a miss takes, or -1. */
  function Victim(pool: Pool): (r: int)
    ensures -1 <= r < POOL_SIZE && (r >= 0 ==> !pool[r].reserved)
  {
    ScanFrom(pool, 0, -1, TICKS - 1)
  }

  ghost predicate Vacant(pool: Pool, i: nat)
    requires i < POOL_SIZE
  {
    !pool[i].valid && !pool[i].reserved
  }

  /** The last vacant slot from i on is taken if there is one. */
  lemma {:induction false} ScanVacant(pool: Pool, i: nat, oldest: int, oldestTick: nat, v: nat)
    requires i <= POOL_SIZE && -1 <= oldest < i && (oldest >= 0 ==> !pool[oldest].reserved)
    requires v < POOL_SIZE && Vacant(pool, v) && (forall j | v < j < POOL_SIZE :: !Vacant(pool, j))
    requires i <= v || (oldest == v && oldestTick == 0)
    ensures ScanFrom(pool, i, oldest, oldestTick) == v
    decreases POOL_SIZE - i
  {
    if i < POOL_SIZE {
      if Vacant(pool, i) {
        ScanVacant(pool, i + 1, i, 0, v);
      } else if !pool[i].reserved && pool[i].tick < oldestTick {
        ScanVacant(pool, i + 1, i, pool[i].tick, v);
      } else {
        ScanVacant(pool, i + 1, oldest, oldestTick, v);
      }
    }
  }

  /** The slot v is not reserved, comes before every other of its tick, and is older than all the others. */
  ghost predicate Oldest(pool: Pool, v: nat)
    requires v < POOL_SIZE
  {
    && !pool[v].reserved && pool[v].tick < TICKS - 1
    && (forall j | 0 <= j < POOL_SIZE && !pool[j].reserved ::
          pool[v].tick <= pool[j].tick && (j < v ==> pool[v].tick < pool[j].tick))
  }

  /** Without a vacant slot the oldest one is taken. */
  lemma {:induction false} ScanOldest(pool: Pool, i: nat, oldest: int, oldestTick: nat, v: nat)
    requires i <= POOL_SIZE && -1 <= oldest < i && (oldest >= 0 ==> !pool[oldest].reserved)
    requires v < POOL_SIZE && Oldest(pool, v) && (forall j | 0 <= j < POOL_SIZE :: !Vacant(pool, j))
    requires if i <= v then oldestTick > pool[v].tick else oldest == v && oldestTick == pool[v].tick
    ensures ScanFrom(pool, i, oldest, oldestTick) == v
    decreases POOL_SIZE - i
  {
    if i < POOL_SIZE {
      assert !Vacant(pool, i);
      if !pool[i].reserved && pool[i].tick < oldestTick {
        ScanOldest(pool, i + 1, i, pool[i].tick, v);
      } else {
        ScanOldest(pool, i + 1, oldest, oldestTick, v);
      }
    }
  }

  ghost predicate Untakable(pool: Pool, i: nat)
    requires i < POOL_SIZE
  {
    pool[i].reserved || (pool[i].valid && pool[i].tick >= TICKS - 1)
  }

  lemma {:induction false} ScanNone(pool: Pool, i: nat)
    requires i <= POOL_SIZE
    ensures ScanFrom(pool, i, -1, TICKS - 1) == -1 <==> forall j | i <= j < POOL_SIZE :: Untakable(pool, j)
    decreases POOL_SIZE - i
  {
    if i < POOL_SIZE {
      if Untakable(pool, i) {
        ScanNone(pool, i + 1);
      } else if Vacant(pool, i) {
        ScanKeeps(pool, i + 1, i, 0);
      } else {
        ScanKeeps(pool, i + 1, i, pool[i].tick);
      }
    }
  }

  lemma {:induction false} ScanKeeps(pool: Pool, i: nat, oldest: nat, oldestTick: nat)
    requires oldest < i <= POOL_SIZE && !pool[oldest].reserved
    ensures ScanFrom(pool, i, oldest, oldestTick) >= 0
    decreases POOL_SIZE - i
  {
    if i < POOL_SIZE {
      ScanKeeps(pool, i + 1, oldest, oldestTick);
      if Vacant(pool, i) {
        ScanKeeps(pool, i + 1, i, 0);
      } else if !pool[i].reserved {
        ScanKeeps(pool, i + 1, i, pool[i].tick);
      }
    }
  }

  /** A miss takes no slot exactly when each is reserved or has reached the end of the tick range. */
  lemma VictimNone(pool: Pool)
    ensures Victim(pool) == -1 <==> forall j | 0 <= j < POOL_SIZE :: Untakable(pool, j)
  {
    ScanNone(pool, 0);
  }

  /** What the scan does: the last vacant slot, else the first of the oldest ones. */
  lemma VictimIs(pool: Pool, v: nat)
    requires v < POOL_SIZE
    requires || (Vacant(pool, v) && forall j | v < j < POOL_SIZE :: !Vacant(pool, j))
             || (Oldest(pool, v) && forall j | 0 <= j < POOL_SIZE :: !Vacant(pool, j))
    ensures Victim(pool) == v
  {
    if Vacant(pool, v) { ScanVacant(pool, 0, -1, TICKS - 1, v); } else { ScanOldest(pool, 0, -1, TICKS - 1, v); }
  }

  // ----- The view through the cache

  /** The slot holding page (b, o) at or after index i, or POOL_SIZE. */
  function FindFrom(pool: Pool, b: nat, o: nat, i: nat): (r: nat)
    requires i <= POOL_SIZE
    ensures i <= r <= POOL_SIZE
    ensures r < POOL_SIZE ==> pool[r].Holds(b, o)
    ensures forall j | i <= j < r :: !pool[j].Holds(b, o)
    decreases POOL_SIZE - i
  {
    if i == POOL_SIZE || pool[i].Holds(b, o) then i else FindFrom(pool, b, o, i + 1)
  }

  function Find(pool: Pool, b: nat, o: nat): (r: nat)
    ensures r <= POOL_SIZE
    ensures r < POOL_SIZE ==> pool[r].Holds(b, o)
    ensures r == POOL_SIZE ==> forall j | 0 <= j < POOL_SIZE :: !pool[j].Holds(b, o)
  {
    FindFrom(pool, b, o, 0)
  }

  ghost predicate SlotOk(g: Geometry, s: Slot)
    requires g.Valid()
  {
    && |s.data| == g.pageSize && (s.dirty ==> s.valid) && !s.reserved
    && (s.valid ==> Aligned(g, s.offset))
  }

  ghost predicate SlotsOk(g: Geometry, pool: Pool)
    requires g.Valid()
  {
    forall i | 0 <= i < POOL_SIZE :: SlotOk(g, pool[i])
  }

  /** No page is cached twice. */
  ghost predicate Unique(pool: Pool)
  {
    forall i, j | 0 <= i < POOL_SIZE && 0 <= j < POOL_SIZE && i != j && pool[i].valid ::
      !pool[j].Holds(pool[i].block, pool[i].offset)
  }

  /** The content of page (b, o) as a reader sees it. */
  ghost function ViewPage(g: Geometry, pool: Pool, cells: Cells, b: nat, o: nat): (p: seq<byte8>)
    requires g.Valid() && SlotsOk(g, pool) && Shaped(g, cells) && g.HasPage(b, o)
    ensures |p| == g.pageSize
  {
    var i := Find(pool, b, o);
    if i < POOL_SIZE then pool[i].data else PageOf(g, cells, b, o)
  }

  ghost predicate PageRefined(g: Geometry, pool: Pool, cells: Cells, store: Cells, b: nat, o: nat)
    requires g.Valid() && SlotsOk(g, pool) && Shaped(g, cells) && Shaped(g, store)
  {
    g.HasPage(b, o) && Aligned(g, o) ==>
      ViewPage(g, pool, cells, b, o) == PageOf(g, store, b, o)
  }

  /** A slot that need not be written back agrees with the flash. */
  ghost predicate CleanOk(g: Geometry, s: Slot, cells: Cells, spoiled: PageSet)
    requires g.Valid() && Shaped(g, cells)
  {
    s.valid && !s.dirty && g.HasPage(s.block, s.offset) && (s.block, s.offset) !in spoiled ==>
      s.data == PageOf(g, cells, s.block, s.offset)
  }

  /** The cache over the flash stands for the store, page by page, outside the spoiled pages. */
  ghost predicate Refines(g: Geometry, pool: Pool, cells: Cells, store: Cells, spoiled: PageSet)
  {
    && g.Valid() && Shaped(g, cells) && Shaped(g, store) && SlotsOk(g, pool) && Unique(pool)
    && (forall i {:trigger CleanOk(g, pool[i], cells, spoiled)} | 0 <= i < POOL_SIZE ::
         CleanOk(g, pool[i], cells, spoiled))
    && (forall b: nat, o: nat {:trigger PageRefined(g, pool, cells, store, b, o)} | (b, o) !in spoiled ::
          PageRefined(g, pool, cells, store, b, o))
  }

  lemma FindHolder(pool: Pool, i: nat)
    requires Unique(pool) && i < POOL_SIZE && pool[i].valid
    ensures Find(pool, pool[i].block, pool[i].offset) == i
  {
  }

  lemma FindSame(pool: Pool, pool': Pool, b: nat, o: nat)
    requires Unique(pool) && Unique(pool')
    requires forall j | 0 <= j < POOL_SIZE :: pool'[j].Holds(b, o) == pool[j].Holds(b, o)
    ensures Find(pool', b, o) == Find(pool, b, o)
  {
    var i, i' := Find(pool, b, o), Find(pool', b, o);
    if i < POOL_SIZE { FindHolder(pool, i); }
    if i' < POOL_SIZE { FindHolder(pool', i'); }
  }

  /** Where the page with offset x starts. */
  function PageBase(x: nat, ps: nat): (o: nat)
    requires ps > 0
    ensures o <= x
  {
    PageStart(x, ps);
    x - x % ps
  }

  lemma ModWithin(o: nat, at: nat, ps: nat)
    requires ps > 0 && o % ps == 0 && at < ps
    ensures (o + at) % ps == at
  {
    assert o + at == ps * (o / ps) + at;
    QuotientIs(ps, o / ps, at);
  }

  lemma PageStart(x: nat, ps: nat)
    requires ps > 0
    ensures x % ps < ps && x % ps <= x && (x - x % ps) % ps == 0
  {
    var q := x / ps;
    assert x == ps * q + x % ps;
    QuotientIs(ps, q, 0);
  }

  lemma BaseOf(o: nat, at: nat, ps: nat)
    requires ps > 0 && o % ps == 0 && at < ps
    ensures PageBase(o + at, ps) == o
  {
    ModWithin(o, at, ps);
  }

  /** A chunk that is not the last one ends with its page. */
  lemma PageEnd(o: nat, at: nat, chunk: nat, ps: nat)
    requires ps > 0 && o % ps == 0 && at + chunk == ps
    ensures (o + at + chunk) % ps == 0
  {
    assert o + ps == ps * (o / ps + 1) + 0;
    QuotientIs(ps, o / ps + 1, 0);
  }

  lemma AlignedApart(o: nat, o': nat, ps: nat)
    requires ps > 0 && o % ps == 0 && o' % ps == 0 && o < o'
    ensures o + ps <= o'
  {
    var k, k' := o / ps, o' / ps;
    assert o == ps * k && o' == ps * k';
    if k' <= k { TimesMonotone(ps, k', k); }
    TimesMonotone(ps, k + 1, k');
  }

  lemma AlignedPages(g: Geometry, o: nat, o': nat)
    requires g.Valid() && Aligned(g, o) && Aligned(g, o') && o < o'
    ensures o + g.pageSize <= o'
  {
    AlignedApart(o, o', g.pageSize);
  }

  // ----- A hit only renews the tick

  lemma TouchKeeps(g: Geometry, pool: Pool, cells: Cells, store: Cells, spoiled: PageSet, i: nat, t: nat)
    requires Refines(g, pool, cells, store, spoiled) && i < POOL_SIZE
    ensures Refines(g, pool[i := pool[i].(tick := t)], cells, store, spoiled)
  {
    hide Aligned, Find;
    var pool' := pool[i := pool[i].(tick := t)];
    forall j | 0 <= j < POOL_SIZE
      ensures CleanOk(g, pool'[j], cells, spoiled)
    {
      assert CleanOk(g, pool[j], cells, spoiled);
    }
    forall b: nat, o: nat | (b, o) !in spoiled ensures PageRefined(g, pool', cells, store, b, o) {
      assert PageRefined(g, pool, cells, store, b, o);
      FindSame(pool, pool', b, o);
    }
  }

  // ----- A successful flush

  ghost function SpoiledBy(g: Geometry, s: Slot, cells: Cells): PageSet
    requires g.Valid() && Shaped(g, cells) && g.HasPage(s.block, s.offset) && |s.data| == g.pageSize
  {
    if Programmable(PageOf(g, cells, s.block, s.offset), s.data) then {} else {(s.block, s.offset)}
  }

  function Flushed(g: Geometry, s: Slot, cells: Cells): (r: Cells)
    requires g.Valid() && Shaped(g, cells) && g.HasPage(s.block, s.offset) && |s.data| == g.pageSize
    ensures Shaped(g, r)
  {
    WithPage(g, cells, s.block, s.offset, Program(PageOf(g, cells, s.block, s.offset), s.data))
  }

  /** A flush changes no reader's view, unless the flash could not take the page: then it spoils that page. */
  lemma FlushKeeps(g: Geometry, pool: Pool, cells: Cells, store: Cells, spoiled: PageSet, i: nat)
    requires Refines(g, pool, cells, store, spoiled) && i < POOL_SIZE && pool[i].valid
    requires g.HasPage(pool[i].block, pool[i].offset)
    ensures Refines(g, pool[i := pool[i].(dirty := false)], Flushed(g, pool[i], cells), store,
                    spoiled + SpoiledBy(g, pool[i], cells))
  {
    hide Aligned, Find;
    var s, pool', cells' := pool[i], pool[i := pool[i].(dirty := false)], Flushed(g, pool[i], cells);
    var spoiled' := spoiled + SpoiledBy(g, s, cells);
    ProgramExact(PageOf(g, cells, s.block, s.offset), s.data);
    forall j | 0 <= j < POOL_SIZE ensures CleanOk(g, pool'[j], cells', spoiled') {
      assert CleanOk(g, pool[j], cells, spoiled);
      FlushReads(g, s, cells, pool[j].block, pool[j].offset);
    }
    forall b: nat, o: nat | (b, o) !in spoiled' ensures PageRefined(g, pool', cells', store, b, o) {
      assert PageRefined(g, pool, cells, store, b, o);
      FindSame(pool, pool', b, o);
      FindHolder(pool, i);
      FlushReads(g, s, cells, b, o);
    }
  }

  lemma FlushReads(g: Geometry, s: Slot, cells: Cells, b: nat, o: nat)
    requires g.Valid() && Shaped(g, cells) && g.HasPage(s.block, s.offset) && |s.data| == g.pageSize
    requires Aligned(g, s.offset)
    ensures g.HasPage(b, o) && Aligned(g, o) ==>
              PageOf(g, Flushed(g, s, cells), b, o) ==
              if b == s.block && o == s.offset then Program(PageOf(g, cells, b, o), s.data) else PageOf(g, cells, b, o)
  {
    hide Aligned;
    if g.HasPage(b, o) && Aligned(g, o) {
      if o < s.offset { AlignedPages(g, o, s.offset); } else if s.offset < o { AlignedPages(g, s.offset, o); }
      WithPageReads(g, cells, s.block, s.offset, Program(PageOf(g, cells, s.block, s.offset), s.data), b, o);
    }
  }

  /** The flash write that flushes slot s. */
  function WriteOf(g: Geometry, s: Slot, cells: Cells): Write
    requires g.Valid() && Shaped(g, cells) && g.HasPage(s.block, s.offset)
  {
    Write(s.block, s.offset, PageOf(g, cells, s.block, s.offset), s.data)
  }

  /** The pages of the writes that did not store what they were given. */
  ghost function Inexact(ws: seq<Write>): PageSet
  {
    set w | w in ws && !w.Exact() :: (w.b, w.o)
  }

  /** From one state to a later one, the pages given up are exactly those of the inexact writes in between. */
  ghost predicate GivenUp(spoiled: PageSet, writes: seq<Write>, spoiled': PageSet, writes': seq<Write>)
  {
    writes <= writes' && spoiled' == spoiled + Inexact(writes'[|writes|..])
  }

  lemma GivenUpTrans(s0: PageSet, w0: seq<Write>, s1: PageSet, w1: seq<Write>, s2: PageSet, w2: seq<Write>)
    requires GivenUp(s0, w0, s1, w1) && GivenUp(s1, w1, s2, w2)
    ensures GivenUp(s0, w0, s2, w2) && w2[|w0|..] == w1[|w0|..] + w2[|w1|..]
  {
    assert w2[|w0|..] == w1[|w0|..] + w2[|w1|..];
  }

  lemma NothingGivenUp(s: PageSet, w: seq<Write>)
    ensures GivenUp(s, w, s, w)
  {
    assert w[|w|..] == [];
  }

  /** Nothing more is given up exactly when every write stored what it was given, or was to a page given up before;
      writes onto erased pages always do. */
  lemma GivenUpIff(spoiled: PageSet, writes: seq<Write>, spoiled': PageSet, writes': seq<Write>)
    requires GivenUp(spoiled, writes, spoiled', writes')
    ensures spoiled' == spoiled <==> forall w | w in writes'[|writes|..] :: w.Exact() || (w.b, w.o) in spoiled
    ensures (forall w | w in writes'[|writes|..] :: ErasedBefore(w)) ==> spoiled' == spoiled
  {
    forall w | w in writes'[|writes|..] && ErasedBefore(w) ensures w.Exact() { ErasedIsProgrammable(w.before, w.data); }
    forall w | w in writes'[|writes|..] && !w.Exact() ensures (w.b, w.o) in Inexact(writes'[|writes|..]) {}
  }

  ghost predicate ErasedBefore(w: Write)
  {
    |w.before| == |w.data| && forall i | 0 <= i < |w.before| :: w.before[i] == ERASED
  }

  /** One flush. */
  lemma FlushGivesUp(g: Geometry, s: Slot, cells: Cells, spoiled: PageSet, writes: seq<Write>)
    requires g.Valid() && Shaped(g, cells) && g.HasPage(s.block, s.offset) && |s.data| == g.pageSize
    ensures GivenUp(spoiled, writes, spoiled + SpoiledBy(g, s, cells), writes + [WriteOf(g, s, cells)])
  {
    var w := WriteOf(g, s, cells);
    assert (writes + [w])[|writes|..] == [w];
    assert Inexact([w]) == SpoiledBy(g, s, cells) by {
      assert forall x | x in [w] :: x == w;
      assert w in [w];
    }
  }

  // ----- Loading a page into a slot that holds nothing to lose

  lemma LoadKeeps(g: Geometry, pool: Pool, cells: Cells, store: Cells, spoiled: PageSet, v: nat, s: Slot)
    requires Refines(g, pool, cells, store, spoiled) && v < POOL_SIZE && !pool[v].dirty
    requires Find(pool, s.block, s.offset) == POOL_SIZE && Aligned(g, s.offset)
    requires s.valid && !s.dirty && !s.reserved && |s.data| == g.pageSize
    requires g.HasPage(s.block, s.offset) ==> s.data == PageOf(g, cells, s.block, s.offset)
    ensures Refines(g, pool[v := s], cells, store, spoiled)
  {
    hide Aligned, Find;
    var pool' := pool[v := s];
    assert SlotsOk(g, pool') && Unique(pool');
    forall j | 0 <= j < POOL_SIZE
      ensures CleanOk(g, pool'[j], cells, spoiled)
    {
      assert CleanOk(g, pool[j], cells, spoiled);
    }
    forall b: nat, o: nat | (b, o) !in spoiled ensures PageRefined(g, pool', cells, store, b, o) {
      assert PageRefined(g, pool, cells, store, b, o);
      assert CleanOk(g, pool[v], cells, spoiled);
      if pool[v].Holds(b, o) {
        FindHolder(pool, v);
        assert forall j | 0 <= j < POOL_SIZE :: !pool'[j].Holds(b, o);
      } else if s.Holds(b, o) {
        FindHolder(pool', v);
      } else {
        FindSame(pool, pool', b, o);
      }
    }
  }

  // ----- Writing into a cached page

  /** The store with data written from offset off of block b on; what lies outside the device is dropped. */
  function Overlay(store: Cells, b: nat, off: nat, data: seq<byte8>): (r: Cells)
    ensures |r| == |store|
  {
    if b < |store| then store[b := OverlayRow(store[b], off, data)] else store
  }

  function OverlayRow(row: seq<byte8>, off: nat, data: seq<byte8>): (r: seq<byte8>)
    ensures |r| == |row|
    ensures forall x | 0 <= x < |row| :: r[x] == if off <= x < off + |data| then data[x - off] else row[x]
  {
    seq(|row|, x requires 0 <= x < |row| => if off <= x < off + |data| then data[x - off] else row[x])
  }

  /** Two consecutive writes are one write. */
  lemma OverlayJoin(store: Cells, b: nat, off: nat, d1: seq<byte8>, d2: seq<byte8>)
    ensures Overlay(Overlay(store, b, off, d1), b, off + |d1|, d2) == Overlay(store, b, off, d1 + d2)
  {
    if b < |store| {
      assert OverlayRow(OverlayRow(store[b], off, d1), off + |d1|, d2) == OverlayRow(store[b], off, d1 + d2);
    }
  }

  lemma OverlayNothing(store: Cells, b: nat, off: nat)
    ensures Overlay(store, b, off, []) == store
  {
    if b < |store| { assert OverlayRow(store[b], off, []) == store[b]; }
  }

  function Patched(page: seq<byte8>, at: nat, d: seq<byte8>): (r: seq<byte8>)
    requires at + |d| <= |page|
    ensures |r| == |page|
  {
    page[..at] + d + page[at + |d|..]
  }

  lemma OverlayInside(row: seq<byte8>, o: nat, ps: nat, at: nat, d: seq<byte8>)
    requires o + ps <= |row| && at + |d| <= ps
    ensures OverlayRow(row, o + at, d)[o..o + ps] == Patched(row[o..o + ps], at, d)
  {
  }

  lemma OverlayOutside(row: seq<byte8>, off: nat, d: seq<byte8>, o: nat, ps: nat)
    requires o + ps <= |row| && (o + ps <= off || off + |d| <= o)
    ensures OverlayRow(row, off, d)[o..o + ps] == row[o..o + ps]
  {
  }

  lemma OverlayShape(g: Geometry, store: Cells, b: nat, off: nat, d: seq<byte8>)
    requires Shaped(g, store)
    ensures Shaped(g, Overlay(store, b, off, d))
  {
  }

  lemma OverlayReads(g: Geometry, store: Cells, b: nat, o: nat, at: nat, d: seq<byte8>, b': nat, o': nat)
    requires g.Valid() && Shaped(g, store) && at + |d| <= g.pageSize && Aligned(g, o)
    ensures Shaped(g, Overlay(store, b, o + at, d))
    ensures g.HasPage(b', o') && Aligned(g, o') ==>
              PageOf(g, Overlay(store, b, o + at, d), b', o') ==
              if b' == b && o' == o then Patched(PageOf(g, store, b', o'), at, d) else PageOf(g, store, b', o')
  {
    hide Aligned, OverlayRow, Patched;
    OverlayShape(g, store, b, o + at, d);
    if g.HasPage(b', o') && Aligned(g, o') && b' == b {
      if o == o' {
        OverlayInside(store[b], o, g.pageSize, at, d);
      } else {
        if o < o' { AlignedPages(g, o, o'); } else { AlignedPages(g, o', o); }
        OverlayOutside(store[b], o + at, d, o', g.pageSize);
      }
    }
  }

  /** Slot i with d written into its data. */
  function Patch(pool: Pool, i: nat, at: nat, d: seq<byte8>): Pool
    requires i < POOL_SIZE && at + |d| <= |pool[i].data|
  {
    pool[i := pool[i].(data := Patched(pool[i].data, at, d), dirty := true)]
  }

  /** What a reader sees of page (b, o) then. */
  lemma WriteShows(g: Geometry, pool: Pool, cells: Cells, store: Cells, i: nat, at: nat, d: seq<byte8>, b: nat, o: nat)
    requires g.Valid() && SlotsOk(g, pool) && Unique(pool) && Shaped(g, cells) && Shaped(g, store)
    requires i < POOL_SIZE && pool[i].valid && at + |d| <= g.pageSize && PageRefined(g, pool, cells, store, b, o)
    requires SlotsOk(g, Patch(pool, i, at, d)) && Unique(Patch(pool, i, at, d))
    ensures Shaped(g, Overlay(store, pool[i].block, pool[i].offset + at, d))
    ensures PageRefined(g, Patch(pool, i, at, d), cells, Overlay(store, pool[i].block, pool[i].offset + at, d), b, o)
  {
    hide Aligned, Overlay, Patched, Find;
    FindSame(pool, Patch(pool, i, at, d), b, o);
    FindHolder(pool, i);
    OverlayReads(g, store, pool[i].block, pool[i].offset, at, d, b, o);
  }

  lemma WriteKeeps(g: Geometry, pool: Pool, cells: Cells, store: Cells, spoiled: PageSet, i: nat, at: nat,
                   d: seq<byte8>)
    requires Refines(g, pool, cells, store, spoiled) && i < POOL_SIZE && pool[i].valid && at + |d| <= g.pageSize
    ensures |pool[i].data| == g.pageSize
    ensures Refines(g, Patch(pool, i, at, d), cells, Overlay(store, pool[i].block, pool[i].offset + at, d), spoiled)
  {
    hide Aligned, Overlay, Patched, PageRefined, Find;
    var pool', store' := Patch(pool, i, at, d), Overlay(store, pool[i].block, pool[i].offset + at, d);
    OverlayReads(g, store, pool[i].block, pool[i].offset, at, d, 0, 0);
    forall j | 0 <= j < POOL_SIZE ensures CleanOk(g, pool'[j], cells, spoiled) {
      assert CleanOk(g, pool[j], cells, spoiled);
    }
    forall b: nat, o: nat | (b, o) !in spoiled ensures PageRefined(g, pool', cells, store', b, o) {
      assert PageRefined(g, pool, cells, store, b, o);
      WriteShows(g, pool, cells, store, i, at, d, b, o);
    }
  }

  // ----- Erasing a block

  function Dropped(pool: Pool, b: nat): Pool
  {
    seq(POOL_SIZE, i requires 0 <= i < POOL_SIZE =>
      if (pool[i].valid || pool[i].reserved) && pool[i].block == b
      then pool[i].(valid := false, dirty := false, reserved := false) else pool[i])
  }

  /** After an erase of block b, failed or not, the block reads as its flash cells. */
  lemma EraseKeeps(g: Geometry, pool: Pool, cells: Cells, store: Cells, spoiled: PageSet, b: nat, cells': Cells)
    requires Refines(g, pool, cells, store, spoiled) && Shaped(g, cells')
    requires forall k | 0 <= k < |cells| && k != b :: cells'[k] == cells[k]
    ensures Refines(g, Dropped(pool, b), cells', if b < |store| then store[b := cells'[b]] else store,
                    set p | p in spoiled && p.0 != b)
  {
    hide Aligned, Find;
    var pool', store' := Dropped(pool, b), if b < |store| then store[b := cells'[b]] else store;
    var spoiled' := set p | p in spoiled && p.0 != b;
    forall j | 0 <= j < POOL_SIZE
      ensures CleanOk(g, pool'[j], cells', spoiled')
    {
      assert CleanOk(g, pool[j], cells, spoiled);
    }
    assert Unique(pool') by {
      forall i, j | 0 <= i < POOL_SIZE && 0 <= j < POOL_SIZE && i != j && pool'[i].valid
        ensures !pool'[j].Holds(pool'[i].block, pool'[i].offset)
      {
        assert pool[i].valid && !pool[j].Holds(pool[i].block, pool[i].offset);
      }
    }
    forall k: nat, o: nat | (k, o) !in spoiled' ensures PageRefined(g, pool', cells', store', k, o) {
      if k == b {
        assert forall j | 0 <= j < POOL_SIZE :: !pool'[j].Holds(k, o);
      } else {
        assert (k, o) !in spoiled;
        assert PageRefined(g, pool, cells, store, k, o);
        FindSame(pool, pool', k, o);
      }
    }
  }
}
