/** Which dirty pages an operation of the cache writes back, and what the flash then holds
    (vfs/photon_cache.hpp:30-48, 77-83, 228-240). */
module CacheFlushes {
  import opened FlashDevice
  import opened CacheModel

  // ----- One access

  /** An access to page (b, o) that ended in slot v: if it was not there already, the page in slot v was written back
      if it was dirty, and replaced. Nothing else changes. */
  ghost predicate Accessed(g: Geometry, v: nat, b: nat, o: nat, pool: Pool, cells: Cells, spoiled: PageSet,
                           writes: seq<Write>, pool': Pool, cells': Cells, spoiled': PageSet, writes': seq<Write>)
    requires g.Valid() && Shaped(g, cells)
  {
    && v < POOL_SIZE && (forall j | 0 <= j < POOL_SIZE && j != v :: pool'[j] == pool[j]) && pool'[v].Holds(b, o)
    && (pool[v].Holds(b, o) ==> pool'[v] == pool[v].(tick := pool'[v].tick))
    && (!pool[v].Holds(b, o) ==> !pool'[v].dirty)
    && (if pool[v].dirty && !pool[v].Holds(b, o) then
          && g.HasPage(pool[v].block, pool[v].offset) && |pool[v].data| == g.pageSize
          && cells' == Flushed(g, pool[v], cells) && spoiled' == spoiled + SpoiledBy(g, pool[v], cells)
          && writes' == writes + [WriteOf(g, pool[v], cells)]
        else cells' == cells && spoiled' == spoiled && writes' == writes)
  }

  lemma AccessGivesUp(g: Geometry, v: nat, b: nat, o: nat, pool: Pool, cells: Cells, spoiled: PageSet,
                      writes: seq<Write>, pool': Pool, cells': Cells, spoiled': PageSet, writes': seq<Write>)
    requires g.Valid() && Shaped(g, cells)
    requires Accessed(g, v, b, o, pool, cells, spoiled, writes, pool', cells', spoiled', writes')
    ensures GivenUp(spoiled, writes, spoiled', writes')
  {
    if pool[v].dirty && !pool[v].Holds(b, o) {
      FlushGivesUp(g, pool[v], cells, spoiled, writes);
    } else {
      NothingGivenUp(spoiled, writes);
    }
  }

  // ----- Reads: dirty slots stay as they were until they are written back

  /** Slot s, if dirty, was dirty before with the same data, and the flash under it is as before. */
  ghost predicate KeptDirty(g: Geometry, s0: Slot, cells0: Cells, s: Slot, cells: Cells)
    requires g.Valid() && Shaped(g, cells0) && Shaped(g, cells)
  {
    s.dirty ==>
      && s0.dirty && s0.valid && s.valid && s.block == s0.block && s.offset == s0.offset && s.data == s0.data
      && (g.HasPage(s.block, s.offset) ==>
            PageOf(g, cells, s.block, s.offset) == PageOf(g, cells0, s.block, s.offset))
  }

  ghost predicate AllKeptDirty(g: Geometry, pool0: Pool, cells0: Cells, pool: Pool, cells: Cells)
    requires g.Valid() && Shaped(g, cells0) && Shaped(g, cells)
  {
    forall i {:trigger KeptDirty(g, pool0[i], cells0, pool[i], cells)} | 0 <= i < POOL_SIZE ::
      KeptDirty(g, pool0[i], cells0, pool[i], cells)
  }

  /** The write flushes a slot that was dirty, onto the flash as it was. */
  ghost predicate FromDirty(g: Geometry, pool0: Pool, cells0: Cells, w: Write)
    requires g.Valid() && Shaped(g, cells0)
  {
    exists i ::
      && 0 <= i < POOL_SIZE && pool0[i].dirty && g.HasPage(pool0[i].block, pool0[i].offset)
      && w == WriteOf(g, pool0[i], cells0)
  }

  ghost predicate AllFromDirty(g: Geometry, pool0: Pool, cells0: Cells, ws: seq<Write>)
    requires g.Valid() && Shaped(g, cells0)
  {
    forall w {:trigger FromDirty(g, pool0, cells0, w)} | w in ws :: FromDirty(g, pool0, cells0, w)
  }

  lemma AccessKeepsDirty(g: Geometry, pool0: Pool, cells0: Cells, v: nat, b: nat, o: nat, pool: Pool, cells: Cells,
                         spoiled: PageSet, writes: seq<Write>, pool': Pool, cells': Cells, spoiled': PageSet,
                         writes': seq<Write>, n: nat)
    requires g.Valid() && Shaped(g, cells0) && Shaped(g, cells) && Shaped(g, cells') && n <= |writes|
    requires Unique(pool) && SlotsOk(g, pool) && AllKeptDirty(g, pool0, cells0, pool, cells)
    requires Accessed(g, v, b, o, pool, cells, spoiled, writes, pool', cells', spoiled', writes')
    requires AllFromDirty(g, pool0, cells0, writes[n..])
    ensures AllKeptDirty(g, pool0, cells0, pool', cells') && AllFromDirty(g, pool0, cells0, writes'[n..])
  {
    hide Aligned;
    var s := pool[v];
    var flushes := s.dirty && !s.Holds(b, o);
    if flushes {
      assert KeptDirty(g, pool0[v], cells0, s, cells);
      assert FromDirty(g, pool0, cells0, WriteOf(g, s, cells));
      assert writes'[n..] == writes[n..] + [WriteOf(g, s, cells)];
    }
    forall i | 0 <= i < POOL_SIZE ensures KeptDirty(g, pool0[i], cells0, pool'[i], cells') {
      assert KeptDirty(g, pool0[i], cells0, pool[i], cells);
      if i != v && pool[i].dirty && flushes {
        assert SlotOk(g, pool[i]) && SlotOk(g, s);
        FlushReads(g, s, cells, pool[i].block, pool[i].offset);
      }
    }
  }

  /** If slot s is dirty, the flash under it can take its data. */
  ghost predicate FlashTakes(g: Geometry, s: Slot, cells: Cells)
    requires g.Valid() && Shaped(g, cells) && |s.data| == g.pageSize
  {
    s.dirty && g.HasPage(s.block, s.offset) ==> Programmable(PageOf(g, cells, s.block, s.offset), s.data)
  }

  /** A caller's check: if the flash can take every dirty page, writing any of them back gives none up. */
  lemma DirtyAllTaken(g: Geometry, pool0: Pool, cells0: Cells, ws: seq<Write>)
    requires g.Valid() && Shaped(g, cells0) && SlotsOk(g, pool0) && AllFromDirty(g, pool0, cells0, ws)
    requires forall i | 0 <= i < POOL_SIZE :: |pool0[i].data| == g.pageSize && FlashTakes(g, pool0[i], cells0)
    ensures Inexact(ws) == {}
  {
    forall w | w in ws ensures w.Exact() {
      assert FromDirty(g, pool0, cells0, w);
      var i :| 0 <= i < POOL_SIZE && pool0[i].dirty && g.HasPage(pool0[i].block, pool0[i].offset)
               && w == WriteOf(g, pool0[i], cells0);
      assert FlashTakes(g, pool0[i], cells0);
    }
  }

  // ----- Writes

  ghost predicate WasDirty(pool0: Pool, b: nat, o: nat)
  {
    exists i :: 0 <= i < POOL_SIZE && pool0[i].dirty && pool0[i].Holds(b, o)
  }

  /** Page (k, o) has bytes among the n from offset off of block b on. */
  predicate InRange(g: Geometry, b: nat, off: nat, n: nat, k: nat, o: nat)
  {
    k == b && off < o + g.pageSize && o < off + n
  }

  /** Page (k, o) was dirty before or is written by the call. */
  ghost predicate MayDirty(g: Geometry, pool0: Pool, b: nat, off: nat, n: nat, k: nat, o: nat)
  {
    WasDirty(pool0, k, o) || InRange(g, b, off, n, k, o)
  }

  ghost predicate DirtyFrom(g: Geometry, pool0: Pool, b: nat, off: nat, n: nat, pool: Pool)
  {
    forall i {:trigger pool[i].dirty} | 0 <= i < POOL_SIZE && pool[i].dirty ::
      MayDirty(g, pool0, b, off, n, pool[i].block, pool[i].offset)
  }

  ghost predicate WritesFrom(g: Geometry, pool0: Pool, b: nat, off: nat, n: nat, ws: seq<Write>)
  {
    forall w {:trigger MayDirty(g, pool0, b, off, n, w.b, w.o)} | w in ws :: MayDirty(g, pool0, b, off, n, w.b, w.o)
  }

  lemma AccessDirtyFrom(g: Geometry, pool0: Pool, b: nat, off: nat, n: nat, v: nat, o: nat, pool: Pool, cells: Cells,
                        spoiled: PageSet, writes: seq<Write>, pool': Pool, cells': Cells, spoiled': PageSet,
                        writes': seq<Write>, m: nat)
    requires g.Valid() && Shaped(g, cells) && m <= |writes|
    requires Accessed(g, v, b, o, pool, cells, spoiled, writes, pool', cells', spoiled', writes')
    requires DirtyFrom(g, pool0, b, off, n, pool) && WritesFrom(g, pool0, b, off, n, writes[m..])
    ensures DirtyFrom(g, pool0, b, off, n, pool') && WritesFrom(g, pool0, b, off, n, writes'[m..])
  {
    hide MayDirty;
    var s := pool[v];
    if s.dirty && !s.Holds(b, o) {
      assert writes'[m..] == writes[m..] + [WriteOf(g, s, cells)];
    }
    assert pool'[v].dirty ==> pool[v].dirty;
  }

  lemma LongerRange(g: Geometry, pool0: Pool, b: nat, off: nat, n: nat, n': nat, pool: Pool, ws: seq<Write>)
    requires n <= n' && DirtyFrom(g, pool0, b, off, n, pool) && WritesFrom(g, pool0, b, off, n, ws)
    ensures DirtyFrom(g, pool0, b, off, n', pool) && WritesFrom(g, pool0, b, off, n', ws)
  {
    forall w | w in ws ensures MayDirty(g, pool0, b, off, n', w.b, w.o) {
      assert MayDirty(g, pool0, b, off, n, w.b, w.o);
    }
  }

  // ----- Writes that lose nothing

  /** The flash can take every dirty page. */
  ghost predicate PoolTaken(g: Geometry, pool: Pool, cells: Cells)
    requires g.Valid() && Shaped(g, cells)
  {
    forall i | 0 <= i < POOL_SIZE :: |pool[i].data| == g.pageSize && FlashTakes(g, pool[i], cells)
  }

  /** Writing v at offset x of block b clears bits of the store and sets none. */
  ghost predicate Clears(g: Geometry, store: Cells, spoiled: PageSet, b: nat, x: nat, v: byte8)
    requires g.Valid() && Shaped(g, store)
  {
    var o := PageBase(x, g.pageSize);
    g.HasPage(b, o) && x < o + g.pageSize ==> (b, o) !in spoiled && Within(v, store[b][x])
  }

  /** So does all of the data from byte n on. */
  ghost predicate OnlyClears(g: Geometry, store: Cells, spoiled: PageSet, b: nat, off: nat, data: seq<byte8>, n: nat)
    requires g.Valid() && Shaped(g, store)
  {
    forall k {:trigger data[k]} | n <= k < |data| :: Clears(g, store, spoiled, b, off + k, data[k])
  }

  /** An access then writes back exactly, and the flash can still take every dirty page. */
  lemma AccessTaken(g: Geometry, v: nat, b: nat, o: nat, pool: Pool, cells: Cells, spoiled: PageSet,
                    writes: seq<Write>, pool': Pool, cells': Cells, spoiled': PageSet, writes': seq<Write>, m: nat)
    requires g.Valid() && Shaped(g, cells) && Shaped(g, cells') && m <= |writes|
    requires Unique(pool) && SlotsOk(g, pool) && SlotsOk(g, pool') && PoolTaken(g, pool, cells)
    requires Accessed(g, v, b, o, pool, cells, spoiled, writes, pool', cells', spoiled', writes')
    requires Inexact(writes[m..]) == {}
    ensures PoolTaken(g, pool', cells') && spoiled' == spoiled && Inexact(writes'[m..]) == {}
  {
    hide Aligned, Programmable;
    var s := pool[v];
    var flushes := s.dirty && !s.Holds(b, o);
    if flushes {
      assert SlotOk(g, s) && FlashTakes(g, s, cells);
      assert writes'[m..] == writes[m..] + [WriteOf(g, s, cells)];
    }
    forall i | 0 <= i < POOL_SIZE ensures |pool'[i].data| == g.pageSize && FlashTakes(g, pool'[i], cells') {
      assert SlotOk(g, pool[i]) && SlotOk(g, pool'[i]) && FlashTakes(g, pool[i], cells);
      if i != v && pool[i].dirty && flushes { FlushReads(g, s, cells, pool[i].block, pool[i].offset); }
    }
  }

  /** The store changes only where the data has been written already. */
  lemma StillClears(g: Geometry, store: Cells, spoiled: PageSet, b: nat, off: nat, data: seq<byte8>, n: nat, c: nat)
    requires g.Valid() && Shaped(g, store) && n + c <= |data| && OnlyClears(g, store, spoiled, b, off, data, n)
    ensures Shaped(g, Overlay(store, b, off + n, data[n..n + c]))
    ensures OnlyClears(g, Overlay(store, b, off + n, data[n..n + c]), spoiled, b, off, data, n + c)
  {
    hide PageBase, Within;
    OverlayShape(g, store, b, off + n, data[n..n + c]);
    var store' := Overlay(store, b, off + n, data[n..n + c]);
    forall k | n + c <= k < |data| ensures Clears(g, store', spoiled, b, off + k, data[k]) {
      assert Clears(g, store, spoiled, b, off + k, data[k]);
    }
  }

  /** Writing d into a page from place `at` on sets no bit. */
  ghost predicate SetsNone(p: seq<byte8>, at: nat, d: seq<byte8>)
  {
    at + |d| <= |p| && forall k {:trigger d[k]} | 0 <= k < |d| :: Within(d[k], p[at + k])
  }

  /** What that says of the chunk that falls into page (b, o). */
  lemma ClearsPage(g: Geometry, store: Cells, spoiled: PageSet, b: nat, o: nat, at: nat, off: nat, data: seq<byte8>,
                   n: nat, c: nat)
    requires g.Valid() && Shaped(g, store) && n + c <= |data| && OnlyClears(g, store, spoiled, b, off, data, n)
    requires g.HasPage(b, o) && Aligned(g, o) && off + n == o + at && 0 < c && at + c <= g.pageSize
    ensures (b, o) !in spoiled && SetsNone(PageOf(g, store, b, o), at, data[n..n + c])
  {
    hide PageBase, OnlyClears, Within;
    var p, d := PageOf(g, store, b, o), data[n..n + c];
    forall k | 0 <= k < |d| ensures Within(d[k], p[at + k]) {
      BaseOf(o, at + k, g.pageSize);
      ClearsAt(g, store, spoiled, b, off, data, n, n + k);
      assert d[k] == data[n + k] && p[at + k] == store[b][o + (at + k)];
    }
    ClearsAt(g, store, spoiled, b, off, data, n, n);
    BaseOf(o, at, g.pageSize);
  }

  lemma ClearsAt(g: Geometry, store: Cells, spoiled: PageSet, b: nat, off: nat, data: seq<byte8>, n: nat, k: nat)
    requires g.Valid() && Shaped(g, store) && OnlyClears(g, store, spoiled, b, off, data, n) && n <= k < |data|
    ensures Clears(g, store, spoiled, b, off + k, data[k])
  {
  }

  lemma PatchedTaken(g: Geometry, pool: Pool, cells: Cells, i: nat, at: nat, d: seq<byte8>)
    requires g.Valid() && Shaped(g, cells) && PoolTaken(g, pool, cells) && i < POOL_SIZE && at + |d| <= g.pageSize
    requires |pool[i].data| == g.pageSize
    requires g.HasPage(pool[i].block, pool[i].offset) ==>
               Programmable(PageOf(g, cells, pool[i].block, pool[i].offset), Patched(pool[i].data, at, d))
    ensures PoolTaken(g, Patch(pool, i, at, d), cells)
  {
    hide Patched, Programmable;
    var pool' := Patch(pool, i, at, d);
    forall j | 0 <= j < POOL_SIZE ensures |pool'[j].data| == g.pageSize && FlashTakes(g, pool'[j], cells) {
      assert |pool[j].data| == g.pageSize && FlashTakes(g, pool[j], cells);
    }
  }

  /** A page of flash that can take p can take p with bits cleared. */
  lemma PatchProgrammable(was: seq<byte8>, p: seq<byte8>, at: nat, d: seq<byte8>)
    requires |was| == |p| && Programmable(was, p) && SetsNone(p, at, d)
    ensures Programmable(was, Patched(p, at, d))
  {
    hide Patched, Within;
    forall x | 0 <= x < |p| ensures Within(Patched(p, at, d)[x], was[x]) {
      PatchedAt(p, at, d, x);
      assert Within(p[x], was[x]);
      if at <= x < at + |d| {
        assert Within(d[x - at], p[at + (x - at)]);
        FewerBits(was[x], p[x], d[x - at]);
      }
    }
  }

  lemma PatchedAt(p: seq<byte8>, at: nat, d: seq<byte8>, x: nat)
    requires at + |d| <= |p| && x < |p|
    ensures Patched(p, at, d)[x] == if at <= x < at + |d| then d[x - at] else p[x]
  {
  }

  lemma TakesItself(p: seq<byte8>)
    ensures Programmable(p, p)
  {
  }

  lemma FewerBits(a: byte8, b: byte8, c: byte8)
    requires Within(b, a) && Within(c, b)
    ensures Within(c, a)
  {
  }

  // ----- Sync

  /** A slot and the flash under it after a sync: written back and clean, or as before. */
  ghost predicate SyncedSlot(g: Geometry, s0: Slot, cells0: Cells, s: Slot, cells: Cells)
    requires g.Valid() && Shaped(g, cells0) && Shaped(g, cells) && |s0.data| == g.pageSize
  {
    && s == s0.(dirty := s.dirty) && (s.dirty ==> s0.dirty)
    && (s0.dirty && !s.dirty ==> g.HasPage(s0.block, s0.offset))
    && (s0.valid && g.HasPage(s0.block, s0.offset) ==>
          PageOf(g, cells, s0.block, s0.offset) ==
            var p := PageOf(g, cells0, s0.block, s0.offset); if s0.dirty && !s.dirty then Program(p, s0.data) else p)
  }

  ghost predicate WrittenBack(s0: Slot, s: Slot) { s0.dirty && !s.dirty }

  /** Page (b, o) is not that of a slot written back. */
  ghost predicate LeftAlone(pool0: Pool, pool: Pool, b: nat, o: nat)
  {
    forall i | 0 <= i < POOL_SIZE && WrittenBack(pool0[i], pool[i]) :: !pool0[i].Holds(b, o)
  }

  ghost predicate SamePage(g: Geometry, cells0: Cells, cells: Cells, b: nat, o: nat)
    requires g.Valid() && Shaped(g, cells0) && Shaped(g, cells)
  {
    g.HasPage(b, o) && Aligned(g, o) ==> PageOf(g, cells, b, o) == PageOf(g, cells0, b, o)
  }

  /** The pages of the slots written back that the flash could not take. */
  ghost function SpoiledIn(g: Geometry, pool0: Pool, cells0: Cells, pool: Pool): PageSet
    requires g.Valid() && Shaped(g, cells0) && SlotsOk(g, pool0)
  {
    set i | 0 <= i < POOL_SIZE && WrittenBack(pool0[i], pool[i]) && !FlashTakes(g, pool0[i], cells0)
      :: (pool0[i].block, pool0[i].offset)
  }

  /** All that a sync changes. */
  ghost predicate Synced(g: Geometry, pool0: Pool, cells0: Cells, spoiled0: PageSet, pool: Pool, cells: Cells,
                         spoiled: PageSet)
    requires g.Valid() && Shaped(g, cells0) && Shaped(g, cells) && SlotsOk(g, pool0)
  {
    && (forall i {:trigger SyncedSlot(g, pool0[i], cells0, pool[i], cells)} | 0 <= i < POOL_SIZE ::
          SlotOk(g, pool0[i]) && SyncedSlot(g, pool0[i], cells0, pool[i], cells))
    && (forall b: nat, o: nat {:trigger SamePage(g, cells0, cells, b, o)} | LeftAlone(pool0, pool, b, o) ::
          SamePage(g, cells0, cells, b, o))
    && spoiled == spoiled0 + SpoiledIn(g, pool0, cells0, pool)
  }

  lemma SyncedNothing(g: Geometry, pool: Pool, cells: Cells, spoiled: PageSet)
    requires g.Valid() && Shaped(g, cells) && SlotsOk(g, pool)
    ensures Synced(g, pool, cells, spoiled, pool, cells, spoiled)
  {
    forall i | 0 <= i < POOL_SIZE ensures SlotOk(g, pool[i]) && SyncedSlot(g, pool[i], cells, pool[i], cells) {}
    assert SpoiledIn(g, pool, cells, pool) == {};
  }

  /** One more slot written back. */
  lemma SyncedOne(g: Geometry, pool0: Pool, cells0: Cells, spoiled0: PageSet, pool: Pool, cells: Cells,
                  spoiled: PageSet, i: nat)
    requires g.Valid() && Shaped(g, cells0) && Shaped(g, cells) && SlotsOk(g, pool0) && Unique(pool0)
    requires Synced(g, pool0, cells0, spoiled0, pool, cells, spoiled)
    requires i < POOL_SIZE && pool[i].dirty && g.HasPage(pool[i].block, pool[i].offset) && |pool[i].data| == g.pageSize
    ensures Synced(g, pool0, cells0, spoiled0, pool[i := pool[i].(dirty := false)], Flushed(g, pool[i], cells),
                   spoiled + SpoiledBy(g, pool[i], cells))
  {
    hide Aligned;
    var s, pool', cells' := pool[i], pool[i := pool[i].(dirty := false)], Flushed(g, pool[i], cells);
    assert SlotOk(g, pool0[i]) && SyncedSlot(g, pool0[i], cells0, s, cells);
    forall j | 0 <= j < POOL_SIZE ensures SlotOk(g, pool0[j]) && SyncedSlot(g, pool0[j], cells0, pool'[j], cells') {
      assert SyncedSlot(g, pool0[j], cells0, pool[j], cells);
      FlushReads(g, s, cells, pool0[j].block, pool0[j].offset);
    }
    forall b: nat, o: nat | LeftAlone(pool0, pool', b, o) ensures SamePage(g, cells0, cells', b, o) {
      assert WrittenBack(pool0[i], pool'[i]);
      assert LeftAlone(pool0, pool, b, o) by {
        forall j | 0 <= j < POOL_SIZE && WrittenBack(pool0[j], pool[j]) ensures !pool0[j].Holds(b, o) {
          assert WrittenBack(pool0[j], pool'[j]);
        }
      }
      assert SamePage(g, cells0, cells, b, o);
      FlushReads(g, s, cells, b, o);
    }
    SpoiledOne(g, pool0, cells0, pool, cells, i);
  }

  lemma SpoiledOne(g: Geometry, pool0: Pool, cells0: Cells, pool: Pool, cells: Cells, i: nat)
    requires g.Valid() && Shaped(g, cells0) && Shaped(g, cells) && SlotsOk(g, pool0)
    requires i < POOL_SIZE && SlotOk(g, pool0[i]) && SyncedSlot(g, pool0[i], cells0, pool[i], cells)
    requires pool[i].dirty && g.HasPage(pool[i].block, pool[i].offset)
    ensures SpoiledIn(g, pool0, cells0, pool[i := pool[i].(dirty := false)])
         == SpoiledIn(g, pool0, cells0, pool) + SpoiledBy(g, pool[i], cells)
  {
    var pool' := pool[i := pool[i].(dirty := false)];
    var was, now := SpoiledIn(g, pool0, cells0, pool), SpoiledIn(g, pool0, cells0, pool');
    var one := SpoiledBy(g, pool[i], cells);
    forall p | p in now ensures p in was + one {
      var j :| 0 <= j < POOL_SIZE && WrittenBack(pool0[j], pool'[j]) && !FlashTakes(g, pool0[j], cells0)
               && p == (pool0[j].block, pool0[j].offset);
      if j != i { assert WrittenBack(pool0[j], pool[j]); }
    }
    forall p | p in was + one ensures p in now {
      if p in was {
        var j :| 0 <= j < POOL_SIZE && WrittenBack(pool0[j], pool[j]) && !FlashTakes(g, pool0[j], cells0)
                 && p == (pool0[j].block, pool0[j].offset);
        assert WrittenBack(pool0[j], pool'[j]);
      } else {
        assert WrittenBack(pool0[i], pool'[i]) && !FlashTakes(g, pool0[i], cells0);
      }
    }
  }

  /** The dirty pages that the flash cannot take. */
  ghost function Untakeable(g: Geometry, pool: Pool, cells: Cells): PageSet
    requires g.Valid() && Shaped(g, cells) && SlotsOk(g, pool)
  {
    set i | 0 <= i < POOL_SIZE && pool[i].dirty && !FlashTakes(g, pool[i], cells) :: (pool[i].block, pool[i].offset)
  }

  /** A sync that leaves nothing dirty gives up exactly the dirty pages that the flash could not take. */
  lemma SyncedAll(g: Geometry, pool0: Pool, cells0: Cells, spoiled0: PageSet, pool: Pool, cells: Cells,
                  spoiled: PageSet)
    requires g.Valid() && Shaped(g, cells0) && Shaped(g, cells) && SlotsOk(g, pool0)
    requires Synced(g, pool0, cells0, spoiled0, pool, cells, spoiled)
    requires forall i | 0 <= i < POOL_SIZE :: !pool[i].dirty
    ensures spoiled == spoiled0 + Untakeable(g, pool0, cells0)
  {
    assert forall i | 0 <= i < POOL_SIZE :: WrittenBack(pool0[i], pool[i]) == pool0[i].dirty;
    assert SpoiledIn(g, pool0, cells0, pool) == Untakeable(g, pool0, cells0);
  }

  ghost predicate ErasedUnder(g: Geometry, s: Slot, cells: Cells)
    requires g.Valid() && Shaped(g, cells)
  {
    g.HasPage(s.block, s.offset) ==> forall x | 0 <= x < g.pageSize :: PageOf(g, cells, s.block, s.offset)[x] == ERASED
  }

  /** None is given up exactly when the flash can take every dirty page, as it can where it is erased. */
  lemma UntakeableIff(g: Geometry, pool: Pool, cells: Cells)
    requires g.Valid() && Shaped(g, cells) && SlotsOk(g, pool)
    ensures Untakeable(g, pool, cells) == {} <==>
              forall i | 0 <= i < POOL_SIZE && SlotOk(g, pool[i]) :: FlashTakes(g, pool[i], cells)
    ensures (forall i | 0 <= i < POOL_SIZE && pool[i].dirty :: ErasedUnder(g, pool[i], cells)) ==>
              Untakeable(g, pool, cells) == {}
  {
    forall i | 0 <= i < POOL_SIZE && !FlashTakes(g, pool[i], cells)
      ensures (pool[i].block, pool[i].offset) in Untakeable(g, pool, cells)
    {}
    forall i | 0 <= i < POOL_SIZE && pool[i].dirty && ErasedUnder(g, pool[i], cells)
      ensures FlashTakes(g, pool[i], cells)
    {
      if g.HasPage(pool[i].block, pool[i].offset) {
        ErasedIsProgrammable(PageOf(g, cells, pool[i].block, pool[i].offset), pool[i].data);
      }
    }
  }
}
