/** The write-back page cache in a run without interleaving (vfs/photon_cache.hpp:18-240). */
module PhotonCache {
  import opened FlashDevice
  import opened CacheModel
  import opened CacheFlushes
  import opened Recency

  class PhotonCache {
    const flash: FlashDevice
    var pool: Pool
    var tick: nat
    /** The flat byte store a client reads and writes. */
    ghost var store: Cells
    /** The pages lost because their flash cells could not take the data. */
    ghost var spoiled: PageSet
    /** The cached pages, most recently used first, as long as the tick counter has not wrapped. */
    ghost var lru: seq<PageKey>
    /** How many pages have been accessed: what the tick counter would be if it could not wrap. */
    ghost var accesses: nat

    ghost predicate Valid()
      reads this, flash
    {
      && flash.Valid() && tick < TICKS && Shaped(flash.g, store)
      && Refines(flash.g, pool, flash.cells, store, spoiled)
      && tick == accesses % TICKS && (!Wrapped() ==> InOrder(pool, lru, tick))
    }

    ghost predicate Wrapped()
      reads this
    {
      accesses >= TICKS
    }

    constructor (device: FlashDevice)
      requires device.Valid()
      ensures Valid() && flash == device && store == device.cells && spoiled == {} && lru == [] && accesses == 0
      ensures forall i | 0 <= i < POOL_SIZE :: !pool[i].valid
    {
      flash := device;
      pool := seq(POOL_SIZE, _ => Slot(0, 0, seq(device.g.pageSize, _ => 0), false, false, false, 0));
      tick := 0;
      store, spoiled, lru, accesses := device.cells, {}, [], 0;
      new;
      EmptyPool();
    }

    lemma EmptyPool()
      requires flash.Valid() && store == flash.cells && spoiled == {} && lru == []
      requires forall i | 0 <= i < POOL_SIZE ::
                 !pool[i].valid && !pool[i].dirty && !pool[i].reserved && |pool[i].data| == flash.g.pageSize
      ensures Refines(flash.g, pool, flash.cells, store, spoiled) && InOrder(pool, lru, tick)
    {
      KeysAre(pool, POOL_SIZE);
      assert Keys(pool) == {};
    }

    // ----- flush_page

    method FlushPage(i: nat) returns (res: int)
      requires Valid() && i < POOL_SIZE
      modifies `pool, `spoiled, flash
      ensures Valid()
      ensures !old(pool)[i].dirty ==> res == 0
      ensures flash.failures >= old(flash.failures) + if res == 0 then 0 else 3
      ensures res != 0 || !old(pool)[i].dirty ==>
                && pool == old(pool) && flash.cells == old(flash.cells) && spoiled == old(spoiled)
                && flash.writes == old(flash.writes)
      ensures res == 0 && old(pool)[i].dirty ==>
                var s := old(pool)[i];
                && pool == old(pool)[i := s.(dirty := false)] && flash.g.HasPage(s.block, s.offset)
                && flash.cells == Flushed(flash.g, s, old(flash.cells))
                && spoiled == old(spoiled) + SpoiledBy(flash.g, s, old(flash.cells))
                && flash.writes == old(flash.writes) + [WriteOf(flash.g, s, old(flash.cells))]
    {
      hide Refines, InOrder;
      SlotShape(i);
      if !pool[i].valid || !pool[i].dirty {
        return 0;
      }
      res := -1;
      var retry := 0;
      while retry < 3 && res != 0
        invariant flash.Valid() && pool == old(pool) && spoiled == old(spoiled) && retry <= 3
        invariant flash.failures >= old(flash.failures) + if res == 0 then 0 else retry
        invariant res != 0 ==> flash.cells == old(flash.cells) && flash.writes == old(flash.writes)
        invariant res == 0 ==>
                    && flash.g.HasPage(pool[i].block, pool[i].offset)
                    && flash.cells == Flushed(flash.g, pool[i], old(flash.cells))
                    && flash.writes == old(flash.writes) + [WriteOf(flash.g, pool[i], old(flash.cells))]
      {
        res := flash.WritePage(pool[i].block, pool[i].offset, pool[i].data);
        retry := retry + 1;
      }
      if res == 0 {
        FlushKeeps(flash.g, pool, old(flash.cells), store, spoiled, i);
        if !Wrapped() { SameOrdered(pool, pool[i := pool[i].(dirty := false)], lru, tick); }
        spoiled := spoiled + SpoiledBy(flash.g, pool[i], old(flash.cells));
        pool := pool[i := pool[i].(dirty := false)];
      }
    }

    lemma SlotShape(i: nat)
      requires Valid() && i < POOL_SIZE
      ensures |pool[i].data| == flash.g.pageSize && (pool[i].dirty ==> pool[i].valid) && !pool[i].reserved
      ensures pool[i].valid ==> Aligned(flash.g, pool[i].offset)
    {
    }

    // ----- get_or_alloc_page

    /** One scan of the pool: the slot that holds the page, or else the slot to take for it. */
    method Scan(b: nat, o: nat) returns (hit: nat, oldest: int)
      requires Valid()
      ensures hit == Find(pool, b, o) && -1 <= oldest < POOL_SIZE
      ensures hit == POOL_SIZE ==> oldest == Victim(pool)
      ensures hit == POOL_SIZE && oldest >= 0 ==> Takes(pool, oldest)
      ensures hit == POOL_SIZE && oldest == -1 ==>
                forall j | 0 <= j < POOL_SIZE :: pool[j].valid && pool[j].tick >= TICKS - 1
    {
      hide Refines, Recency.InOrder, Takes;
      var oldestTick: nat := TICKS - 1;
      oldest := -1;
      hit := 0;
      while hit < POOL_SIZE
        invariant 0 <= hit <= POOL_SIZE && -1 <= oldest < hit && (oldest >= 0 ==> !pool[oldest].reserved)
        invariant FindFrom(pool, b, o, hit) == Find(pool, b, o)
        invariant ScanFrom(pool, hit, oldest, oldestTick) == Victim(pool)
      {
        if pool[hit].valid && pool[hit].block == b && pool[hit].offset == o {
          return;
        }
        if !pool[hit].valid && !pool[hit].reserved {
          oldest, oldestTick := hit, 0;
        } else if !pool[hit].reserved && pool[hit].tick < oldestTick {
          oldest, oldestTick := hit, pool[hit].tick;
        }
        hit := hit + 1;
      }
      NoneReserved();
      VictimTakes(pool);
    }

    lemma NoneReserved()
      requires Valid()
      ensures forall i | 0 <= i < POOL_SIZE :: !pool[i].reserved
    {
      hide Refines;
      forall i | 0 <= i < POOL_SIZE ensures !pool[i].reserved { SlotShape(i); }
    }

    /** The slot of page (b, o), loaded if need be; -1 if the victim could not be written back. */
    method GetOrAllocPage(b: nat, o: nat) returns (idx: int)
      requires Valid() && Aligned(flash.g, o)
      modifies `pool, `tick, `spoiled, `lru, `accesses, flash
      ensures Valid() && spoiled >= old(spoiled) && accesses == old(accesses) + if idx >= 0 then 1 else 0
      ensures flash.failures >= old(flash.failures)
      ensures -1 <= idx < POOL_SIZE
      ensures idx == -1 ==> flash.failures > old(flash.failures) || (Victim(old(pool)) == -1 && Wrapped())
      ensures idx == -1 ==>
                && pool == old(pool) && flash.cells == old(flash.cells) && spoiled == old(spoiled) && lru == old(lru)
                && flash.writes == old(flash.writes)
      ensures idx >= 0 ==> pool[idx].Holds(b, o) && lru == Access(old(lru), (b, o))
      ensures idx >= 0 ==> Accessed(flash.g, idx, b, o, old(pool), old(flash.cells), old(spoiled), old(flash.writes),
                                    pool, flash.cells, spoiled, flash.writes)
      ensures idx >= 0 && !old(pool)[idx].Holds(b, o) ==> Find(old(pool), b, o) == POOL_SIZE && idx == Victim(old(pool))
    {
      hide Refines, InOrder, Access, Flushed, SpoiledBy;
      var hit, oldest := Scan(b, o);
      if hit < POOL_SIZE {
        Touch(hit);
        return hit;
      }
      if oldest == -1 {
        if !Wrapped() { SlotToTake(pool, lru, tick); }
        return -1;
      }
      idx := Replace(oldest, b, o);
    }

    /** Write the page in slot v back and load page (b, o) in its place. */
    method Replace(v: nat, b: nat, o: nat) returns (idx: int)
      requires Valid() && Aligned(flash.g, o) && v < POOL_SIZE && Takes(pool, v) && Find(pool, b, o) == POOL_SIZE
      modifies `pool, `tick, `spoiled, `lru, `accesses, flash
      ensures Valid() && spoiled >= old(spoiled) && accesses == old(accesses) + if idx >= 0 then 1 else 0
      ensures flash.failures >= old(flash.failures)
      ensures idx == -1 ==> flash.failures > old(flash.failures)
      ensures idx == -1 ==>
                && pool == old(pool) && flash.cells == old(flash.cells) && spoiled == old(spoiled) && lru == old(lru)
                && flash.writes == old(flash.writes)
      ensures -1 <= idx && (idx != -1 ==> idx == v) && accesses == old(accesses) + if idx >= 0 then 1 else 0
      ensures idx != -1 ==> pool[v].Holds(b, o) && lru == Access(old(lru), (b, o))
      ensures idx != -1 ==> Accessed(flash.g, v, b, o, old(pool), old(flash.cells), old(spoiled), old(flash.writes),
                                     pool, flash.cells, spoiled, flash.writes)
    {
      hide Refines, InOrder, Access, After, Flushed, SpoiledBy;
      SlotShape(v);
      var res := FlushPage(v);
      if res != 0 {
        return -1;
      }
      StillMissing(old(pool), pool, v, b, o);
      var scratch := Scratch();
      var _, data := flash.ReadPage(b, o, scratch);
      Fill(v, Slot(b, o, data, true, false, false, After(tick)));
      idx := v;
    }

    static lemma StillMissing(pool: Pool, pool': Pool, v: nat, b: nat, o: nat)
      requires v < POOL_SIZE && (pool' == pool || pool' == pool[v := pool[v].(dirty := false)])
      requires Find(pool, b, o) == POOL_SIZE && Takes(pool, v)
      ensures Find(pool', b, o) == POOL_SIZE && Takes(pool', v)
    {
    }

    /** The stack buffer a page is read into: its content is arbitrary until a read succeeds. */
    method Scratch() returns (buf: seq<byte8>)
      ensures |buf| == flash.g.pageSize
    {
      var x: byte8 := *;
      buf := seq(flash.g.pageSize, _ => x);
    }

    method Touch(i: nat)
      requires Valid() && i < POOL_SIZE && pool[i].valid
      modifies `pool, `tick, `lru, `accesses
      ensures Valid() && tick == After(old(tick)) && accesses == old(accesses) + 1
      ensures pool == old(pool)[i := old(pool)[i].(tick := After(old(tick)))]
      ensures lru == Access(old(lru), (old(pool)[i].block, old(pool)[i].offset))
    {
      hide Refines, InOrder, Access;
      var t := After(tick);
      NextAccess(accesses, tick);
      TouchKeeps(flash.g, pool, flash.cells, store, spoiled, i, t);
      if accesses + 1 < TICKS { TouchOrdered(pool, lru, i, tick); }
      lru := Access(lru, KeyOf(pool[i]));
      pool := pool[i := pool[i].(tick := t)];
      tick, accesses := t, accesses + 1;
    }

    method Fill(v: nat, s: Slot)
      requires Valid() && v < POOL_SIZE && !pool[v].dirty && Find(pool, s.block, s.offset) == POOL_SIZE
      requires s.valid && !s.dirty && !s.reserved && |s.data| == flash.g.pageSize && Aligned(flash.g, s.offset)
      requires flash.g.HasPage(s.block, s.offset) ==> s.data == PageOf(flash.g, flash.cells, s.block, s.offset)
      requires s.tick == After(tick) && Takes(pool, v)
      modifies `pool, `tick, `lru, `accesses
      ensures Valid() && pool == old(pool)[v := s] && tick == s.tick && accesses == old(accesses) + 1
      ensures lru == Access(old(lru), (s.block, s.offset))
    {
      hide Refines, InOrder, Access;
      NextAccess(accesses, tick);
      LoadKeeps(flash.g, pool, flash.cells, store, spoiled, v, s);
      if accesses + 1 < TICKS { LoadOrdered(pool, lru, v, s, tick); }
      lru := Access(lru, KeyOf(s));
      pool := pool[v := s];
      tick, accesses := s.tick, accesses + 1;
    }

    static lemma NextAccess(n: nat, t: nat)
      requires t == n % TICKS
      ensures After(t) == (n + 1) % TICKS && (n + 1 < TICKS ==> After(t) == t + 1)
    {
      var q := n / TICKS;
      assert n == TICKS * q + t;
      if t + 1 < TICKS {
        assert n + 1 == TICKS * q + (t + 1);
        WrapOf(q, t + 1);
      } else {
        assert n + 1 == TICKS * (q + 1) + 0;
        WrapOf(q + 1, 0);
      }
    }

    // ----- read

    /** Byte x of block b, unless it lies outside the device or in a spoiled page. */
    ghost predicate ByteOk(b: nat, x: nat, v: byte8)
      requires flash.g.Valid() && Shaped(flash.g, store)
      reads this
    {
      b < flash.g.blockCount && x < flash.g.blockSize && (b, x - x % flash.g.pageSize) !in spoiled ==> v == store[b][x]
    }

    lemma CachedByte(i: nat, at: nat)
      requires Valid() && i < POOL_SIZE && pool[i].valid && at < flash.g.pageSize
      ensures |pool[i].data| == flash.g.pageSize
      ensures ByteOk(pool[i].block, pool[i].offset + at, pool[i].data[at])
    {
      var b, o, ps := pool[i].block, pool[i].offset, flash.g.pageSize;
      SlotShape(i);
      ModWithin(o, at, ps);
      if b < flash.g.blockCount && o + at < flash.g.blockSize && (b, o) !in spoiled {
        AlignedApart(o, flash.g.blockSize, ps);
        assert PageRefined(flash.g, pool, flash.cells, store, b, o);
        FindHolder(pool, i);
        assert PageOf(flash.g, store, b, o)[at] == store[b][o + at];
      }
    }

    /** Reading writes back only pages that were dirty before, onto the flash as it was: all pages it gives up are among
        those the flash could not take (see `DirtyAllTaken`). Each page of the range is accessed once. */
    method Read(b: nat, offset: nat, size: nat) returns (res: int, buf: seq<byte8>)
      requires Valid() && offset + size + flash.g.pageSize <= TICKS
      modifies `pool, `tick, `spoiled, `lru, `accesses, flash
      ensures Valid() && GivenUp(old(spoiled), old(flash.writes), spoiled, flash.writes)
      ensures AllFromDirty(flash.g, old(pool), old(flash.cells), flash.writes[|old(flash.writes)|..])
      ensures res == -1 ==> flash.failures > old(flash.failures) || Wrapped()
      ensures res == size == |buf| || (res == -1 && |buf| < size)
      ensures accesses == old(accesses) + |PagesOf(flash.g.pageSize, b, offset, |buf|)|
      ensures lru == AccessAll(old(lru), PagesOf(flash.g.pageSize, b, offset, |buf|))
      ensures forall k | 0 <= k < |buf| :: ByteOk(b, offset + k, buf[k])
    {
      hide Refines, InOrder, Access, AccessAll, PagesOf, GivenUp, AllFromDirty, AllKeptDirty, ByteOk;
      buf := [];
      ReadStart();
      NoPages(lru, flash.g.pageSize, b, offset);
      while |buf| < size
        invariant Valid() && |buf| <= size && ReadSoFar(old(pool), old(flash.cells), old(spoiled), old(flash.writes))
        invariant flash.failures >= old(flash.failures)
        invariant |buf| == 0 || |buf| == size || (offset + |buf|) % flash.g.pageSize == 0
        invariant accesses == old(accesses) + |PagesOf(flash.g.pageSize, b, offset, |buf|)|
        invariant lru == AccessAll(old(lru), PagesOf(flash.g.pageSize, b, offset, |buf|))
        invariant BytesOk(b, offset, buf)
        decreases size - |buf|
      {
        hide ReadSoFar, BytesOk;
        var curr := offset + |buf|;
        var at := curr % flash.g.pageSize;
        var chunk := if flash.g.pageSize - at > size - |buf| then size - |buf| else flash.g.pageSize - at;
        PageStart(curr, flash.g.pageSize);
        NextPage(old(lru), flash.g.pageSize, b, offset, |buf|, curr - at, at, chunk);
        if at + chunk == flash.g.pageSize { PageEnd(curr - at, at, chunk, flash.g.pageSize); }
        var idx, part := ReadPart(b, curr - at, at, chunk, offset, buf, old(pool), old(flash.cells), old(spoiled),
                                  old(flash.writes));
        if idx == -1 {
          return -1, buf;
        }
        buf := buf + part;
      }
      res := size;
    }

    ghost predicate BytesOk(b: nat, offset: nat, buf: seq<byte8>)
      requires flash.g.Valid() && Shaped(flash.g, store)
      reads this
    {
      forall k | 0 <= k < |buf| :: ByteOk(b, offset + k, buf[k])
    }

    /** Where a read stands: which pages it has written back. */
    ghost predicate ReadSoFar(pool0: Pool, cells0: Cells, spoiled0: PageSet, writes0: seq<Write>)
      requires flash.Valid() && Shaped(flash.g, cells0)
      reads this, flash
    {
      && GivenUp(spoiled0, writes0, spoiled, flash.writes) && writes0 <= flash.writes
      && AllKeptDirty(flash.g, pool0, cells0, pool, flash.cells)
      && AllFromDirty(flash.g, pool0, cells0, flash.writes[|writes0|..])
    }

    /** Read a chunk from place `at` of page (b, o), which follows the bytes in buf. */
    method ReadPart(b: nat, o: nat, at: nat, chunk: nat, ghost offset: nat, ghost buf: seq<byte8>, ghost pool0: Pool,
                    ghost cells0: Cells, ghost spoiled0: PageSet, ghost writes0: seq<Write>)
      returns (idx: int, part: seq<byte8>)
      requires Valid() && Aligned(flash.g, o) && at + chunk <= flash.g.pageSize && offset + |buf| == o + at
      requires Shaped(flash.g, cells0) && ReadSoFar(pool0, cells0, spoiled0, writes0) && BytesOk(b, offset, buf)
      modifies `pool, `tick, `spoiled, `lru, `accesses, flash
      ensures Valid() && flash.failures >= old(flash.failures) && ReadSoFar(pool0, cells0, spoiled0, writes0)
      ensures idx == -1 ==> flash.failures > old(flash.failures) || Wrapped()
      ensures idx == -1 ==> lru == old(lru) && accesses == old(accesses) && BytesOk(b, offset, buf)
      ensures idx != -1 ==> lru == Access(old(lru), (b, o)) && accesses == old(accesses) + 1
      ensures idx != -1 ==> |part| == chunk && BytesOk(b, offset, buf + part)
    {
      hide Refines, InOrder, Access, GivenUp, AllFromDirty, AllKeptDirty, Accessed;
      Shapes();
      ghost var p, c, sp, w := pool, flash.cells, spoiled, flash.writes;
      part := [];
      idx := GetOrAllocPage(b, o);
      if idx == -1 {
        return;
      }
      Shapes();
      ReadOne(flash.g, idx, b, o, pool0, cells0, spoiled0, writes0, p, c, sp, w, pool, flash.cells, spoiled,
              flash.writes);
      SlotShape(idx);
      part := pool[idx].data[at..at + chunk];
      forall k | 0 <= k < |buf + part| ensures ByteOk(b, offset + k, (buf + part)[k]) {
        if k < |buf| {
          assert ByteOk(b, offset + k, buf[k]);
        } else {
          CachedByte(idx, at + k - |buf|);
        }
      }
    }

    lemma Shapes()
      requires Valid()
      ensures Unique(pool) && SlotsOk(flash.g, pool) && Shaped(flash.g, flash.cells)
    {
    }

    lemma ReadStart()
      requires Valid()
      ensures GivenUp(spoiled, flash.writes, spoiled, flash.writes)
      ensures AllKeptDirty(flash.g, pool, flash.cells, pool, flash.cells)
      ensures AllFromDirty(flash.g, pool, flash.cells, flash.writes[|flash.writes|..])
    {
      NothingGivenUp(spoiled, flash.writes);
      forall i | 0 <= i < POOL_SIZE ensures KeptDirty(flash.g, pool[i], flash.cells, pool[i], flash.cells) {
        SlotShape(i);
      }
    }

    static lemma ReadOne(g: Geometry, v: nat, b: nat, o: nat, pool0: Pool, cells0: Cells, spoiled0: PageSet,
                         writes0: seq<Write>, pool: Pool, cells: Cells, spoiled: PageSet, writes: seq<Write>,
                         pool': Pool, cells': Cells, spoiled': PageSet, writes': seq<Write>)
      requires g.Valid() && Shaped(g, cells0) && Shaped(g, cells) && Shaped(g, cells')
      requires Unique(pool) && SlotsOk(g, pool) && AllKeptDirty(g, pool0, cells0, pool, cells)
      requires GivenUp(spoiled0, writes0, spoiled, writes) && writes0 <= writes
      requires AllFromDirty(g, pool0, cells0, writes[|writes0|..])
      requires Accessed(g, v, b, o, pool, cells, spoiled, writes, pool', cells', spoiled', writes')
      ensures GivenUp(spoiled0, writes0, spoiled', writes') && writes0 <= writes'
      ensures AllKeptDirty(g, pool0, cells0, pool', cells') && AllFromDirty(g, pool0, cells0, writes'[|writes0|..])
    {
      hide AllKeptDirty, AllFromDirty, SlotsOk, Unique, Accessed;
      AccessGivesUp(g, v, b, o, pool, cells, spoiled, writes, pool', cells', spoiled', writes');
      GivenUpTrans(spoiled0, writes0, spoiled, writes, spoiled', writes');
      AccessKeepsDirty(g, pool0, cells0, v, b, o, pool, cells, spoiled, writes, pool', cells', spoiled', writes',
                       |writes0|);
    }

    // ----- write

    /** Writing writes back only pages that were dirty before or that it writes. If the flash can take every dirty page
        and the data sets no bit of the store, as on erased pages, then every page is written back exactly, none is
        given up, and the flash can take every dirty page afterwards. */
    method Write(b: nat, offset: nat, data: seq<byte8>) returns (res: int, ghost done: nat)
      requires Valid() && offset + |data| + flash.g.pageSize <= TICKS
      modifies `pool, `tick, `store, `spoiled, `lru, `accesses, flash
      ensures Valid() && GivenUp(old(spoiled), old(flash.writes), spoiled, flash.writes)
      ensures WritesFrom(flash.g, old(pool), b, offset, done, flash.writes[|old(flash.writes)|..])
      ensures && PoolTaken(flash.g, old(pool), old(flash.cells))
              && OnlyClears(flash.g, old(store), old(spoiled), b, offset, data, 0) ==>
                && Inexact(flash.writes[|old(flash.writes)|..]) == {} && spoiled == old(spoiled)
                && PoolTaken(flash.g, pool, flash.cells)
      ensures res == -1 ==> flash.failures > old(flash.failures) || Wrapped()
      ensures (res == |data| == done) || (res == -1 && done < |data|)
      ensures accesses == old(accesses) + |PagesOf(flash.g.pageSize, b, offset, done)|
      ensures lru == AccessAll(old(lru), PagesOf(flash.g.pageSize, b, offset, done))
      ensures done <= |data| && store == Overlay(old(store), b, offset, data[..done])
    {
      hide Refines, InOrder, Access, AccessAll, PagesOf, GivenUp, WritesFrom, DirtyFrom, PoolTaken, OnlyClears, Inexact;
      var n := 0;
      OverlayNothing(store, b, offset);
      WriteStart(b, offset);
      NoPages(lru, flash.g.pageSize, b, offset);
      ghost var exact := && PoolTaken(flash.g, pool, flash.cells)
                         && OnlyClears(flash.g, store, spoiled, b, offset, data, 0);
      while n < |data|
        invariant Valid() && 0 <= n <= |data|
        invariant Written(b, offset, data, n, old(pool), old(spoiled), old(flash.writes), exact)
        invariant flash.failures >= old(flash.failures)
        invariant n == 0 || n == |data| || (offset + n) % flash.g.pageSize == 0
        invariant accesses == old(accesses) + |PagesOf(flash.g.pageSize, b, offset, n)|
        invariant lru == AccessAll(old(lru), PagesOf(flash.g.pageSize, b, offset, n))
        invariant store == Overlay(old(store), b, offset, data[..n])
        decreases |data| - n
      {
        hide Written, Overlay;
        var curr := offset + n;
        var at := curr % flash.g.pageSize;
        var chunk := if flash.g.pageSize - at > |data| - n then |data| - n else flash.g.pageSize - at;
        PageStart(curr, flash.g.pageSize);
        NextPage(old(lru), flash.g.pageSize, b, offset, n, curr - at, at, chunk);
        if at + chunk == flash.g.pageSize { PageEnd(curr - at, at, chunk, flash.g.pageSize); }
        var idx := WritePart(b, curr - at, at, offset, data, n, chunk, old(pool), old(spoiled), old(flash.writes),
                             exact);
        if idx == -1 {
          return -1, n;
        }
        OverlayJoin(old(store), b, offset, data[..n], data[n..n + chunk]);
        assert data[..n] + data[n..n + chunk] == data[..n + chunk];
        n := n + chunk;
      }
      assert data[..n] == data;
      res, done := |data|, |data|;
    }

    /** Where a write stands after n bytes: which pages it wrote back, and that the flash took them if it is exact. */
    ghost predicate Written(b: nat, offset: nat, data: seq<byte8>, n: nat, pool0: Pool, spoiled0: PageSet,
                            writes0: seq<Write>, exact: bool)
      requires flash.Valid() && Shaped(flash.g, store)
      reads this, flash
    {
      && GivenUp(spoiled0, writes0, spoiled, flash.writes) && writes0 <= flash.writes
      && DirtyFrom(flash.g, pool0, b, offset, n, pool)
      && WritesFrom(flash.g, pool0, b, offset, n, flash.writes[|writes0|..])
      && (exact ==>
            && PoolTaken(flash.g, pool, flash.cells) && OnlyClears(flash.g, store, spoiled, b, offset, data, n)
            && spoiled == spoiled0 && Inexact(flash.writes[|writes0|..]) == {})
    }

    /** Write the chunk of data from byte n on, which goes to place `at` of page (b, o). */
    method WritePart(b: nat, o: nat, at: nat, offset: nat, data: seq<byte8>, n: nat, chunk: nat, ghost pool0: Pool,
                     ghost spoiled0: PageSet, ghost writes0: seq<Write>, ghost exact: bool)
      returns (idx: int)
      requires Valid() && Aligned(flash.g, o) && at + chunk <= flash.g.pageSize
      requires offset + n == o + at && 0 < chunk && n + chunk <= |data|
      requires Written(b, offset, data, n, pool0, spoiled0, writes0, exact)
      modifies `pool, `tick, `store, `spoiled, `lru, `accesses, flash
      ensures Valid() && flash.failures >= old(flash.failures)
      ensures Written(b, offset, data, if idx == -1 then n else n + chunk, pool0, spoiled0, writes0, exact)
      ensures idx == -1 ==> flash.failures > old(flash.failures) || Wrapped()
      ensures idx == -1 ==> store == old(store) && lru == old(lru) && accesses == old(accesses)
      ensures idx != -1 ==> store == Overlay(old(store), b, offset + n, data[n..n + chunk])
      ensures idx != -1 ==> lru == Access(old(lru), (b, o)) && accesses == old(accesses) + 1
    {
      hide Refines, InOrder, Access, GivenUp, WritesFrom, DirtyFrom, Accessed, PoolTaken, OnlyClears, Inexact, Overlay;
      Shapes();
      ghost var p, c, sp, w := pool, flash.cells, spoiled, flash.writes;
      idx := GetOrAllocPage(b, o);
      if idx == -1 {
        return;
      }
      Shapes();
      WriteOne(flash.g, idx, b, o, offset, n, pool0, spoiled0, writes0, p, c, sp, w, pool, flash.cells, spoiled,
               flash.writes);
      if exact {
        AccessTaken(flash.g, idx, b, o, p, c, sp, w, pool, flash.cells, spoiled, flash.writes, |writes0|);
        PatchTaken(idx, at, offset, data, n, chunk);
        StillClears(flash.g, store, spoiled, b, offset, data, n, chunk);
      }
      ghost var touched := pool;
      PatchSlot(idx, at, data[n..n + chunk]);
      PatchedFrom(flash.g, pool0, b, offset, n, n + chunk, touched, idx, pool, flash.writes[|writes0|..]);
    }

    /** A chunk that clears bits of the store leaves a page that the flash can take, if it could take it before. */
    lemma PatchTaken(i: nat, at: nat, offset: nat, data: seq<byte8>, n: nat, chunk: nat)
      requires Valid() && i < POOL_SIZE && pool[i].valid && at + chunk <= flash.g.pageSize && n + chunk <= |data|
      requires offset + n == pool[i].offset + at && PoolTaken(flash.g, pool, flash.cells) && chunk > 0
      requires OnlyClears(flash.g, store, spoiled, pool[i].block, offset, data, n)
      ensures |pool[i].data| == flash.g.pageSize
      ensures PoolTaken(flash.g, Patch(pool, i, at, data[n..n + chunk]), flash.cells)
    {
      hide Refines, InOrder, Find, Programmable, Patched, OnlyClears;
      SlotShape(i);
      var s, d := pool[i], data[n..n + chunk];
      if flash.g.HasPage(s.block, s.offset) {
        ClearsPage(flash.g, store, spoiled, s.block, s.offset, at, offset, data, n, chunk);
        CachedPage(i);
        assert FlashTakes(flash.g, s, flash.cells);
        assert Programmable(PageOf(flash.g, flash.cells, s.block, s.offset), s.data) by {
          if !s.dirty { TakesItself(s.data); }
        }
        PatchProgrammable(PageOf(flash.g, flash.cells, s.block, s.offset), s.data, at, d);
      }
      PatchedTaken(flash.g, pool, flash.cells, i, at, d);
    }

    /** A cached page that is not spoiled is that of the store, and that of the flash if it is clean. */
    lemma CachedPage(i: nat)
      requires Valid() && i < POOL_SIZE && pool[i].valid && flash.g.HasPage(pool[i].block, pool[i].offset)
      requires (pool[i].block, pool[i].offset) !in spoiled
      ensures pool[i].data == PageOf(flash.g, store, pool[i].block, pool[i].offset)
      ensures !pool[i].dirty ==> pool[i].data == PageOf(flash.g, flash.cells, pool[i].block, pool[i].offset)
    {
      hide Find;
      assert PageRefined(flash.g, pool, flash.cells, store, pool[i].block, pool[i].offset);
      assert CleanOk(flash.g, pool[i], flash.cells, spoiled);
      FindHolder(pool, i);
    }

    lemma WriteStart(b: nat, offset: nat)
      requires Valid()
      ensures GivenUp(spoiled, flash.writes, spoiled, flash.writes) && DirtyFrom(flash.g, pool, b, offset, 0, pool)
      ensures WritesFrom(flash.g, pool, b, offset, 0, flash.writes[|flash.writes|..])
      ensures Inexact(flash.writes[|flash.writes|..]) == {}
    {
      NothingGivenUp(spoiled, flash.writes);
      forall i | 0 <= i < POOL_SIZE && pool[i].dirty
        ensures MayDirty(flash.g, pool, b, offset, 0, pool[i].block, pool[i].offset)
      {
        SlotShape(i);
        assert pool[i].Holds(pool[i].block, pool[i].offset);
      }
    }

    static lemma WriteOne(g: Geometry, v: nat, b: nat, o: nat, offset: nat, n: nat, pool0: Pool, spoiled0: PageSet,
                          writes0: seq<Write>, pool: Pool, cells: Cells, spoiled: PageSet, writes: seq<Write>,
                          pool': Pool, cells': Cells, spoiled': PageSet, writes': seq<Write>)
      requires g.Valid() && Shaped(g, cells) && GivenUp(spoiled0, writes0, spoiled, writes) && writes0 <= writes
      requires DirtyFrom(g, pool0, b, offset, n, pool) && WritesFrom(g, pool0, b, offset, n, writes[|writes0|..])
      requires Accessed(g, v, b, o, pool, cells, spoiled, writes, pool', cells', spoiled', writes')
      ensures GivenUp(spoiled0, writes0, spoiled', writes') && writes0 <= writes'
      ensures DirtyFrom(g, pool0, b, offset, n, pool') && WritesFrom(g, pool0, b, offset, n, writes'[|writes0|..])
    {
      hide DirtyFrom, WritesFrom, Accessed;
      AccessGivesUp(g, v, b, o, pool, cells, spoiled, writes, pool', cells', spoiled', writes');
      GivenUpTrans(spoiled0, writes0, spoiled, writes, spoiled', writes');
      AccessDirtyFrom(g, pool0, b, offset, n, v, o, pool, cells, spoiled, writes, pool', cells', spoiled', writes',
                      |writes0|);
    }

    /** The slot patched holds a page in the range written so far. */
    static lemma PatchedFrom(g: Geometry, pool0: Pool, b: nat, offset: nat, n: nat, n': nat, pool: Pool, v: nat,
                             pool': Pool, ws: seq<Write>)
      requires DirtyFrom(g, pool0, b, offset, n, pool) && WritesFrom(g, pool0, b, offset, n, ws) && n <= n'
      requires v < POOL_SIZE && (forall j | 0 <= j < POOL_SIZE && j != v :: pool'[j] == pool[j])
      requires InRange(g, b, offset, n', pool'[v].block, pool'[v].offset)
      ensures DirtyFrom(g, pool0, b, offset, n', pool') && WritesFrom(g, pool0, b, offset, n', ws)
    {
      LongerRange(g, pool0, b, offset, n, n', pool, ws);
    }

    method PatchSlot(i: nat, at: nat, d: seq<byte8>)
      requires Valid() && i < POOL_SIZE && pool[i].valid && at + |d| <= flash.g.pageSize
      modifies `pool, `store
      ensures Valid() && store == Overlay(old(store), old(pool)[i].block, old(pool)[i].offset + at, d)
      ensures |old(pool)[i].data| == flash.g.pageSize
      ensures pool == Patch(old(pool), i, at, d)
    {
      hide Refines, InOrder;
      SlotShape(i);
      WriteKeeps(flash.g, pool, flash.cells, store, spoiled, i, at, d);
      var pool' := Patch(pool, i, at, d);
      if !Wrapped() { SameOrdered(pool, pool', lru, tick); }
      store := Overlay(store, pool[i].block, pool[i].offset + at, d);
      pool := pool';
    }

    // ----- erase

    /** Drops the cached pages of the block, then erases it; if that fails, unwritten data of the block is gone. */
    method Erase(b: nat) returns (res: int)
      requires Valid()
      modifies `pool, `store, `spoiled, `lru, flash
      ensures Valid() && lru == WithoutBlock(old(lru), b) && (res != 0 ==> flash.failures > old(flash.failures))
      ensures res == 0 ==> b < |store| && store == old(store)[b := seq(flash.g.blockSize, _ => ERASED)]
      ensures res != 0 ==>
                store == if b < |old(store)| && b < |old(flash.cells)| then old(store)[b := old(flash.cells)[b]]
                         else old(store)
      ensures spoiled == set p | p in old(spoiled) && p.0 != b
    {
      hide Refines, InOrder;
      ghost var cells := flash.cells;
      pool := DropBlock(b);
      res := flash.EraseBlock(b);
      EraseKeeps(flash.g, old(pool), cells, store, spoiled, b, flash.cells);
      if !Wrapped() { EraseOrdered(old(pool), lru, b, tick); }
      store := if b < |store| then store[b := flash.cells[b]] else store;
      spoiled := set p | p in spoiled && p.0 != b;
      lru := WithoutBlock(lru, b);
    }

    method DropBlock(b: nat) returns (r: Pool)
      ensures r == Dropped(pool, b)
    {
      r := pool;
      var i := 0;
      while i < POOL_SIZE
        invariant 0 <= i <= POOL_SIZE
        invariant forall j | 0 <= j < i :: r[j] == Dropped(pool, b)[j]
        invariant forall j | i <= j < POOL_SIZE :: r[j] == pool[j]
      {
        if (r[i].valid || r[i].reserved) && r[i].block == b {
          r := r[i := r[i].(valid := false, dirty := false, reserved := false)];
        }
        i := i + 1;
      }
    }

    // ----- sync

    /** Page (b, o) is on the flash as the client wrote it. */
    ghost predicate OnFlash(b: nat, o: nat)
      requires flash.Valid() && Shaped(flash.g, store)
      reads this, flash
    {
      flash.g.HasPage(b, o) && Aligned(flash.g, o) ==>
          PageOf(flash.g, flash.cells, b, o) == PageOf(flash.g, store, b, o)
    }

    /** Each dirty page is written back, or a flash write has failed; which pages are given up, and what the flash
        holds, is exact. */
    method Sync() returns (res: int)
      requires Valid()
      modifies `pool, `spoiled, flash
      ensures Valid() && lru == old(lru) && store == old(store) && flash.failures >= old(flash.failures)
      ensures SlotsOk(flash.g, old(pool)) && Shaped(flash.g, old(flash.cells))
      ensures Synced(flash.g, old(pool), old(flash.cells), old(spoiled), pool, flash.cells, spoiled)
      ensures res != 0 ==> flash.failures > old(flash.failures)
      ensures res == 0 <==> forall i | 0 <= i < POOL_SIZE :: !pool[i].dirty
      ensures res == 0 ==> spoiled == old(spoiled) + Untakeable(flash.g, old(pool), old(flash.cells))
      ensures res == 0 ==> forall b: nat, o: nat | (b, o) !in spoiled :: OnFlash(b, o)
    {
      hide Refines, InOrder, Synced, Untakeable;
      Shapes();
      SyncedNothing(flash.g, pool, flash.cells, spoiled);
      res := 0;
      ghost var stuck := 0;
      var i := 0;
      while i < POOL_SIZE
        invariant Valid() && 0 <= i <= POOL_SIZE
        invariant flash.failures >= old(flash.failures) + if res == 0 then 0 else 1
        invariant Synced(flash.g, old(pool), old(flash.cells), old(spoiled), pool, flash.cells, spoiled)
        invariant res == 0 ==> forall j | 0 <= j < i :: !pool[j].dirty
        invariant res != 0 ==> 0 <= stuck < i && pool[stuck].dirty
      {
        SlotShape(i);
        if pool[i].valid && pool[i].dirty {
          if flash.g.HasPage(pool[i].block, pool[i].offset) {
            SyncedOne(flash.g, old(pool), old(flash.cells), old(spoiled), pool, flash.cells, spoiled, i);
          }
          var r := FlushPage(i);
          if r != 0 && res == 0 {
            res, stuck := r, i;
          }
        }
        i := i + 1;
      }
      if res == 0 {
        SyncedAll(flash.g, old(pool), old(flash.cells), old(spoiled), pool, flash.cells, spoiled);
        forall b: nat, o: nat | (b, o) !in spoiled ensures OnFlash(b, o) { SyncedPage(b, o); }
      }
    }

    lemma SyncedPage(b: nat, o: nat)
      requires Valid() && (b, o) !in spoiled && forall i | 0 <= i < POOL_SIZE :: !pool[i].dirty
      ensures OnFlash(b, o)
    {
      assert PageRefined(flash.g, pool, flash.cells, store, b, o);
      var i := Find(pool, b, o);
      if i < POOL_SIZE { assert CleanOk(flash.g, pool[i], flash.cells, spoiled); }
    }
  }

  lemma WrapOf(q: nat, r: nat)
    requires r < TICKS
    ensures (TICKS * q + r) % TICKS == r
  {
  }
}
