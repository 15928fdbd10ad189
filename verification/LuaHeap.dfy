/** The TLSF allocator on its byte pool (runtime/lua_heap.hpp:140-375). Pointers are absolute
    addresses and 0 is the null pointer; a block is named by its offset in the pool. */
module LuaHeap {
  import opened ByteMemory
  import opened TlsfMapping
  import opened Bitmap
  import opened FreeLists
  import opened HeapModel
  import opened HeapOps
  import opened HeapAccounting
  import opened HeapTags
  import opened HeapPayload
  import opened HeapEffects

  function Max(a: nat, b: nat): nat { if a >= b then a else b }

  function SaturatingSub(a: nat, b: nat): nat { if a >= b then a - b else 0 }

  /** The counters of the heap, and what growing in place has added to them. */
  datatype Counters = Counters(used: nat, totalFree: nat, peak: nat, allocCount: nat, grown: nat)

  class LuaHeap {
    const L: Layout
    const storage: array<byte>
    var flBitmap: bv32
    var slBitmap: SecondLevel
    var heads: Heads
    var totalFree: nat
    var used: nat
    var peak: nat
    var allocCount: nat
    /** The tiling and the lists that the bytes stand for. */
    ghost var heap: Heap
    /** The payload bytes gained by growing in place since the last reset. */
    ghost var grown: nat

    /** The pool bytes, list heads and bitmaps represent the lists of h. */
    ghost predicate ListsOk(h: Heap)
      reads this, storage
    {
      && L.Valid() && storage.Length == L.pool && Starts(L, h.blocks.Keys)
      && Linked(L, h.blocks.Keys, storage[..], heads, h.lists)
      && Mapped(flBitmap, slBitmap, h.lists)
    }

    /** The pool bytes carry the tags of h, except for the blocks in X. */
    ghost predicate TagsOk(h: Heap, X: set<nat>)
      reads this, storage
    {
      && L.Valid() && storage.Length == L.pool && Starts(L, h.blocks.Keys)
      && TagsBut(L, storage[..], h.blocks, X)
    }

    ghost predicate Valid()
      reads this, storage
    {
      && L.Valid() && storage.Length == L.pool
      && WellFormed(L, heap) && ListsOk(heap) && TagsOk(heap, {})
      && used == Used(L, heap.blocks)
      && used + totalFree == L.pool - HEADER + grown
      && used <= peak
    }

    ghost function Counts(): Counters
      reads this
    {
      Counters(used, totalFree, peak, allocCount, grown)
    }

    /** Store an n-byte little-endian field. */
    method StoreField(a: nat, n: nat, v: nat)
      requires a + n <= storage.Length
      modifies storage
      ensures storage[..] == Store(old(storage[..]), a, n, v)
    {
      var i, w := 0, v;
      while i < n
        invariant 0 <= i <= n
        invariant Store(storage[..], a + i, n - i, w) == Store(old(storage[..]), a, n, v)
      {
        ghost var m := storage[..];
        storage[a + i] := w % 256;
        assert storage[..] == m[a + i := w % 256];
        i, w := i + 1, w / 256;
      }
    }

    // ----- remove_free_block

    method RemoveFreeBlock(b: nat, ghost h: Heap)
      requires L.Valid() && WellFormed(L, h) && ListsOk(h) && b in h.blocks && h.blocks[b].free
      requires b + L.MinBlock() <= L.pool && SizeAt(storage[..], b) == h.blocks[b].size
      modifies storage, `flBitmap, `slBitmap, `heads
      ensures b in h.lists[InsertBin(h.blocks[b].size)] && ListsOk(Take(h, b))
      ensures SameHeaders(L, h.blocks.Keys, old(storage[..]), storage[..])
      ensures PayloadSame(h.blocks, old(storage[..]), storage[..])
    {
      hide Load, Store, Mapped, Linked, WellFormed, InsertBin, SameHeaders, PayloadSame, RemoveMem, RemoveHeads;
      var k := InsertBin(SizeAt(storage[..], b));
      ghost var i := UnlinkSetup(h, b);
      RemoveEffect(L, h, b, storage[..], heads);
      Unlink(b, k);
      if heads[k] == 0 {
        ClearBin(k, h.lists);
      } else {
        SameMapped(flBitmap, slBitmap, h.lists, k, Take(h, b).lists[k]);
      }
    }

    method Unlink(b: nat, k: nat)
      requires storage.Length == L.pool && k < BIN_COUNT && RemoveMem.requires(L, storage[..], b)
      modifies storage, `heads
      ensures storage[..] == RemoveMem(L, old(storage[..]), b)
      ensures heads == RemoveHeads(L, old(storage[..]), old(heads), k, b)
    {
      hide Load, Store;
      var p, n := PrevFree(L, storage[..], b), NextFree(L, storage[..], b);
      if p != 0 {
        StoreField(p - L.base + HEADER, L.ptr, n);
      } else {
        heads := heads[k := n];
      }
      if n != 0 {
        StoreField(n - L.base + HEADER + L.ptr, L.ptr, p);
      }
      StoreField(b + HEADER, L.ptr, 0);
      StoreField(b + HEADER + L.ptr, L.ptr, 0);
    }

    method ClearBin(k: nat, ghost lists: Lists)
      requires k < BIN_COUNT && Mapped(flBitmap, slBitmap, lists)
      modifies `flBitmap, `slBitmap
      ensures Mapped(flBitmap, slBitmap, lists[k := []])
    {
      hide Mapped, ClearBit;
      var fl, sl := k / SL_INDEX_COUNT, k % SL_INDEX_COUNT;
      BinIndex(k);
      ClearMapped(flBitmap, slBitmap, lists, k);
      slBitmap := slBitmap[fl := ClearBit(slBitmap[fl], sl)];
      if slBitmap[fl] == 0 {
        flBitmap := ClearBit(flBitmap, fl);
      }
    }

    method SetBin(k: nat, ghost lists: Lists, ghost l: seq<nat>)
      requires k < BIN_COUNT && Mapped(flBitmap, slBitmap, lists) && l != []
      modifies `flBitmap, `slBitmap
      ensures Mapped(flBitmap, slBitmap, lists[k := l])
    {
      hide Mapped, SetBit;
      var fl, sl := k / SL_INDEX_COUNT, k % SL_INDEX_COUNT;
      BinIndex(k);
      SetMapped(flBitmap, slBitmap, lists, k, l);
      flBitmap := SetBit(flBitmap, fl);
      slBitmap := slBitmap[fl := SetBit(slBitmap[fl], sl)];
    }

    // ----- insert_free_block

    method InsertFreeBlock(b: nat, ghost h: Heap, ghost X: set<nat>)
      requires L.Valid() && Tiles(L, h.blocks) && Filed(h.blocks, h.lists) && Live(h.blocks, b) && b in X
      requires ListsOk(h) && TagsOk(h, X)
      modifies storage, `flBitmap, `slBitmap, `heads
      ensures ListsOk(Release(h, b)) && TagsOk(Release(h, b), X - {b})
      ensures PayloadSame(Release(h, b).blocks, old(storage[..]), storage[..])
      ensures FlagsKept(L, h.blocks.Keys - {b}, old(storage[..]), storage[..])
    {
      hide FlagsKept, Load, Store, InsertBin, InsertHeaderMem, InsertLinkMem, Linked, TagsBut, Tiles, Filed;
      hide PayloadSame, Mapped;
      InsertEffect(L, h, X, b, storage[..], heads);
      var k := InsertBin(SizeAt(storage[..], b));
      MarkFree(b);
      PushFront(b, k);
      SetBin(k, h.lists, [b] + h.lists[k]);
    }

    /** Set the free flag of b and tell its physical successor. */
    method MarkFree(b: nat)
      requires storage.Length == L.pool && InsertHeaderMem.requires(L, storage[..], b)
      modifies storage
      ensures storage[..] == InsertHeaderMem(L, old(storage[..]), b)
    {
      hide Load, Store;
      var sz := SizeAt(storage[..], b);
      StoreField(b, 4, WithFree(SizeFlagsAt(storage[..], b)));
      var next := b + sz;
      if next < L.pool {
        StoreField(next, 4, WithPrevFree(SizeFlagsAt(storage[..], next)));
        StoreField(next + 4, 4, sz);
      }
    }

    method PushFront(b: nat, k: nat)
      requires storage.Length == L.pool && k < BIN_COUNT && b + L.MinBlock() <= L.pool
      requires heads[k] == 0 || (L.base <= heads[k] && heads[k] - L.base + L.MinBlock() <= L.pool)
      modifies storage, `heads
      ensures storage[..] == InsertLinkMem(L, old(storage[..]), b, old(heads)[k])
      ensures heads == old(heads)[k := L.Addr(b)]
    {
      hide Load, Store;
      StoreField(b + HEADER + L.ptr, L.ptr, 0);
      StoreField(b + HEADER, L.ptr, heads[k]);
      if heads[k] != 0 {
        StoreField(heads[k] - L.base + HEADER + L.ptr, L.ptr, L.Addr(b));
      }
      heads := heads[k := L.Addr(b)];
    }

    // ----- the split

    /** The header words of the two halves. */
    method WriteSplit(b: nat, r: nat, rest: nat)
      requires b + HEADER <= storage.Length && b + r + HEADER <= storage.Length
      modifies storage
      ensures storage[..] == SplitMem(L, old(storage[..]), b, r, rest)
    {
      hide Load, Store;
      StoreField(b, 4, WithSize(SizeFlagsAt(storage[..], b), r));
      StoreField(b + r, 4, rest);
      StoreField(b + r + 4, 4, r);
    }

    /** Cut the allocated block b down to r bytes and insert the rest as a free block. */
    method SplitBlock(b: nat, r: nat, ghost h: Heap)
      requires L.Valid() && WellFormed(L, h) && ListsOk(h) && TagsOk(h, {b}) && Splits(L, h.blocks, b, r)
      requires b + HEADER <= L.pool
      modifies storage, `flBitmap, `slBitmap, `heads
      ensures ListsOk(SplitTail(h, b, r)) && TagsOk(SplitTail(h, b, r), {b})
      ensures PayloadSame(SplitTail(h, b, r).blocks, old(storage[..]), storage[..])
      ensures IsFree(SizeFlagsAt(storage[..], b)) == IsFree(old(SizeFlagsAt(storage[..], b)))
    {
      hide Load, Store, IsFree, InsertBin, Linked, Mapped, TagsBut, Tiles, Filed, Coalesced, PayloadSame, SplitMem;
      ghost var m, h1 := storage[..], Cut(h, b, r);
      CutKeeps(L, h, b, r);
      SplitEffect(L, h, b, r, m, heads);
      SizeTag(h, b);
      var rest := SizeAt(storage[..], b) - r;
      WriteSplit(b, r, rest);
      ghost var m1 := storage[..];
      InsertFreeBlock(b + r, h1, {b, b + r});
      assert {b, b + r} - {b + r} == {b};
      SplitPayloadTrans(h, b, r, m, m1, storage[..]);
      assert b in h1.blocks.Keys - {b + r};
    }

    lemma SizeTag(h: Heap, b: nat)
      requires TagsOk(h, {b}) && b in h.blocks
      ensures SizeAt(storage[..], b) == h.blocks[b].size
    {
    }

    static lemma SplitPayloadTrans(h: Heap, b: nat, r: nat, m: seq<byte>, m1: seq<byte>, m2: seq<byte>)
      requires b in h.blocks && 0 < r <= h.blocks[b].size
      requires PayloadSame(Cut(h, b, r).blocks, m, m1) && PayloadSame(SplitTail(h, b, r).blocks, m1, m2)
      ensures PayloadSame(SplitTail(h, b, r).blocks, m, m2)
    {
      hide InsertBin, RangeSame;
      var t := SplitTail(h, b, r).blocks;
      assert PayloadSame(t, m, m1) by {
        forall c: nat | Live(t, c) ensures RangeSame(m, m1, c + HEADER, End(t, c)) {
          assert Live(Cut(h, b, r).blocks, c);
        }
      }
      SelfWithin(t);
      PayloadTrans(t, t, m, m1, m2);
    }

    // ----- reset

    constructor (layout: Layout)
      requires layout.Valid()
      ensures Valid() && L == layout && fresh(storage)
      ensures heap == Fresh(layout) && used == 0
    {
      L := layout;
      storage := new byte[layout.pool](_ => 0);
      new;
      Reset();
    }

    method WriteInitialBlock()
      requires L.Valid() && storage.Length == L.pool
      modifies storage
      ensures TagsOk(Unlisted(L), {0})
    {
      hide Load, Store, TagsBut, Starts;
      StoreField(0, 4, L.pool + FLAG_FREE);
      ghost var m1 := storage[..];
      StoreField(4, 4, 0);
      ghost var m2 := storage[..];
      StoreField(HEADER, L.ptr, 0);
      ghost var m3 := storage[..];
      StoreField(HEADER + L.ptr, L.ptr, 0);
      InitialEffect(L, old(storage[..]), m1, m2, m3, storage[..]);
    }

    /** One free block over the whole pool, whatever was there before. */
    method Reset()
      requires L.Valid() && storage.Length == L.pool
      modifies this, storage
      ensures Valid() && heap == Fresh(L) && grown == 0
      ensures used == 0 && totalFree == L.pool - HEADER && peak == 0 && allocCount == 0
    {
      hide Load, InsertBin, Linked, Mapped, TagsBut, Tiles, Filed, Coalesced, PayloadSame, Starts, Used, FlagsKept;
      flBitmap := 0;
      slBitmap := seq(FL_INDEX_COUNT, _ => 0);
      heads := seq(BIN_COUNT, _ => 0);

      WriteInitialBlock();
      InitialLists(L, storage[..], heads, flBitmap, slBitmap);

      UnlistedKeeps(L);
      totalFree, used, peak, allocCount := L.pool - HEADER, 0, 0, 0;
      InsertFreeBlock(0, Unlisted(L), {0});
      heap, grown := Fresh(L), 0;
      assert {0} - {0} == {};
      FreshKeeps(L);
    }

    // ----- search_suitable_block

    /** The first non-empty bin at or above k, by the two bitmaps. */
    method SearchSuitableBlock(k: nat, ghost lists: Lists) returns (r: nat)
      requires k < BIN_COUNT && Mapped(flBitmap, slBitmap, lists)
      ensures r == FirstBin(lists, k)
    {
      hide Bit, FromBit;
      BinIndex(k);
      var fl, sl := k / SL_INDEX_COUNT, k % SL_INDEX_COUNT;
      var slMap := FromBit(slBitmap[fl], sl);
      FromBitBits(slBitmap[fl], sl);
      ZeroMap(slMap);
      if slMap != 0 {
        var s := FindLowestBit(slMap);
        RowEmpty(flBitmap, slBitmap, lists, k, s);
        FirstBinIs(lists, k, SL_INDEX_COUNT * fl + s);
        return SL_INDEX_COUNT * fl + s;
      }
      RowEmpty(flBitmap, slBitmap, lists, k, SL_INDEX_COUNT);
      if fl + 1 >= FL_INDEX_COUNT {
        FirstBinIs(lists, k, BIN_COUNT);
        return BIN_COUNT;
      }
      var flMap := FromBit(flBitmap, fl + 1);
      FromBitBits(flBitmap, fl + 1);
      ZeroMap(flMap);
      if flMap == 0 {
        RowsEmpty(flBitmap, slBitmap, lists, k, FL_INDEX_COUNT);
        FirstBinIs(lists, k, BIN_COUNT);
        return BIN_COUNT;
      }
      var f := FindLowestBit(flMap);
      RowsEmpty(flBitmap, slBitmap, lists, k, f);
      var s := FindLowestBit(slBitmap[f]);
      RowEmptyAt(flBitmap, slBitmap, lists, f, s);
      FirstBinIs(lists, k, SL_INDEX_COUNT * f + s);
      r := SL_INDEX_COUNT * f + s;
    }

    // ----- allocate

    /** Mark b allocated and tell its physical successor. */
    method FinishAllocated(b: nat)
      requires storage.Length == L.pool && b + HEADER <= L.pool
      requires NotifyMem.requires(L, AllocatedMem(storage[..], b), b)
      modifies storage
      ensures storage[..] == NotifyMem(L, AllocatedMem(old(storage[..]), b), b)
    {
      hide Load, Store;
      StoreField(b, 4, WithAllocated(SizeFlagsAt(storage[..], b)));
      NotifyNext(b);
    }

    method NotifyNext(b: nat)
      requires storage.Length == L.pool && NotifyMem.requires(L, storage[..], b)
      modifies storage
      ensures storage[..] == NotifyMem(L, old(storage[..]), b)
    {
      hide Load, Store;
      var sz := SizeAt(storage[..], b);
      var next := b + sz;
      if next < L.pool {
        StoreField(next, 4, WithPrevAllocated(SizeFlagsAt(storage[..], next)));
        StoreField(next + 4, 4, sz);
      }
    }

    /** Take the listed block b for a request of r bytes: everything of allocate but the counters. */
    method CarveBlock(b: nat, r: nat)
      requires L.Valid() && WellFormed(L, heap) && ListsOk(heap) && TagsOk(heap, {})
      requires b in heap.blocks && heap.blocks[b].free && r % 8 == 0 && L.MinBlock() <= r
      modifies storage, `flBitmap, `slBitmap, `heads, `heap
      ensures WellFormed(L, heap) && ListsOk(heap) && TagsOk(heap, {})
      ensures b in old(heap).lists[InsertBin(old(heap).blocks[b].size)] && heap == Carve(L, old(heap), b, r)
      ensures b in heap.blocks && b + HEADER <= L.pool && SizeAt(storage[..], b) == heap.blocks[b].size
      ensures PayloadSame(old(heap.blocks), old(storage[..]), storage[..])
    {
      hide Load, Store, IsFree, IsPrevFree, InsertBin, Linked, Mapped, TagsBut, WellFormed, PayloadSame, SameHeaders;
      hide AllocatedMem, NotifyMem, LiveWithin;
      ghost var h, m0 := heap, storage[..];
      ghost var h1 := TakeSetup(h, b);
      RemoveFreeBlock(b, h);
      ghost var m1 := storage[..];
      TakeTags(L, h, {}, b, m0, m1);
      assert {} + {b} == {b};
      SizeTag(h1, b);
      CarveKeeps(L, h, b, r);
      var current := SizeAt(storage[..], b);
      if current >= r + L.MinBlock() {
        SplitBlock(b, r, h1);
      }
      heap := Carve(L, h, b, r);
      ghost var m2 := storage[..];
      FinishEffect(L, heap, b, m2, heads);
      FinishAllocated(b);
      CarvePayload(L, h, b, r, m0, m1, m2, storage[..]);
    }

    lemma TakeSetup(h: Heap, b: nat) returns (h1: Heap)
      requires L.Valid() && WellFormed(L, h) && TagsOk(h, {}) && b in h.blocks && h.blocks[b].free
      ensures b in h.lists[InsertBin(h.blocks[b].size)] && h1 == Take(h, b)
      ensures WellFormed(L, h1) && Live(h1.blocks, b) && SealedAfter(h1.blocks, b)
      ensures b + L.MinBlock() <= L.pool && SizeAt(storage[..], b) == h.blocks[b].size
    {
      hide Load, InsertBin, WellFormed;
      TakeKeeps(L, h, b);
      h1 := Take(h, b);
      assert OwnTag(storage[..], h.blocks, b);
    }

    static lemma CarvePayload(L: Layout, h: Heap, b: nat, r: nat, m0: seq<byte>, m1: seq<byte>, m2: seq<byte>,
                              m3: seq<byte>)
      requires L.Valid() && WellFormed(L, h) && b in h.blocks && h.blocks[b].free && r % 8 == 0 && L.MinBlock() <= r
      requires b in h.lists[InsertBin(h.blocks[b].size)]
      requires PayloadSame(h.blocks, m0, m1) && (m1 == m2 || PayloadSame(Carve(L, h, b, r).blocks, m1, m2))
      requires PayloadSame(Carve(L, h, b, r).blocks, m2, m3)
      ensures PayloadSame(h.blocks, m0, m3)
    {
      hide InsertBin, WellFormed, PayloadSame, Carve;
      CarveKeeps(L, h, b, r);
      var t' := Carve(L, h, b, r).blocks;
      LiveWithinOf(h.blocks, t');
      if m1 != m2 { PayloadTrans(h.blocks, t', m0, m1, m2); }
      PayloadTrans(h.blocks, t', m0, m2, m3);
    }

    /** Null exactly when the request is out of range or no bin at or above the search bin holds a block. */
    method Allocate(size: nat) returns (p: nat)
      requires Valid()
      modifies this, storage
      ensures Valid() && (p == 0 <==> !CanAllocate(L, old(heap), size))
      ensures Granted(L, old(heap), size, p, heap, old(storage[..]), storage[..], old(Counts()), Counts())
    {
      hide Load, Store, IsFree, IsPrevFree, InsertBin, SearchBin, Linked, Mapped, TagsBut, WellFormed, PayloadSame;
      hide FirstBin, Used, Carve, Align8, Granted;
      ghost var h, m, c := heap, storage[..], Counts();
      if size == 0 || size > L.pool - HEADER {
        Refused(L, h, size, m, c);
        return 0;
      }
      var r := Required(L, size);
      var k := SearchSuitableBlock(SearchBin(r), heap.lists);
      if k == BIN_COUNT {
        Refused(L, h, size, m, c);
        return 0;
      }
      HeadOf(heap, k);
      ChosenIsFree(L, h, size);
      var b := heads[k] - L.base;
      GrantBlock(b, r);
      p := L.Addr(b) + HEADER;
      IsGranted(L, h, size, b, heap, m, storage[..], c, Counts());
    }

    /** Take the free block b for r bytes, and count it. */
    method GrantBlock(b: nat, r: nat)
      requires Valid() && b in heap.blocks && heap.blocks[b].free && r % 8 == 0 && L.MinBlock() <= r
      modifies this, storage
      ensures Valid() && Carve.requires(L, old(heap), b, r) && heap == Carve(L, old(heap), b, r)
      ensures PayloadSame(old(heap).blocks, old(storage[..]), storage[..])
      ensures grown == old(grown) && allocCount == old(allocCount) + 1 && peak == Max(old(peak), used)
    {
      hide Load, Store, IsFree, IsPrevFree, InsertBin, Linked, Mapped, TagsBut, WellFormed, PayloadSame, Used, Carve;
      CarveUsed(L, heap, b, r);
      CarveBlock(b, r);
      CarvedBound(L, heap, b);
      var payload := SizeAt(storage[..], b) - HEADER;
      used := used + payload;
      totalFree := SaturatingSub(totalFree, payload);
      if used > peak {
        peak := used;
      }
      allocCount := allocCount + 1;
    }

    lemma HeadOf(h: Heap, k: nat)
      requires ListsOk(h) && k < BIN_COUNT && h.lists[k] != []
      ensures heads[k] == L.Addr(h.lists[k][0])
    {
      hide ListOk;
    }

    /** Payload never exceeds the pool, so the saturating subtraction of allocate never saturates. */
    static lemma CarvedBound(L: Layout, h: Heap, b: nat)
      requires L.Valid() && WellFormed(L, h) && b in h.blocks
      ensures Used(L, h.blocks) <= L.pool - HEADER && h.blocks[b].size >= HEADER
    {
      hide InsertBin;
      BlockPositive(L, h, b);
      UsedBound(L, h.blocks, 0);
    }

    // ----- deallocate

    /** Add the size of block n to that of block b in front of it, neither of them in a list. */
    method FuseBlocks(b: nat, n: nat, ghost h: Heap, ghost X: set<nat>)
      requires L.Valid() && WellFormed(L, h) && ListsOk(h) && TagsOk(h, X) && X <= {b, n}
      requires Live(h.blocks, b) && n == End(h.blocks, b) && Live(h.blocks, n) && b + HEADER <= L.pool
      modifies storage
      ensures ListsOk(Fuse(h, b)) && TagsOk(Fuse(h, b), {b})
      ensures PayloadSame(Fuse(h, b).blocks, old(storage[..]), storage[..])
      ensures IsFree(SizeFlagsAt(storage[..], b)) == IsFree(old(SizeFlagsAt(storage[..], b)))
    {
      hide Load, Store, IsFree, IsPrevFree, InsertBin, Linked, Mapped, TagsBut, WellFormed, PayloadSame;
      ghost var m := storage[..];
      MergeSizes(h, X, b, n);
      FuseEffect(L, h, X, b, m, heads);
      StoreField(b, 4, WithSize(SizeFlagsAt(storage[..], b), SizeAt(storage[..], b) + SizeAt(storage[..], n)));
      assert storage[..] == SetSizeMem(m, b, h.blocks[b].size + h.blocks[n].size);
    }

    /** Absorb the free block n behind the live block b: one merge of deallocate or reallocate. */
    method AbsorbNext(b: nat, n: nat, ghost h: Heap)
      requires L.Valid() && WellFormed(L, h) && ListsOk(h) && TagsOk(h, {})
      requires Live(h.blocks, b) && n == End(h.blocks, b) && n in h.blocks && h.blocks[n].free
      requires b + HEADER <= L.pool
      modifies storage, `flBitmap, `slBitmap, `heads
      ensures MergeNext.requires(h, b) && ListsOk(MergeNext(h, b)) && TagsOk(MergeNext(h, b), {b})
      ensures PayloadSame(h.blocks, old(storage[..]), storage[..])
      ensures IsFree(SizeFlagsAt(storage[..], b)) == IsFree(old(SizeFlagsAt(storage[..], b)))
    {
      hide Load, Store, IsFree, IsPrevFree, InsertBin, Linked, Mapped, TagsBut, WellFormed, PayloadSame;
      ghost var m0 := storage[..];
      ghost var h1 := TakeSetup(h, n);
      RemoveFreeBlock(n, h);
      ghost var m1 := storage[..];
      TakeTags(L, h, {}, n, m0, m1);
      assert {} + {n} == {n};
      SameFlags(h.blocks.Keys, b, m0, m1);
      FuseBlocks(b, n, h1, {n});
      AbsorbPayload(L, h, b, m0, m1, storage[..]);
    }

    lemma SameFlags(T: set<nat>, b: nat, m: seq<byte>, m': seq<byte>)
      requires Starts(L, T) && |m| == L.pool && |m'| == L.pool && SameHeaders(L, T, m, m') && b in T
      requires b + HEADER <= L.pool
      ensures SizeFlagsAt(m', b) == SizeFlagsAt(m, b)
    {
    }

    lemma MergeSizes(h: Heap, X: set<nat>, b: nat, n: nat)
      requires L.Valid() && WellFormed(L, h) && TagsOk(h, X) && b in h.blocks && n in h.blocks
      ensures b + HEADER <= L.pool && n + HEADER <= L.pool
      ensures SizeAt(storage[..], b) == h.blocks[b].size && SizeAt(storage[..], n) == h.blocks[n].size
    {
      InsertHeaderDefined(L, storage[..], h.blocks, X, b);
      InsertHeaderDefined(L, storage[..], h.blocks, X, n);
    }

    static lemma AbsorbPayload(L: Layout, h: Heap, b: nat, m0: seq<byte>, m1: seq<byte>, m2: seq<byte>)
      requires L.Valid() && WellFormed(L, h) && Live(h.blocks, b) && MergeNext.requires(h, b)
      requires PayloadSame(h.blocks, m0, m1) && PayloadSame(MergeNext(h, b).blocks, m1, m2)
      ensures PayloadSame(h.blocks, m0, m2)
    {
      hide InsertBin, WellFormed, PayloadSame, MergeNext;
      MergeNextKeeps(L, h, b);
      LiveWithinOf(h.blocks, MergeNext(h, b).blocks);
      PayloadTrans(h.blocks, MergeNext(h, b).blocks, m0, m1, m2);
    }

    /** Let the free block p in front of b absorb b. */
    method AbsorbIntoPrev(b: nat, p: nat, ghost h: Heap)
      requires L.Valid() && WellFormed(L, h) && ListsOk(h) && TagsOk(h, {b})
      requires Live(h.blocks, b) && SealedAfter(h.blocks, b) && p == MergeStart(h.blocks, b) && p != b
      modifies storage, `flBitmap, `slBitmap, `heads
      ensures MergePrev.requires(h, b) && ListsOk(MergePrev(h, b)) && TagsOk(MergePrev(h, b), {p})
      ensures PayloadSame(h.blocks - {b}, old(storage[..]), storage[..])
    {
      hide Load, Store, IsFree, IsPrevFree, InsertBin, Linked, Mapped, TagsBut, WellFormed, PayloadSame;
      ghost var m0 := storage[..];
      MergePrevKeeps(L, h, b);
      TakeKeeps(L, h, p);
      ghost var h1 := Take(h, p);
      MergeSizes(h, {b}, p, b);
      BlockPositive(L, h, p);
      MinStart(h, p);
      RemoveFreeBlock(p, h);
      ghost var m1 := storage[..];
      TakeTags(L, h, {b}, p, m0, m1);
      FuseBlocks(p, b, h1, {b} + {p});
      PrevPayload(L, h, b, m0, m1, storage[..]);
    }

    lemma MinStart(h: Heap, b: nat)
      requires L.Valid() && WellFormed(L, h) && b in h.blocks
      ensures b + L.MinBlock() <= L.pool
    {
      assert BlockFits(L, h.blocks, b);
    }

    static lemma PrevPayload(L: Layout, h: Heap, b: nat, m0: seq<byte>, m1: seq<byte>, m2: seq<byte>)
      requires L.Valid() && WellFormed(L, h) && Live(h.blocks, b) && SealedAfter(h.blocks, b)
      requires MergePrev.requires(h, b)
      requires PayloadSame(h.blocks, m0, m1) && PayloadSame(MergePrev(h, b).blocks, m1, m2)
      ensures PayloadSame(h.blocks - {b}, m0, m2)
    {
      hide InsertBin, WellFormed, MergePrev;
      MergePrevKeeps(L, h, b);
      var t := h.blocks - {b};
      assert PayloadSame(t, m0, m1) by {
        forall c: nat | Live(t, c) ensures RangeSame(m0, m1, c + HEADER, End(t, c)) { assert Live(h.blocks, c); }
      }
      PrevWithin(L, h, b);
      PayloadTrans(t, MergePrev(h, b).blocks, m0, m1, m2);
    }

    static lemma PrevWithin(L: Layout, h: Heap, b: nat)
      requires L.Valid() && WellFormed(L, h) && Live(h.blocks, b) && SealedAfter(h.blocks, b)
      requires MergePrev.requires(h, b)
      ensures LiveWithin(h.blocks - {b}, MergePrev(h, b).blocks)
    {
      hide InsertBin, WellFormed, MergePrev;
      MergePrevKeeps(L, h, b);
      var p := MergeStart(h.blocks, b);
      assert p != b ==> p !in LiveOf(h.blocks);
      assert LiveOf(h.blocks - {b}) == LiveOf(h.blocks) - {b};
      LiveWithinOf(h.blocks - {b}, MergePrev(h, b).blocks);
    }

    /** A pointer deallocate is specified for: null, outside the pool, the payload of some block, or any other
        in front of which it reads a free header. */
    ghost predicate Freeable(ptr: nat)
      reads this, storage
    {
      || ptr == 0 || ptr < L.base + HEADER || ptr >= L.base + HEADER + L.pool || ptr - HEADER - L.base in heap.blocks
      || (ptr - L.base <= storage.Length && IsFree(SizeFlagsAt(storage[..], ptr - HEADER - L.base)))
    }

    ghost predicate LivePointer(ptr: nat)
      reads this
    {
      ptr >= L.base + HEADER && Live(heap.blocks, ptr - HEADER - L.base)
    }

    /** Frees the block of a live pointer and does nothing for any other freeable pointer. */
    method Deallocate(ptr: nat)
      requires Valid() && Freeable(ptr)
      modifies this, storage
      ensures Valid()
      ensures Released(L, old(heap), ptr, heap, old(storage[..]), storage[..], old(Counts()), Counts())
    {
      hide Load, Store, IsFree, IsPrevFree, InsertBin, Linked, Mapped, TagsBut, WellFormed, PayloadSame, Used;
      hide MergeNext, MergePrev, HeapOps.Deallocate, Released;
      ghost var h, m, c := heap, storage[..], Counts();
      if ptr == 0 || ptr < L.base + HEADER || ptr >= L.base + HEADER + L.pool {
        NoBlockOutside(ptr);
        NotReleased(L, h, ptr, m, c);
        return;
      }
      var b := ptr - HEADER - L.base;
      if b in heap.blocks { OwnTagOf(b); }
      if IsFree(SizeFlagsAt(storage[..], b)) {
        NotReleased(L, h, ptr, m, c);
        return;
      }
      DeallocateUsed(L, h, b);
      CarvedBound(L, h, b);
      var payload := SizeAt(storage[..], b) - HEADER;
      used := SaturatingSub(used, payload);
      totalFree := totalFree + payload;
      ReleaseBlock(b);
      IsReleased(L, h, ptr, heap, m, storage[..], c, Counts());
    }

    lemma NoBlockOutside(ptr: nat)
      requires Valid() && (ptr < L.base + HEADER || ptr >= L.base + HEADER + L.pool)
      ensures !LivePointer(ptr)
    {
      forall b | b in heap.blocks ensures b < L.pool { BlockPositive(L, heap, b); }
    }

    lemma OwnTagOf(b: nat)
      requires Valid() && b in heap.blocks
      ensures b + L.MinBlock() <= L.pool && SizeAt(storage[..], b) == heap.blocks[b].size
      ensures IsFree(SizeFlagsAt(storage[..], b)) == heap.blocks[b].free
    {
      hide WellFormed, Load, IsFree;
      MinStart(heap, b);
      assert OwnTag(storage[..], heap.blocks, b);
    }

    /** Where b stands in its list, and what the links around it say. */
    lemma UnlinkSetup(h: Heap, b: nat) returns (i: nat)
      requires L.Valid() && WellFormed(L, h) && ListsOk(h) && b in h.blocks && h.blocks[b].free
      ensures var k := InsertBin(h.blocks[b].size);
              && b in h.lists[k] && i == IndexOf(h.lists[k], b)
              && RemoveMem.requires(L, storage[..], b)
    {
      hide Load, InsertBin, WellFormed;
      FreeIsListed(L, h, b);
      var k := InsertBin(h.blocks[b].size);
      i := IndexOf(h.lists[k], b);
      NodeNeighbours(L, h.blocks.Keys, storage[..], h.lists[k], k, i);
    }

    lemma NextSetup(h: Heap, b: nat)
      requires L.Valid() && WellFormed(L, h) && TagsOk(h, {}) && b in h.blocks
      ensures b + HEADER <= L.pool && SizeAt(storage[..], b) == h.blocks[b].size
      ensures var n := End(h.blocks, b);
              && (n < L.pool ==> n + L.MinBlock() <= L.pool)
              && (n < L.pool && IsFree(SizeFlagsAt(storage[..], n)) <==> n in h.blocks && h.blocks[n].free)
              && (n in h.blocks ==> n + HEADER <= L.pool && SizeAt(storage[..], n) == h.blocks[n].size)
    {
      hide Load, IsFree, TagsBut, Tiles, Filed, Coalesced;
      MinStart(h, b);
      NextIsFree(L, h.blocks, {}, b, storage[..]);
    }

    lemma NoMerge(h: Heap, b: nat)
      requires L.Valid() && TagsOk(h, {}) && b in h.blocks && MergeNext.requires(h, b)
      requires !(End(h.blocks, b) in h.blocks && h.blocks[End(h.blocks, b)].free)
      ensures MergeNext(h, b) == h && TagsOk(h, {b})
    {
      hide InsertBin, TagsBut;
      TagsWeaken(L, storage[..], h.blocks, {}, {b});
    }

    lemma PrevSetup(h: Heap, b: nat)
      requires L.Valid() && WellFormed(L, h) && TagsOk(h, {b}) && b in h.blocks
      ensures b + HEADER <= L.pool
      ensures IsPrevFree(SizeFlagsAt(storage[..], b)) <==> MergeStart(h.blocks, b) != b
      ensures MergeStart(h.blocks, b) != b ==>
                PrevSizeAt(storage[..], b) <= b && MergeStart(h.blocks, b) == b - PrevSizeAt(storage[..], b)
    {
      hide Load, IsPrevFree, TagsBut, Tiles, Filed, Coalesced;
      MinStart(h, b);
      PrevIsFree(L, h.blocks, b, storage[..]);
    }

    static lemma NoMergePrev(h: Heap, b: nat)
      requires b in h.blocks && MergePrev.requires(h, b) && MergeStart(h.blocks, b) == b
      ensures MergePrev(h, b) == h
    {
    }

    lemma TilesOf(h: Heap)
      requires WellFormed(L, h)
      ensures Tiles(L, h.blocks) && Filed(h.blocks, h.lists)
    {
    }

    static lemma ReleasePayload(L: Layout, h: Heap, b: nat, m0: seq<byte>, m1: seq<byte>, m2: seq<byte>, m3: seq<byte>)
      requires L.Valid() && WellFormed(L, h) && Live(h.blocks, b) && HeapOps.Deallocate.requires(h, b)
      requires m0 == m1 || PayloadSame(h.blocks, m0, m1)
      requires m1 == m2 || PayloadSame(MergeNext(h, b).blocks - {b}, m1, m2)
      requires PayloadSame(HeapOps.Deallocate(h, b).blocks, m2, m3)
      ensures PayloadSame(h.blocks - {b}, m0, m3)
    {
      hide InsertBin, WellFormed, MergeNext, MergePrev, HeapOps.Deallocate, RangeSame;
      var t, h1 := h.blocks - {b}, MergeNext(h, b);
      MergeNextKeeps(L, h, b);
      DeallocateKeeps(L, h, b);
      assert LiveOf(t) == LiveOf(h.blocks) - {b};
      assert LiveOf(h1.blocks - {b}) == LiveOf(h1.blocks) - {b};
      LiveWithinOf(t, h1.blocks - {b});
      LiveWithinOf(t, HeapOps.Deallocate(h, b).blocks);
      SameToSame(t, m0);
      assert PayloadSame(t, m0, m1) by {
        if m0 != m1 {
          forall c: nat | Live(t, c) ensures RangeSame(m0, m1, c + HEADER, End(t, c)) { assert Live(h.blocks, c); }
        }
      }
      if m1 != m2 { PayloadTrans(t, h1.blocks - {b}, m0, m1, m2); }
      PayloadTrans(t, HeapOps.Deallocate(h, b).blocks, m0, m2, m3);
    }

    static lemma SameToSame(t: Tiling, m: seq<byte>)
      ensures PayloadSame(t, m, m)
    {
    }

    /** Merge the live block b with its free neighbours and list the result. */
    method ReleaseBlock(b: nat)
      requires L.Valid() && WellFormed(L, heap) && ListsOk(heap) && TagsOk(heap, {}) && Live(heap.blocks, b)
      modifies storage, `flBitmap, `slBitmap, `heads, `heap
      ensures HeapOps.Deallocate.requires(old(heap), b) && heap == HeapOps.Deallocate(old(heap), b)
      ensures WellFormed(L, heap) && ListsOk(heap) && TagsOk(heap, {})
      ensures PayloadSame(old(heap).blocks - {b}, old(storage[..]), storage[..])
    {
      hide Load, Store, IsFree, IsPrevFree, InsertBin, Linked, Mapped, TagsBut, WellFormed, PayloadSame, MergeNext;
      hide MergePrev, LiveWithin;
      ghost var h, m0 := heap, storage[..];
      DeallocateKeeps(L, h, b);
      MergeNextKeeps(L, h, b);
      ghost var h1 := MergeNext(h, b);
      MergePrevKeeps(L, h1, b);
      ghost var h2 := MergePrev(h1, b);
      NextSetup(h, b);
      var next := b + SizeAt(storage[..], b);
      if next < L.pool && IsFree(SizeFlagsAt(storage[..], next)) {
        AbsorbNext(b, next, h);
      } else {
        NoMerge(h, b);
      }
      ghost var m1 := storage[..];

      var start := b;
      PrevSetup(h1, b);
      if IsPrevFree(SizeFlagsAt(storage[..], b)) {
        start := b - PrevSizeAt(storage[..], b);
        AbsorbIntoPrev(b, start, h1);
      } else {
        NoMergePrev(h1, b);
      }
      ghost var m2 := storage[..];
      TilesOf(h2);
      InsertFreeBlock(start, h2, {start});
      assert {start} - {start} == {};
      heap := HeapOps.Deallocate(h, b);
      ReleasePayload(L, h, b, m0, m1, m2, storage[..]);
    }

    // ----- reallocate

    /** Grow the live block b over its free successor and cut it back to what nsize needs. */
    method GrowBlock(b: nat, nsize: nat)
      requires L.Valid() && WellFormed(L, heap) && ListsOk(heap) && TagsOk(heap, {}) && Live(heap.blocks, b)
      requires heap.blocks[b].size >= HEADER && heap.blocks[b].size - HEADER < nsize && CanGrow(heap, b, nsize)
      modifies storage, `flBitmap, `slBitmap, `heads, `heap
      ensures Grow.requires(L, old(heap), b, nsize) && heap == Grow(L, old(heap), b, nsize)
      ensures WellFormed(L, heap) && ListsOk(heap) && TagsOk(heap, {})
      ensures b in heap.blocks && b + HEADER <= L.pool && SizeAt(storage[..], b) == heap.blocks[b].size
      ensures PayloadSame(old(heap).blocks, old(storage[..]), storage[..])
    {
      hide Load, Store, IsFree, IsPrevFree, InsertBin, Linked, Mapped, TagsBut, WellFormed, PayloadSame, MergeNext;
      hide LiveWithin, NotifyMem;
      ghost var h, m0 := heap, storage[..];
      GrowKeeps(L, h, b, nsize);
      MergeNextKeeps(L, h, b);
      ghost var h1 := MergeNext(h, b);
      NextSetup(h, b);
      LiveFlag(h, b);
      var next := b + SizeAt(storage[..], b);
      AbsorbNext(b, next, h);
      ghost var m1 := storage[..];
      SizeTag(h1, b);
      var r := Required(L, nsize);
      if SizeAt(storage[..], b) >= r + L.MinBlock() {
        SplitBlock(b, r, h1);
      }
      heap := Grow(L, h, b, nsize);
      ghost var m2 := storage[..];
      NotifyStep(L, heap, b, m2, heads);
      NotifyNext(b);
      GrowPayload(L, h, b, nsize, m0, m1, m2, storage[..]);
    }

    lemma LiveFlag(h: Heap, b: nat)
      requires L.Valid() && TagsOk(h, {}) && Live(h.blocks, b)
      ensures b + HEADER <= L.pool && !IsFree(SizeFlagsAt(storage[..], b))
    {
      assert OwnTag(storage[..], h.blocks, b);
    }

    static lemma GrowPayload(L: Layout, h: Heap, b: nat, nsize: nat, m0: seq<byte>, m1: seq<byte>, m2: seq<byte>,
                             m3: seq<byte>)
      requires L.Valid() && WellFormed(L, h) && Live(h.blocks, b) && h.blocks[b].size >= HEADER
      requires h.blocks[b].size - HEADER < nsize && CanGrow(h, b, nsize) && Grow.requires(L, h, b, nsize)
      requires PayloadSame(h.blocks, m0, m1) && (m1 == m2 || PayloadSame(Grow(L, h, b, nsize).blocks, m1, m2))
      requires PayloadSame(Grow(L, h, b, nsize).blocks, m2, m3)
      ensures PayloadSame(h.blocks, m0, m3)
    {
      hide InsertBin, WellFormed, PayloadSame, Grow;
      GrowKeeps(L, h, b, nsize);
      var t' := Grow(L, h, b, nsize).blocks;
      LiveWithinOf(h.blocks, t');
      if m1 != m2 { PayloadTrans(h.blocks, t', m0, m1, m2); }
      PayloadTrans(h.blocks, t', m0, m2, m3);
    }

    /** memcpy inside the pool. */
    method CopyBytes(dst: nat, src: nat, n: nat)
      requires dst + n <= storage.Length && src + n <= storage.Length && (dst + n <= src || src + n <= dst)
      modifies storage
      ensures storage[dst..dst + n] == old(storage[src..src + n])
      ensures forall x | 0 <= x < storage.Length && !(dst <= x < dst + n) :: storage[x] == old(storage[x])
    {
      var i := 0;
      while i < n
        invariant 0 <= i <= n
        invariant storage[dst..dst + i] == old(storage[src..src + i])
        invariant forall x | 0 <= x < storage.Length && !(dst <= x < dst + i) :: storage[x] == old(storage[x])
      {
        storage[dst + i] := storage[src + i];
        i := i + 1;
      }
    }

    /** What deallocate and the reads of reallocate rely on after the payload of b was written. */
    lemma PayloadWritten(h: Heap, b: nat, m: seq<byte>)
      requires L.Valid() && WellFormed(L, h) && Live(h.blocks, b) && storage.Length == L.pool == |m|
      requires Starts(L, h.blocks.Keys) && Linked(L, h.blocks.Keys, m, heads, h.lists) && TagsBut(L, m, h.blocks, {})
      requires forall x | 0 <= x < L.pool && !(b + HEADER <= x < End(h.blocks, b)) :: storage[x] == m[x]
      ensures Linked(L, h.blocks.Keys, storage[..], heads, h.lists) && TagsBut(L, storage[..], h.blocks, {})
    {
      WriteEffect(L, h, b, m, storage[..], heads);
    }

    /** The in-place path: the free counter is not adjusted. */
    method GrowInPlace(b: nat, nsize: nat)
      requires Valid() && Live(heap.blocks, b)
      requires heap.blocks[b].size >= HEADER && heap.blocks[b].size - HEADER < nsize && CanGrow(heap, b, nsize)
      modifies this, storage
      ensures Valid() && used > old(used)
      ensures Counts() == old(Counts()).(used := used, peak := Max(old(peak), used),
                                         grown := old(grown) + used - old(used))
      ensures Grow.requires(L, old(heap), b, nsize) && heap == Grow(L, old(heap), b, nsize)
      ensures PayloadSame(old(heap).blocks, old(storage[..]), storage[..])
    {
      hide Load, Store, IsFree, IsPrevFree, InsertBin, Linked, Mapped, TagsBut, WellFormed, PayloadSame, Used, Grow;
      hide Align8;
      ghost var h := heap;
      OwnTagOf(b);
      var payload := SizeAt(storage[..], b) - HEADER;
      GrowUsed(L, h, b, nsize);
      GrowKeeps(L, h, b, nsize);
      GrowBlock(b, nsize);
      used := used + (SizeAt(storage[..], b) - HEADER - payload);
      grown := grown + (heap.blocks[b].size - h.blocks[b].size);
      if used > peak {
        peak := used;
      }
    }

    /** Copy n payload bytes of b into c. */
    method CopyPayload(b: nat, c: nat, n: nat)
      requires Valid() && Live(heap.blocks, b) && Live(heap.blocks, c) && b != c
      requires n + HEADER <= heap.blocks[b].size && n + HEADER <= heap.blocks[c].size
      requires End(heap.blocks, b) <= L.pool && End(heap.blocks, c) <= L.pool
      modifies storage
      ensures Valid()
      ensures storage[c + HEADER..c + HEADER + n] == old(storage[b + HEADER..b + HEADER + n])
      ensures forall x | 0 <= x < L.pool && !(c + HEADER <= x < c + HEADER + n) :: storage[x] == old(storage[x])
    {
      hide Load, Store, InsertBin, Linked, Mapped, TagsBut, WellFormed, Used, Starts;
      ghost var m := storage[..];
      BlocksApart(L, heap, b, c);
      CopyBytes(c + HEADER, b + HEADER, n);
      PayloadWritten(heap, c, m);
    }

    /** Copy n payload bytes of b into c, then free b. */
    method CopyAndFree(b: nat, c: nat, n: nat)
      requires Valid() && Live(heap.blocks, b) && Live(heap.blocks, c) && b != c
      requires n + HEADER <= heap.blocks[b].size && n + HEADER <= heap.blocks[c].size
      requires End(heap.blocks, b) <= L.pool && End(heap.blocks, c) <= L.pool
      modifies this, storage
      ensures Valid() && grown == old(grown) && peak == old(peak) && allocCount == old(allocCount)
      ensures used == old(used) - (old(heap).blocks[b].size - HEADER)
      ensures HeapOps.Deallocate.requires(old(heap), b) && heap == HeapOps.Deallocate(old(heap), b)
      ensures PayloadSame(old(heap).blocks - {b, c}, old(storage[..]), storage[..])
      ensures Copied(old(storage[..]), b + HEADER, storage[..], c + HEADER, n)
    {
      hide InsertBin, WellFormed, PayloadSame, HeapOps.Deallocate, Copied, ListsOk, TagsOk, Used;
      ghost var h, m1 := heap, storage[..];
      CopyPayload(b, c, n);
      ghost var m2 := storage[..];
      SliceSame(m1, m2, c + HEADER, b + HEADER, n);
      Deallocate(L.Addr(b) + HEADER);
      CopiedBytes(L, h, b, c, n, m1, m2, storage[..]);
    }

    lemma SliceSame(m1: seq<byte>, m2: seq<byte>, dst: nat, src: nat, n: nat)
      requires storage[..] == m2 && dst + n <= storage.Length && src + n <= |m1| && |m1| == storage.Length
      requires storage[dst..dst + n] == m1[src..src + n]
      ensures m2[dst..dst + n] == m1[src..src + n]
    {
    }

    /** The move path: allocate, copy, free. */
    method Move(b: nat, osize: nat, nsize: nat) returns (r: Reallocation)
      requires Valid() && Live(heap.blocks, b) && heap.blocks[b].size >= HEADER
      requires nsize > heap.blocks[b].size - HEADER && !CanGrow(heap, b, nsize)
      modifies this, storage
      ensures Valid()
      ensures Reallocated(L, old(heap), b, osize, nsize, r, heap, old(storage[..]), storage[..],
                          old(Counts()), Counts())
    {
      hide Load, Store, IsFree, IsPrevFree, InsertBin, SearchBin, Linked, Mapped, TagsBut, WellFormed, PayloadSame;
      hide Used;
      hide FirstBin, Carve, Grow, Align8, HeapOps.Deallocate, Copied, Resized, Overruns, CanGrow, Recounted, Stopped;
      ghost var h, m0 := heap, storage[..];
      var p := Allocate(nsize);
      if p == 0 {
        Unmoved(h, b, osize, nsize, m0, Counts());
        return Pointer(0);
      }
      MoveOverruns(h, b, osize, nsize);
      r := MoveInto(b, p - HEADER - L.base, osize, nsize, h, m0, old(Counts()));
    }

    /** The move path with its new block c: copy into it and free b. */
    method MoveInto(b: nat, c: nat, osize: nat, nsize: nat, ghost h: Heap, ghost m0: seq<byte>, ghost k: Counters)
      returns (r: Reallocation)
      requires Valid() && WellFormed(L, h) && Live(h.blocks, b) && h.blocks[b].size >= HEADER && |m0| == L.pool
      requires nsize > h.blocks[b].size - HEADER && !CanGrow(h, b, nsize) && CanAllocate(L, h, nsize)
      requires c == Chosen(L, h, nsize) && Granted(L, h, nsize, L.Addr(c) + HEADER, heap, m0, storage[..], k, Counts())
      modifies this, storage
      ensures Valid() && Reallocated(L, h, b, osize, nsize, r, heap, m0, storage[..], k, Counts())
    {
      hide Load, Store, IsFree, IsPrevFree, InsertBin, SearchBin, Linked, Mapped, TagsBut, WellFormed, PayloadSame;
      hide Used, FirstBin, Carve, Align8, HeapOps.Deallocate, Copied, Resized, Overruns, CanGrow, CanAllocate, Chosen;
      hide Recounted, Stopped, Granted;
      ghost var h1, m1 := heap, storage[..];
      WasGranted(L, h, nsize, c, h1, m0, m1, k, Counts());
      CarveKeeps(L, h, c, Required(L, nsize));
      MoveOverruns(h, b, osize, nsize);
      StillLive(h, h1, b, c);
      OwnTagOf(b);
      OwnTagOf(c);
      var payload := SizeAt(storage[..], b) - HEADER;
      assert payload == h.blocks[b].size - HEADER;
      var copy := CopySize(payload, osize, nsize);
      if copy > SizeAt(storage[..], c) - HEADER {
        MoveCounted(h, b, nsize, Overrun, k, Counts());
        IsStopped(L, h, nsize, h1, m0, m1);
        return Overrun;
      }
      BlockPositive(L, h1, c); BlockPositive(L, h1, b);
      CopyAndFree(b, c, copy);
      MovedBytes(h, h1, b, c, copy, m0, m1, storage[..]);
      r := Pointer(L.Addr(c) + HEADER);
      Moved(L, h, h1, b, osize, nsize, c, copy, L.Addr(c) + HEADER, heap, m0, storage[..]);
      MoveCounted(h, b, nsize, r, k, Counts());
    }

    lemma MoveCounted(h: Heap, b: nat, nsize: nat, r: Reallocation, c: Counters, c': Counters)
      requires L.Valid() && WellFormed(L, h) && Live(h.blocks, b) && h.blocks[b].size >= HEADER
      requires nsize > h.blocks[b].size - HEADER && !CanGrow(h, b, nsize) && CanAllocate(L, h, nsize)
      requires c'.grown == c.grown && c'.allocCount == c.allocCount + 1
      requires c'.peak == Max(c.peak, c'.used + (if r.Overrun? then 0 else h.blocks[b].size - HEADER))
      ensures Recounted(L, h, b, nsize, r, c, c')
    {
      hide WellFormed, CanGrow, CanAllocate;
    }

    lemma Unmoved(h: Heap, b: nat, osize: nat, nsize: nat, m: seq<byte>, c: Counters)
      requires L.Valid() && WellFormed(L, h) && Live(h.blocks, b) && h.blocks[b].size >= HEADER
      requires nsize > h.blocks[b].size - HEADER && !CanGrow(h, b, nsize) && !CanAllocate(L, h, nsize)
      ensures Resized(L, h, b, osize, nsize, 0, h, m, m) && !Overruns(L, h, b, osize, nsize)
      ensures Recounted(L, h, b, nsize, Pointer(0), c, c)
    {
      hide WellFormed, CanGrow, CanAllocate, PayloadSame, Copied;
    }

    lemma MoveOverruns(h: Heap, b: nat, osize: nat, nsize: nat)
      requires L.Valid() && WellFormed(L, h) && Live(h.blocks, b) && h.blocks[b].size >= HEADER
      requires nsize > h.blocks[b].size - HEADER && !CanGrow(h, b, nsize) && CanAllocate(L, h, nsize)
      ensures var c, r := Chosen(L, h, nsize), Required(L, nsize);
              && Carve.requires(L, h, c, r) && c in Carve(L, h, c, r).blocks
              && (Overruns(L, h, b, osize, nsize) <==>
                    Carve(L, h, c, r).blocks[c].size < HEADER + CopySize(h.blocks[b].size - HEADER, osize, nsize))
    {
      hide WellFormed, CanGrow, CanAllocate, Chosen, Carve, Align8, InsertBin;
      ChosenIsFree(L, h, nsize);
      CarveKeeps(L, h, Chosen(L, h, nsize), Required(L, nsize));
    }

    /** reallocate of a live pointer to a non-zero size. */
    method Resize(ptr: nat, osize: nat, nsize: nat) returns (r: Reallocation)
      requires Valid() && LivePointer(ptr) && nsize > 0
      modifies this, storage
      ensures Valid()
      ensures Reallocated(L, old(heap), ptr - HEADER - L.base, osize, nsize, r, heap, old(storage[..]), storage[..],
                          old(Counts()), Counts())
    {
      hide Load, Store, IsFree, IsPrevFree, InsertBin, SearchBin, Linked, Mapped, TagsBut, WellFormed, PayloadSame;
      hide Used;
      hide FirstBin, Carve, Grow, Align8, HeapOps.Deallocate, CanAllocate, Stopped;
      var b := ptr - HEADER - L.base;
      BlockPositive(L, heap, b);
      NextSetup(heap, b);
      var payload := SizeAt(storage[..], b) - HEADER;
      if nsize <= payload {
        return Pointer(ptr);
      }
      var next := b + SizeAt(storage[..], b);
      if next < L.pool && IsFree(SizeFlagsAt(storage[..], next)) && nsize <= payload + SizeAt(storage[..], next) {
        GrowInPlace(b, nsize);
        return Pointer(ptr);
      }
      r := Move(b, osize, nsize);
    }

    /** The Lua allocation function: free, allocate or resize. */
    method Reallocate(ptr: nat, osize: nat, nsize: nat) returns (r: Reallocation)
      requires Valid() && (ptr == 0 || LivePointer(ptr) || (nsize == 0 && Freeable(ptr)))
      modifies this, storage
      ensures Valid()
      ensures nsize == 0 ==>
                && r == Pointer(0)
                && Released(L, old(heap), ptr, heap, old(storage[..]), storage[..], old(Counts()), Counts())
      ensures nsize > 0 && ptr == 0 ==>
                && r.Pointer?
                && Granted(L, old(heap), nsize, r.addr, heap, old(storage[..]), storage[..], old(Counts()), Counts())
      ensures nsize > 0 && ptr != 0 ==>
                Reallocated(L, old(heap), ptr - HEADER - L.base, osize, nsize, r, heap, old(storage[..]), storage[..],
                            old(Counts()), Counts())
    {
      hide Load, Store, Linked, Mapped, TagsBut, WellFormed, PayloadSame, Used, InsertBin, SearchBin, FirstBin, Carve;
      hide Grow, HeapOps.Deallocate, Align8, Reallocated, Released, Granted;
      if nsize == 0 {
        if ptr != 0 {
          Deallocate(ptr);
        } else {
          NotReleased(L, heap, 0, storage[..], Counts());
        }
        return Pointer(0);
      }
      if ptr == 0 {
        var p := Allocate(nsize);
        return Pointer(p);
      }
      r := Resize(ptr, osize, nsize);
    }
  }

  lemma WasGranted(L: Layout, h: Heap, nsize: nat, b: nat, h': Heap, m: seq<byte>, m': seq<byte>, c: Counters,
                   c': Counters)
    requires L.Valid() && CanAllocate(L, h, nsize) && b == Chosen(L, h, nsize)
    requires Granted(L, h, nsize, L.Addr(b) + HEADER, h', m, m', c, c')
    ensures Carve.requires(L, h, b, Required(L, nsize)) && h.blocks[b].free
    ensures h' == Carve(L, h, b, Required(L, nsize)) && PayloadSame(h.blocks, m, m')
    ensures c'.peak == Max(c.peak, c'.used) && c'.allocCount == c.allocCount + 1 && c'.grown == c.grown
  {
    hide CanAllocate, Chosen, Carve, PayloadSame;
  }

  lemma IsStopped(L: Layout, h: Heap, nsize: nat, h': Heap, m: seq<byte>, m': seq<byte>)
    requires L.Valid() && CanAllocate(L, h, nsize) && Carve.requires(L, h, Chosen(L, h, nsize), Required(L, nsize))
    requires h' == Carve(L, h, Chosen(L, h, nsize), Required(L, nsize)) && PayloadSame(h.blocks, m, m')
    ensures Stopped(L, h, nsize, h', m, m')
  {
    hide CanAllocate, Chosen, Carve, PayloadSame;
  }

  /** What reallocate hands back, or that its memcpy is about to leave the new block. */
  datatype Reallocation = Pointer(addr: nat) | Overrun

  /** The bytes [lo', lo' + n) of m' are the bytes [lo, lo + n) of m. */
  ghost predicate Copied(m: seq<byte>, lo: nat, m': seq<byte>, lo': nat, n: nat)
  {
    lo + n <= |m| && lo' + n <= |m'| && m'[lo'..lo' + n] == m[lo..lo + n]
  }

  /** The effect of reallocating the live block b of h, when the pointer addr comes back. */
  ghost predicate Resized(L: Layout, h: Heap, b: nat, osize: nat, nsize: nat, addr: nat, h': Heap, m: seq<byte>,
                          m': seq<byte>)
    requires L.Valid() && WellFormed(L, h) && Live(h.blocks, b)
  {
    BlockPositive(L, h, b);
    var payload := h.blocks[b].size - HEADER;
    if nsize <= payload then
      addr == L.Addr(b) + HEADER && h' == h && m' == m
    else if CanGrow(h, b, nsize) then
      && addr == L.Addr(b) + HEADER
      && Grow.requires(L, h, b, nsize) && h' == Grow(L, h, b, nsize)
      && PayloadSame(h.blocks, m, m')
    else if !CanAllocate(L, h, nsize) then
      addr == 0 && h' == h && m' == m
    else
      var c := Chosen(L, h, nsize);
      && addr == L.Addr(c) + HEADER
      && Carve.requires(L, h, c, Required(L, nsize))
      && HeapOps.Deallocate.requires(Carve(L, h, c, Required(L, nsize)), b)
      && h' == HeapOps.Deallocate(Carve(L, h, c, Required(L, nsize)), b)
      && PayloadSame(h.blocks - {b}, m, m')
      && Copied(m, b + HEADER, m', c + HEADER, CopySize(payload, osize, nsize))
  }

  /** Nothing changes, or, if ptr is live, its block is freed and the counters follow. */
  ghost predicate Released(L: Layout, h: Heap, ptr: nat, h': Heap, m: seq<byte>, m': seq<byte>, c: Counters,
                           c': Counters)
  {
    if ptr >= L.base + HEADER && Live(h.blocks, ptr - HEADER - L.base) then
      var b := ptr - HEADER - L.base;
      && HeapOps.Deallocate.requires(h, b) && h' == HeapOps.Deallocate(h, b) && PayloadSame(h.blocks - {b}, m, m')
      && c'.used + h.blocks[b].size == c.used + HEADER
      && c'.peak == c.peak && c'.allocCount == c.allocCount && c'.grown == c.grown
    else
      h' == h && m' == m && c' == c
  }

  lemma NotReleased(L: Layout, h: Heap, ptr: nat, m: seq<byte>, c: Counters)
    requires ptr >= L.base + HEADER ==> !Live(h.blocks, ptr - HEADER - L.base)
    ensures Released(L, h, ptr, h, m, m, c, c)
  {
  }

  lemma IsReleased(L: Layout, h: Heap, ptr: nat, h': Heap, m: seq<byte>, m': seq<byte>, c: Counters, c': Counters)
    requires ptr >= L.base + HEADER && Live(h.blocks, ptr - HEADER - L.base)
    requires var b := ptr - HEADER - L.base;
             && HeapOps.Deallocate.requires(h, b) && h' == HeapOps.Deallocate(h, b)
             && PayloadSame(h.blocks - {b}, m, m') && c'.used + h.blocks[b].size == c.used + HEADER
    requires c'.peak == c.peak && c'.allocCount == c.allocCount && c'.grown == c.grown
    ensures Released(L, h, ptr, h', m, m', c, c')
  {
    hide HeapOps.Deallocate, PayloadSame;
  }

  /** A block for nsize bytes, or null and no change. */
  ghost predicate Granted(L: Layout, h: Heap, nsize: nat, p: nat, h': Heap, m: seq<byte>, m': seq<byte>, c: Counters,
                          c': Counters)
    requires L.Valid()
  {
    if !CanAllocate(L, h, nsize) then
      p == 0 && h' == h && m' == m && c' == c
    else
      var b := Chosen(L, h, nsize);
      && p == L.Addr(b) + HEADER && Carve.requires(L, h, b, Required(L, nsize)) && h.blocks[b].free
      && h' == Carve(L, h, b, Required(L, nsize)) && PayloadSame(h.blocks, m, m')
      && c'.peak == Max(c.peak, c'.used) && c'.allocCount == c.allocCount + 1 && c'.grown == c.grown
  }

  lemma Refused(L: Layout, h: Heap, nsize: nat, m: seq<byte>, c: Counters)
    requires L.Valid() && !CanAllocate(L, h, nsize)
    ensures Granted(L, h, nsize, 0, h, m, m, c, c)
  {
  }

  lemma IsGranted(L: Layout, h: Heap, nsize: nat, b: nat, h': Heap, m: seq<byte>, m': seq<byte>, c: Counters,
                  c': Counters)
    requires L.Valid() && CanAllocate(L, h, nsize) && b == Chosen(L, h, nsize)
    requires Carve.requires(L, h, b, Required(L, nsize)) && h.blocks[b].free
    requires h' == Carve(L, h, b, Required(L, nsize)) && PayloadSame(h.blocks, m, m')
    requires c'.peak == Max(c.peak, c'.used) && c'.allocCount == c.allocCount + 1 && c'.grown == c.grown
    ensures Granted(L, h, nsize, L.Addr(b) + HEADER, h', m, m', c, c')
  {
    hide CanAllocate, Chosen, Carve, PayloadSame;
  }

  /** What reallocating the live block b of h to nsize > 0 bytes does, and when its copy overruns. */
  ghost predicate Reallocated(L: Layout, h: Heap, b: nat, osize: nat, nsize: nat, r: Reallocation, h': Heap,
                              m: seq<byte>, m': seq<byte>, c: Counters, c': Counters)
    requires L.Valid() && WellFormed(L, h) && Live(h.blocks, b)
  {
    && (r.Overrun? <==> Overruns(L, h, b, osize, nsize))
    && (r.Overrun? ==> Stopped(L, h, nsize, h', m, m'))
    && (r.Pointer? ==> Resized(L, h, b, osize, nsize, r.addr, h', m, m'))
    && Recounted(L, h, b, nsize, r, c, c')
  }

  /** The counters after reallocating the live block b of h. Growing in place leaves the free bytes as they were; a move
      holds both blocks for a while. */
  ghost predicate Recounted(L: Layout, h: Heap, b: nat, nsize: nat, r: Reallocation, c: Counters, c': Counters)
    requires L.Valid() && WellFormed(L, h) && Live(h.blocks, b)
  {
    BlockPositive(L, h, b);
    var payload := h.blocks[b].size - HEADER;
    if nsize <= payload || (!CanGrow(h, b, nsize) && !CanAllocate(L, h, nsize)) then
      c' == c
    else if CanGrow(h, b, nsize) then
      && c'.used > c.used
      && c' == c.(used := c'.used, peak := Max(c.peak, c'.used), grown := c.grown + (c'.used - c.used))
    else
      && c'.grown == c.grown && c'.allocCount == c.allocCount + 1
      && c'.peak == Max(c.peak, c'.used + (if r.Overrun? then 0 else payload))
  }

  /** Where reallocate stands when its copy does not fit: the new block is allocated and nothing copied yet. */
  ghost predicate Stopped(L: Layout, h: Heap, nsize: nat, h': Heap, m: seq<byte>, m': seq<byte>)
    requires L.Valid()
  {
    && CanAllocate(L, h, nsize) && Carve.requires(L, h, Chosen(L, h, nsize), Required(L, nsize))
    && h' == Carve(L, h, Chosen(L, h, nsize), Required(L, nsize)) && PayloadSame(h.blocks, m, m')
  }

  lemma Moved(L: Layout, h: Heap, h1: Heap, b: nat, osize: nat, nsize: nat, c: nat, n: nat, p: nat, h': Heap,
              m: seq<byte>, m': seq<byte>)
    requires L.Valid() && WellFormed(L, h) && Live(h.blocks, b) && h.blocks[b].size >= HEADER
    requires nsize > h.blocks[b].size - HEADER && !CanGrow(h, b, nsize)
    requires CanAllocate(L, h, nsize) && c == Chosen(L, h, nsize) && Carve.requires(L, h, c, Required(L, nsize))
    requires h1 == Carve(L, h, c, Required(L, nsize))
    requires HeapOps.Deallocate.requires(h1, b) && h' == HeapOps.Deallocate(h1, b)
    requires n == CopySize(h.blocks[b].size - HEADER, osize, nsize) && p == L.Addr(c) + HEADER
    requires PayloadSame(h.blocks - {b}, m, m') && Copied(m, b + HEADER, m', c + HEADER, n)
    ensures Resized(L, h, b, osize, nsize, p, h', m, m')
  {
    hide WellFormed, CanGrow, CanAllocate, Chosen, Carve, HeapOps.Deallocate, PayloadSame, Copied, Align8, InsertBin;
  }

  lemma StillLive(h: Heap, h1: Heap, b: nat, c: nat)
    requires Live(h.blocks, b) && c in h.blocks && h.blocks[c].free && c in h1.blocks
    requires LiveOf(h1.blocks) == LiveOf(h.blocks)[c := h1.blocks[c].size]
    ensures Live(h1.blocks, b) && Live(h1.blocks, c) && b != c && h1.blocks[b].size == h.blocks[b].size
  {
    assert b in LiveOf(h.blocks);
    assert c in LiveOf(h1.blocks) && b in LiveOf(h1.blocks);
  }

  lemma BlocksApart(L: Layout, h: Heap, b: nat, c: nat)
    requires L.Valid() && WellFormed(L, h) && b in h.blocks && c in h.blocks && b != c
    ensures End(h.blocks, b) <= c || End(h.blocks, c) <= b
  {
    assert InOrder(h.blocks, b, c) && InOrder(h.blocks, c, b);
  }

  lemma WriteEffect(L: Layout, h: Heap, b: nat, m: seq<byte>, m': seq<byte>, heads: Heads)
    requires L.Valid() && WellFormed(L, h) && Live(h.blocks, b) && |m| == L.pool && |m'| == L.pool
    requires Starts(L, h.blocks.Keys) && Linked(L, h.blocks.Keys, m, heads, h.lists) && TagsBut(L, m, h.blocks, {})
    requires forall x | 0 <= x < L.pool && !(b + HEADER <= x < End(h.blocks, b)) :: m'[x] == m[x]
    ensures Linked(L, h.blocks.Keys, m', heads, h.lists) && TagsBut(L, m', h.blocks, {})
  {
    hide Load, InsertBin, Linked, TagsBut, Tiles, Filed, Coalesced;
    var T := h.blocks.Keys;
    forall c | c in T
      ensures SizeFlagsAt(m', c) == SizeFlagsAt(m, c) && PrevSizeAt(m', c) == PrevSizeAt(m, c)
      ensures c != b ==> NextFree(L, m', c) == NextFree(L, m, c) && PrevFree(L, m', c) == PrevFree(L, m, c)
    {
      WriteApart(L, h.blocks, b, c);
      LoadFrame(m, m', c, 4);
      LoadFrame(m, m', c + 4, 4);
      if c != b {
        LoadFrame(m, m', c + HEADER, L.ptr);
        LoadFrame(m, m', c + HEADER + L.ptr, L.ptr);
      }
    }
    LiveIsUnlisted(h.blocks, h.lists, b);
    LinkedFrame(L, T, m, m', heads, h.lists, {b});
    TagsFrame(L, m, m', h.blocks, {});
  }

  lemma WriteApart(L: Layout, t: Tiling, b: nat, c: nat)
    requires L.Valid() && Tiles(L, t) && b in t && c in t
    ensures c + HEADER <= b + HEADER || End(t, b) <= c
    ensures c != b ==> c + L.MinBlock() <= b || End(t, b) <= c
  {
    assert InOrder(t, b, c) && InOrder(t, c, b) && BlockFits(L, t, c);
  }

  lemma CopiedBytes(L: Layout, h: Heap, b: nat, c: nat, n: nat, m1: seq<byte>, m2: seq<byte>, m3: seq<byte>)
    requires L.Valid() && WellFormed(L, h) && Live(h.blocks, b) && Live(h.blocks, c) && b != c
    requires n + HEADER <= h.blocks[b].size && n + HEADER <= h.blocks[c].size
    requires End(h.blocks, b) <= L.pool && End(h.blocks, c) <= L.pool && |m1| == L.pool == |m2|
    requires PayloadSame(h.blocks - {b}, m2, m3)
    requires m2[c + HEADER..c + HEADER + n] == m1[b + HEADER..b + HEADER + n]
    requires forall x | 0 <= x < L.pool && !(c + HEADER <= x < c + HEADER + n) :: m2[x] == m1[x]
    ensures PayloadSame(h.blocks - {b, c}, m1, m3) && Copied(m1, b + HEADER, m3, c + HEADER, n)
  {
    hide InsertBin, WellFormed;
    var t := h.blocks - {b, c};
    assert Live(h.blocks - {b}, c);
    assert RangeSame(m2, m3, c + HEADER, End(h.blocks, c));
    assert m3[c + HEADER..c + HEADER + n] == m2[c + HEADER..c + HEADER + n];
    forall d: nat | Live(t, d) ensures RangeSame(m1, m3, d + HEADER, End(t, d)) {
      assert Live(h.blocks - {b}, d);
      BlocksApart(L, h, c, d);
    }
  }

  lemma MovedBytes(h: Heap, h1: Heap, b: nat, c: nat, n: nat, m0: seq<byte>, m1: seq<byte>, m3: seq<byte>)
    requires Live(h.blocks, b) && c in h.blocks && h.blocks[c].free && c in h1.blocks
    requires LiveOf(h1.blocks) == LiveOf(h.blocks)[c := h1.blocks[c].size]
    requires n + HEADER <= h.blocks[b].size && End(h.blocks, b) <= |m0|
    requires PayloadSame(h.blocks, m0, m1) && PayloadSame(h1.blocks - {b, c}, m1, m3)
    requires Copied(m1, b + HEADER, m3, c + HEADER, n)
    ensures PayloadSame(h.blocks - {b}, m0, m3) && Copied(m0, b + HEADER, m3, c + HEADER, n)
  {
    var t := h.blocks - {b};
    assert RangeSame(m0, m1, b + HEADER, End(h.blocks, b));
    assert m1[b + HEADER..b + HEADER + n] == m0[b + HEADER..b + HEADER + n];
    forall d: nat | Live(t, d) ensures RangeSame(m0, m3, d + HEADER, End(t, d)) {
      assert Live(h.blocks, d) && d in LiveOf(h.blocks) && d != c;
      assert d in LiveOf(h1.blocks);
      assert Live(h1.blocks - {b, c}, d);
    }
  }
}
