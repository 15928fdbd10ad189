/** What each byte-level step of the allocator does to the represented tiling and lists. */
module HeapEffects {
  import opened ByteMemory
  import opened TlsfMapping
  import opened FreeLists
  import opened HeapModel
  import opened HeapTags
  import opened HeapPayload
  import opened HeapOps
  import opened HeapAccounting
  import opened Bitmap

  /** Unlinking a free block turns the representation of h into that of Take(h, b). */
  lemma RemoveEffect(L: Layout, h: Heap, b: nat, m: seq<byte>, heads: Heads)
    requires L.Valid() && WellFormed(L, h) && b in h.blocks && h.blocks[b].free
    requires |m| == L.pool && Starts(L, h.blocks.Keys) && Linked(L, h.blocks.Keys, m, heads, h.lists)
    requires b in h.lists[InsertBin(h.blocks[b].size)] && RemoveMem.requires(L, m, b)
    ensures var (k, m', h') := (InsertBin(h.blocks[b].size), RemoveMem(L, m, b), Take(h, b));
            var heads' := RemoveHeads(L, m, heads, k, b);
            && h'.blocks.Keys == h.blocks.Keys
            && Linked(L, h.blocks.Keys, m', heads', h'.lists)
            && (heads'[k] == 0 <==> h'.lists[k] == [])
            && SameHeaders(L, h.blocks.Keys, m, m') && PayloadSame(h.blocks, m, m')
  {
    hide Load, Store, InsertBin, RemoveMem, RemoveHeads, PayloadSame, ListOk, InLinks, Tiles, Filed, Coalesced;
    var k, T := InsertBin(h.blocks[b].size), h.blocks.Keys;
    var i := IndexOf(h.lists[k], b);
    RemoveLinked(L, T, m, heads, h.lists, k, i);
    assert Take(h, b).blocks.Keys == T;
    LinkWrite(L, h.blocks, h.lists, m, RemoveMem(L, m, b));
    RemoveHeaders(L, h, b, m, heads);
  }

  lemma RemoveHeaders(L: Layout, h: Heap, b: nat, m: seq<byte>, heads: Heads)
    requires L.Valid() && b in h.blocks
    requires |m| == L.pool && Starts(L, h.blocks.Keys) && Linked(L, h.blocks.Keys, m, heads, h.lists)
    requires b in h.lists[InsertBin(h.blocks[b].size)] && RemoveMem.requires(L, m, b)
    ensures SameHeaders(L, h.blocks.Keys, m, RemoveMem(L, m, b))
  {
    hide Load, Store, InsertBin, RemoveMem;
    var k, T := InsertBin(h.blocks[b].size), h.blocks.Keys;
    var i := IndexOf(h.lists[k], b);
    NodeNeighbours(L, T, m, h.lists[k], k, i);
    forall c | c in T
      ensures SizeFlagsAt(RemoveMem(L, m, b), c) == SizeFlagsAt(m, c)
      ensures PrevSizeAt(RemoveMem(L, m, b), c) == PrevSizeAt(m, c)
    {
      RemoveReads(L, T, m, b, PrevFree(L, m, b), NextFree(L, m, b), c);
    }
  }

  lemma LiveIsUnlisted(t: Tiling, lists: Lists, b: nat)
    requires Filed(t, lists) && Live(t, b)
    ensures !Listed(lists, b)
  {
    hide InsertBin;
  }

  /** The header words of an insertion leave the lists as they were. */
  lemma InsertHeaderEffect(L: Layout, h: Heap, X: set<nat>, b: nat, m: seq<byte>, heads: Heads)
    requires L.Valid() && Tiles(L, h.blocks) && Filed(h.blocks, h.lists) && Live(h.blocks, b) && b in X
    requires |m| == L.pool && Starts(L, h.blocks.Keys) && Linked(L, h.blocks.Keys, m, heads, h.lists)
    requires TagsBut(L, m, h.blocks, X)
    ensures InsertHeaderMem.requires(L, m, b) && SizeAt(m, b) == h.blocks[b].size
    ensures Linked(L, h.blocks.Keys, InsertHeaderMem(L, m, b), heads, h.lists)
    ensures SizeAt(InsertHeaderMem(L, m, b), b) == h.blocks[b].size
  {
    hide Load, Store, InsertBin, InsertHeaderMem, Linked, TagsBut, Tiles, Filed;
    InsertHeaderDefined(L, m, h.blocks, X, b);
    NextOf(L, h.blocks, b);
    LiveIsUnlisted(h.blocks, h.lists, b);
    forall c | c in h.blocks.Keys
      ensures SizeAt(InsertHeaderMem(L, m, b), c) == SizeAt(m, c)
      ensures NextFree(L, InsertHeaderMem(L, m, b), c) == NextFree(L, m, c)
      ensures PrevFree(L, InsertHeaderMem(L, m, b), c) == PrevFree(L, m, c)
    {
      InsertHeaderReads(L, h.blocks.Keys, m, b, c);
    }
    LinkedFrame(L, h.blocks.Keys, m, InsertHeaderMem(L, m, b), heads, h.lists, {});
  }

  lemma InsertLinkHeaders(L: Layout, T: set<nat>, m: seq<byte>, b: nat, heads: Heads, lists: Lists, k: nat)
    requires L.Valid() && Starts(L, T) && |m| == L.pool && b in T && k < BIN_COUNT
    requires Linked(L, T, m, heads, lists) && !Listed(lists, b)
    ensures InsertLinkMem.requires(L, m, b, heads[k])
    ensures SameHeaders(L, T, m, InsertLinkMem(L, m, b, heads[k]))
  {
    hide Load, Store, InsertBin, InsertLinkMem;
    assert lists[k] != [] ==> NodeOk(L, T, m, lists[k], k, 0);
    forall c | c in T
      ensures SizeFlagsAt(InsertLinkMem(L, m, b, heads[k]), c) == SizeFlagsAt(m, c)
      ensures PrevSizeAt(InsertLinkMem(L, m, b, heads[k]), c) == PrevSizeAt(m, c)
    {
      InsertLinkReads(L, T, m, b, heads[k], c);
    }
  }

  /** Inserting a live block turns the representation of h into that of Release(h, b). */
  lemma InsertEffect(L: Layout, h: Heap, X: set<nat>, b: nat, m: seq<byte>, heads: Heads)
    requires L.Valid() && Tiles(L, h.blocks) && Filed(h.blocks, h.lists) && Live(h.blocks, b) && b in X
    requires |m| == L.pool && Starts(L, h.blocks.Keys) && Linked(L, h.blocks.Keys, m, heads, h.lists)
    requires TagsBut(L, m, h.blocks, X)
    ensures InsertHeaderMem.requires(L, m, b) && SizeAt(m, b) == h.blocks[b].size
    ensures InsertLinkMem.requires(L, InsertHeaderMem(L, m, b), b, heads[InsertBin(h.blocks[b].size)])
    ensures var (k, h') := (InsertBin(h.blocks[b].size), Release(h, b));
            var m' := InsertLinkMem(L, InsertHeaderMem(L, m, b), b, heads[k]);
            && h'.blocks.Keys == h.blocks.Keys
            && Linked(L, h'.blocks.Keys, m', heads[k := L.Addr(b)], h'.lists)
            && TagsBut(L, m', h'.blocks, X - {b}) && PayloadSame(h'.blocks, m, m')
            && FlagsKept(L, h.blocks.Keys - {b}, m, m')
  {
    hide IsFree, FlagsKept, Load, Store, InsertBin, InsertHeaderMem, InsertLinkMem, Linked, TagsBut, Tiles, Filed;
    hide PayloadSame, OnlyLinks, SameHeaders, LiveWithin;
    var k, h', T := InsertBin(h.blocks[b].size), Release(h, b), h.blocks.Keys;
    InsertHeaderEffect(L, h, X, b, m, heads);
    LiveIsUnlisted(h.blocks, h.lists, b);
    RelabelTiles(L, h.blocks, b, true);
    InsertTags(L, m, h.blocks, X, b);
    var m1 := InsertHeaderMem(L, m, b);
    InsertLinkHeaders(L, T, m1, b, heads, h.lists, k);
    InsertLinked(L, T, m1, heads, h.lists, b, k);
    var m' := InsertLinkMem(L, m1, b, heads[k]);
    TagsFrame(L, m1, m', h'.blocks, X - {b});
    EnlistFiled(h.blocks, h.lists, b, h.blocks[b].size);
    InsertHeaderPayload(L, h'.blocks, m, b);
    LinkWrite(L, h'.blocks, h'.lists, m1, m');
    SelfWithin(h'.blocks);
    PayloadTrans(h'.blocks, h'.blocks, m, m1, m');
    InsertFlags(L, h, b, m, m1, m');
  }

  /** The free flags of the blocks in T are the same. */
  ghost predicate FlagsKept(L: Layout, T: set<nat>, m: seq<byte>, m': seq<byte>)
  {
    && |m'| == |m|
    && forall c {:trigger SizeFlagsAt(m', c)} | c in T && c + HEADER <= |m| ::
         IsFree(SizeFlagsAt(m', c)) == IsFree(SizeFlagsAt(m, c))
  }

  lemma InsertFlags(L: Layout, h: Heap, b: nat, m: seq<byte>, m1: seq<byte>, m': seq<byte>)
    requires L.Valid() && Tiles(L, h.blocks) && b in h.blocks && Starts(L, h.blocks.Keys)
    requires |m| == L.pool && InsertHeaderMem.requires(L, m, b) && SizeAt(m, b) == h.blocks[b].size
    requires m1 == InsertHeaderMem(L, m, b) && |m'| == L.pool && SameHeaders(L, h.blocks.Keys, m1, m')
    ensures FlagsKept(L, h.blocks.Keys - {b}, m, m')
  {
    hide Load, Store, IsFree, IsPrevFree, Tiles, InsertHeaderMem;
    NextOf(L, h.blocks, b);
    forall c | c in h.blocks.Keys - {b} ensures IsFree(SizeFlagsAt(m', c)) == IsFree(SizeFlagsAt(m, c)) {
      InsertHeaderReads(L, h.blocks.Keys, m, b, c);
      PrevFreeFlags(SizeFlagsAt(m, c));
    }
  }

  // ----- The split

  /** The tiling between cutting block b and announcing its tail: the tail is not free yet. */
  ghost function Cut(h: Heap, b: nat, r: nat): Heap
    requires b in h.blocks && r <= h.blocks[b].size
  {
    Heap(SplitTiles(h.blocks, b, r)[b + r := Block(h.blocks[b].size - r, false)], h.lists)
  }

  lemma CutReleased(h: Heap, b: nat, r: nat)
    requires b in h.blocks && 0 < r <= h.blocks[b].size
    ensures b + r in Cut(h, b, r).blocks && Release(Cut(h, b, r), b + r) == SplitTail(h, b, r)
  {
    hide InsertBin;
    var t: Tiling := SplitTiles(h.blocks, b, r);
    var s := h.blocks[b].size - r;
    assert t[b + r := Block(s, false)][b + r := Block(s, true)] == t;
  }

  lemma CutKeeps(L: Layout, h: Heap, b: nat, r: nat)
    requires L.Valid() && WellFormed(L, h) && Splits(L, h.blocks, b, r)
    ensures var h1 := Cut(h, b, r);
            && b + r !in h.blocks && b + r + L.MinBlock() <= L.pool
            && Tiles(L, h1.blocks) && Filed(h1.blocks, h1.lists) && Live(h1.blocks, b + r)
            && Starts(L, h1.blocks.Keys) && h1.blocks.Keys == h.blocks.Keys + {b + r}
            && Release(h1, b + r) == SplitTail(h, b, r)
  {
    hide InsertBin, Filed, Release, SplitTail;
    SplitSound(L, h.blocks, b, r);
    CutReleased(h, b, r);
    var t' := SplitTiles(h.blocks, b, r);
    RelabelTiles(L, t', b + r, false);
    StartsOfTiles(L, Cut(h, b, r).blocks);
    CutFiled(h.blocks, h.lists, b, r);
    assert BlockFits(L, t', b + r);
  }

  lemma CutFiled(t: Tiling, lists: Lists, b: nat, r: nat)
    requires Filed(t, lists) && Live(t, b) && r <= t[b].size && b + r !in t
    ensures Filed(Cut(Heap(t, lists), b, r).blocks, lists)
  {
    hide InsertBin;
  }

  lemma SplitLinked(L: Layout, h: Heap, b: nat, r: nat, m: seq<byte>, heads: Heads)
    requires L.Valid() && WellFormed(L, h) && Splits(L, h.blocks, b, r)
    requires |m| == L.pool && Starts(L, h.blocks.Keys) && Linked(L, h.blocks.Keys, m, heads, h.lists)
    ensures SplitMem.requires(L, m, b, r, h.blocks[b].size - r)
    ensures var (h1, m1) := (Cut(h, b, r), SplitMem(L, m, b, r, h.blocks[b].size - r));
            Starts(L, h1.blocks.Keys) && Linked(L, h1.blocks.Keys, m1, heads, h1.lists)
  {
    hide Load, Store, IsFree, IsPrevFree, InsertBin, Linked, Tiles, Filed, Coalesced, SplitMem;
    CutKeeps(L, h, b, r);
    SplitArithmetic(L, h.blocks, b, r);
    var h1, rest := Cut(h, b, r), h.blocks[b].size - r;
    ListedWithin(h.blocks, h.lists, h1.blocks.Keys);
    LinkedStarts(L, h.blocks.Keys, h1.blocks.Keys, m, heads, h.lists);
    LiveIsUnlisted(h1.blocks, h.lists, b);
    LiveIsUnlisted(h1.blocks, h.lists, b + r);
    SplitFrame(L, h1.blocks.Keys, m, b, r, rest, heads, h.lists);
  }

  /** The three header writes of a split touch no listed block. */
  lemma SplitFrame(L: Layout, T: set<nat>, m: seq<byte>, b: nat, r: nat, rest: nat, heads: Heads, lists: Lists)
    requires L.Valid() && Starts(L, T) && b in T && b + r in T && |m| == L.pool
    requires r > 0 && r % 8 == 0 && rest % 8 == 0 && b + r + rest <= L.pool && b + r + HEADER <= L.pool
    requires Linked(L, T, m, heads, lists) && !Listed(lists, b) && !Listed(lists, b + r)
    ensures |SplitMem(L, m, b, r, rest)| == L.pool && Linked(L, T, SplitMem(L, m, b, r, rest), heads, lists)
  {
    hide Load, Store, IsFree, IsPrevFree, Linked, SplitMem;
    var m1 := SplitMem(L, m, b, r, rest);
    forall c | c in T && c !in {b, b + r}
      ensures SizeAt(m1, c) == SizeAt(m, c)
      ensures NextFree(L, m1, c) == NextFree(L, m, c) && PrevFree(L, m1, c) == PrevFree(L, m, c)
    {
      SplitReads(L, T, m, b, r, rest, c);
    }
    LinkedFrame(L, T, m, m1, heads, lists, {b, b + r});
  }

  lemma ListedWithin(t: Tiling, lists: Lists, T: set<nat>)
    requires Filed(t, lists) && forall b | b in t && t[b].free :: b in T
    ensures forall k, i | 0 <= k < BIN_COUNT && 0 <= i < |lists[k]| :: lists[k][i] in T
  {
    hide InsertBin;
  }

  /** Cutting block b turns the representation of h into that of Cut(h, b, r). */
  lemma SplitEffect(L: Layout, h: Heap, b: nat, r: nat, m: seq<byte>, heads: Heads)
    requires L.Valid() && WellFormed(L, h) && Splits(L, h.blocks, b, r)
    requires |m| == L.pool && Starts(L, h.blocks.Keys) && Linked(L, h.blocks.Keys, m, heads, h.lists)
    requires TagsBut(L, m, h.blocks, {b})
    ensures SplitMem.requires(L, m, b, r, h.blocks[b].size - r)
    ensures var (h1, m1) := (Cut(h, b, r), SplitMem(L, m, b, r, h.blocks[b].size - r));
            && Starts(L, h1.blocks.Keys) && Linked(L, h1.blocks.Keys, m1, heads, h1.lists)
            && TagsBut(L, m1, h1.blocks, {b, b + r}) && PayloadSame(h1.blocks, m, m1)
            && IsFree(SizeFlagsAt(m1, b)) == IsFree(SizeFlagsAt(m, b))
  {
    hide Load, Store, IsFree, IsPrevFree, InsertBin, Linked, Tiles, Filed, Coalesced, SplitMem, TagsBut, PayloadSame;
    CutKeeps(L, h, b, r);
    SplitLinked(L, h, b, r, m, heads);
    var h1, rest := Cut(h, b, r), h.blocks[b].size - r;
    var t' := SplitTiles(h.blocks, b, r);
    assert t'.Keys == h1.blocks.Keys;
    SplitTags(L, m, h.blocks, b, r);
    TagsRelabel(L, SplitMem(L, m, b, r, rest), t', {b, b + r}, b + r, false);
    SplitPayload(L, h1.blocks, m, b, r, rest);
  }

  // ----- reset

  function NoLists(): Lists { seq(BIN_COUNT, _ => []) }

  /** The whole pool as one block that no list holds yet. */
  function Unlisted(L: Layout): Heap { Heap(map[0 := Block(L.pool, false)], NoLists()) }

  /** The heap after reset. */
  function Fresh(L: Layout): Heap { Release(Unlisted(L), 0) }

  lemma UnlistedKeeps(L: Layout)
    requires L.Valid()
    ensures Sound(L, Unlisted(L).blocks) && Filed(Unlisted(L).blocks, NoLists()) && WellFormed(L, Unlisted(L))
    ensures Starts(L, Unlisted(L).blocks.Keys) && Live(Unlisted(L).blocks, 0)
  {
    hide InsertBin;
    var t := Unlisted(L).blocks;
    assert forall k | 0 <= k < BIN_COUNT :: NoLists()[k] == [];
    forall c | c in t ensures BlockFits(L, t, c) && Apart(t, c) {}
    forall a, c | a in t && c in t ensures InOrder(t, a, c) {}
    StartsOfTiles(L, t);
  }

  lemma FreshKeeps(L: Layout)
    requires L.Valid()
    ensures WellFormed(L, Fresh(L)) && Used(L, Fresh(L).blocks) == 0
  {
    UnlistedKeeps(L);
    var t := Unlisted(L).blocks;
    assert SealedBefore(t, 0);
    ReleaseKeeps(L, Unlisted(L), 0);
    AllFreed(L, Fresh(L));
  }

  lemma InitialEffect(L: Layout, m: seq<byte>, m1: seq<byte>, m2: seq<byte>, m3: seq<byte>, m4: seq<byte>)
    requires L.Valid() && |m| == L.pool
    requires m1 == Store(m, 0, 4, L.pool + FLAG_FREE) && m2 == Store(m1, 4, 4, 0)
    requires m3 == Store(m2, HEADER, L.ptr, 0) && m4 == Store(m3, HEADER + L.ptr, L.ptr, 0)
    ensures Starts(L, Unlisted(L).blocks.Keys) && TagsBut(L, m4, Unlisted(L).blocks, {0})
  {
    hide Load, Store, IsFree, IsPrevFree, WellFormed, Filed, Sound, Pow256, SizeOf;
    UnlistedKeeps(L);
    var T := Unlisted(L).blocks.Keys;
    PoolWord(L);
    HeaderStore(L, T, m, 0, false, L.pool + FLAG_FREE, 0);
    HeaderStore(L, T, m1, 0, true, 0, 0);
    LinkStore(L, T, m2, 0, false, 0, 0);
    LinkStore(L, T, m3, 0, true, 0, 0);
  }

  lemma PoolWord(L: Layout)
    requires L.Valid()
    ensures L.pool + FLAG_FREE < WORD && SizeOf(L.pool + FLAG_FREE) == L.pool && !IsPrevFree(L.pool + FLAG_FREE)
  {
    LowBits(L.pool / 8, FLAG_FREE);
    FlagFreeOnly();
  }

  lemma FlagFreeOnly()
    ensures !IsPrevFree(FLAG_FREE)
  {
  }

  lemma InitialLists(L: Layout, m: seq<byte>, heads: Heads, fl: bv32, sl: SecondLevel)
    requires L.Valid() && |m| == L.pool && fl == 0
    requires forall k | 0 <= k < BIN_COUNT :: heads[k] == 0
    requires forall f | 0 <= f < FL_INDEX_COUNT :: sl[f] == 0
    ensures Starts(L, Unlisted(L).blocks.Keys)
    ensures Linked(L, Unlisted(L).blocks.Keys, m, heads, NoLists()) && Mapped(fl, sl, NoLists())
  {
    hide InsertBin, Bit, Load, WellFormed;
    UnlistedKeeps(L);
    ZeroMap(0);
    assert forall k | 0 <= k < BIN_COUNT :: NoLists()[k] == [];
  }

  // ----- the bitmap search

  lemma {:induction false} FirstBinIs(lists: Lists, k: nat, r: nat)
    requires k <= r <= BIN_COUNT && (r < BIN_COUNT ==> lists[r] != [])
    requires forall j | k <= j < r :: lists[j] == []
    ensures FirstBin(lists, k) == r
    decreases r - k
  {
    if k < r { FirstBinIs(lists, k + 1, r); }
  }

  /** Columns whose bit is clear in the row of k hold no block. */
  lemma RowEmpty(fl: bv32, sl: SecondLevel, lists: Lists, k: nat, hi: nat)
    requires Mapped(fl, sl, lists) && k < BIN_COUNT && hi <= SL_INDEX_COUNT && k / SL_INDEX_COUNT < FL_INDEX_COUNT
    requires forall s | k % SL_INDEX_COUNT <= s < hi :: !Bit(sl[k / SL_INDEX_COUNT], s)
    ensures forall j | k <= j < SL_INDEX_COUNT * (k / SL_INDEX_COUNT) + hi :: lists[j] == []
  {
    hide Bit;
    BinIndex(k);
    forall j | k <= j < SL_INDEX_COUNT * (k / SL_INDEX_COUNT) + hi ensures lists[j] == [] {
      assert !Bit(sl[k / SL_INDEX_COUNT], j - SL_INDEX_COUNT * (k / SL_INDEX_COUNT));
    }
  }

  lemma RowEmptyAt(fl: bv32, sl: SecondLevel, lists: Lists, f: nat, hi: nat)
    requires Mapped(fl, sl, lists) && f < FL_INDEX_COUNT && hi < SL_INDEX_COUNT
    requires forall s | 0 <= s < hi :: !Bit(sl[f], s)
    ensures forall j | SL_INDEX_COUNT * f <= j < SL_INDEX_COUNT * f + hi :: lists[j] == []
  {
    RowEmpty(fl, sl, lists, SL_INDEX_COUNT * f, hi);
  }

  /** Rows whose first-level bit is clear hold no block. */
  lemma RowsEmpty(fl: bv32, sl: SecondLevel, lists: Lists, k: nat, f: nat)
    requires Mapped(fl, sl, lists) && k < BIN_COUNT && k / SL_INDEX_COUNT < f <= FL_INDEX_COUNT
    requires forall j | k <= j < SL_INDEX_COUNT * (k / SL_INDEX_COUNT) + SL_INDEX_COUNT :: lists[j] == []
    requires forall i | k / SL_INDEX_COUNT < i < f :: !Bit(fl, i)
    ensures forall j | k <= j < SL_INDEX_COUNT * f :: lists[j] == []
  {
    hide Bit;
    forall j | k <= j < SL_INDEX_COUNT * f ensures lists[j] == [] {
      BinIndex(j);
      var i, s := j / SL_INDEX_COUNT, j % SL_INDEX_COUNT;
      if i > k / SL_INDEX_COUNT {
        ZeroMap(sl[i]);
        assert !Bit(sl[i], s);
      }
    }
  }

  // ----- finishing an allocation

  /** set_allocated on block b and the notice to its successor complete the tags of h. */
  lemma FinishEffect(L: Layout, h: Heap, b: nat, m: seq<byte>, heads: Heads)
    requires L.Valid() && WellFormed(L, h) && Live(h.blocks, b)
    requires |m| == L.pool && Starts(L, h.blocks.Keys) && Linked(L, h.blocks.Keys, m, heads, h.lists)
    requires TagsBut(L, m, h.blocks, {b})
    ensures b + HEADER <= |m| && SizeAt(m, b) == h.blocks[b].size && NotifyMem.requires(L, AllocatedMem(m, b), b)
    ensures var m' := NotifyMem(L, AllocatedMem(m, b), b);
            && Linked(L, h.blocks.Keys, m', heads, h.lists) && TagsBut(L, m', h.blocks, {})
            && PayloadSame(h.blocks, m, m') && SizeAt(m', b) == h.blocks[b].size
  {
    hide Load, Store, IsFree, IsPrevFree, InsertBin, Linked, Tiles, Filed, Coalesced, TagsBut, PayloadSame;
    hide AllocatedMem, NotifyMem, LiveWithin;
    var t, T := h.blocks, h.blocks.Keys;
    InsertHeaderDefined(L, m, t, {b}, b);
    var m1 := AllocatedMem(m, b);
    AllocatedTags(L, m, t, {b}, b);
    AllocatedPayload(L, t, m, b);
    AllocatedLinked(L, T, b, m, heads, h.lists);
    NotifyStep(L, h, b, m1, heads);
    SelfWithin(t);
    PayloadTrans(t, t, m, m1, NotifyMem(L, m1, b));
  }

  lemma AllocatedLinked(L: Layout, T: set<nat>, b: nat, m: seq<byte>, heads: Heads, lists: Lists)
    requires L.Valid() && |m| == L.pool && Starts(L, T) && b in T && Linked(L, T, m, heads, lists)
    ensures Linked(L, T, AllocatedMem(m, b), heads, lists)
  {
    hide Load, Store, IsFree, IsPrevFree, Linked, AllocatedMem;
    forall c | c in T
      ensures SizeAt(AllocatedMem(m, b), c) == SizeAt(m, c)
      ensures NextFree(L, AllocatedMem(m, b), c) == NextFree(L, m, c)
      ensures PrevFree(L, AllocatedMem(m, b), c) == PrevFree(L, m, c)
    {
      AllocatedReads(L, T, m, b, c);
    }
    LinkedFrame(L, T, m, AllocatedMem(m, b), heads, lists, {});
  }

  /** The notice to the successor of an allocated block completes the tags of h. */
  lemma NotifyStep(L: Layout, h: Heap, b: nat, m: seq<byte>, heads: Heads)
    requires L.Valid() && WellFormed(L, h) && Live(h.blocks, b)
    requires |m| == L.pool && Starts(L, h.blocks.Keys) && Linked(L, h.blocks.Keys, m, heads, h.lists)
    requires TagsBut(L, m, h.blocks, {b}) && !IsFree(SizeFlagsAt(m, b))
    ensures SizeAt(m, b) == h.blocks[b].size && NotifyMem.requires(L, m, b)
    ensures Linked(L, h.blocks.Keys, NotifyMem(L, m, b), heads, h.lists)
    ensures TagsBut(L, NotifyMem(L, m, b), h.blocks, {}) && PayloadSame(h.blocks, m, NotifyMem(L, m, b))
    ensures SizeAt(NotifyMem(L, m, b), b) == h.blocks[b].size
  {
    hide Load, Store, IsFree, IsPrevFree, InsertBin, Linked, Tiles, Filed, Coalesced, TagsBut, PayloadSame, NotifyMem;
    var t, T := h.blocks, h.blocks.Keys;
    InsertHeaderDefined(L, m, t, {b}, b);
    NotifyTags(L, m, t, {b}, b);
    assert {b} - {b} == {};
    NotifyPayload(L, t, m, b);
    NextOf(L, t, b);
    forall c | c in T
      ensures SizeAt(NotifyMem(L, m, b), c) == SizeAt(m, c)
      ensures NextFree(L, NotifyMem(L, m, b), c) == NextFree(L, m, c)
      ensures PrevFree(L, NotifyMem(L, m, b), c) == PrevFree(L, m, c)
    {
      NotifyReads(L, T, m, b, c);
    }
    LinkedFrame(L, T, m, NotifyMem(L, m, b), heads, h.lists, {});
  }

  // ----- merging

  /** Enlarging block b over its successor turns the representation of h into that of Fuse(h, b). */
  lemma FuseEffect(L: Layout, h: Heap, X: set<nat>, b: nat, m: seq<byte>, heads: Heads)
    requires L.Valid() && WellFormed(L, h) && Live(h.blocks, b) && Live(h.blocks, End(h.blocks, b))
    requires |m| == L.pool && Starts(L, h.blocks.Keys) && Linked(L, h.blocks.Keys, m, heads, h.lists)
    requires TagsBut(L, m, h.blocks, X) && X <= {b, End(h.blocks, b)}
    ensures Starts(L, Fuse(h, b).blocks.Keys)
    ensures var (h', m') := (Fuse(h, b), SetSizeMem(m, b, h.blocks[b].size + h.blocks[End(h.blocks, b)].size));
            && Linked(L, h'.blocks.Keys, m', heads, h'.lists) && TagsBut(L, m', h'.blocks, {b})
            && PayloadSame(h'.blocks, m, m')
            && IsFree(SizeFlagsAt(m', b)) == IsFree(SizeFlagsAt(m, b))
  {
    hide Load, Store, IsFree, IsPrevFree, InsertBin, Linked, Tiles, Filed, Coalesced, TagsBut, PayloadSame, SetSizeMem;
    var t, T, n := h.blocks, h.blocks.Keys, End(h.blocks, b);
    var sum := t[b].size + t[n].size;
    FuseTags(L, m, t, X, b);
    FuseKeeps(L, h, b);
    FirstStays(L, t, b);
    LiveIsUnlisted(t, h.lists, b);
    forall c | c in T && c !in {b}
      ensures SizeAt(SetSizeMem(m, b, sum), c) == SizeAt(m, c)
      ensures NextFree(L, SetSizeMem(m, b, sum), c) == NextFree(L, m, c)
      ensures PrevFree(L, SetSizeMem(m, b, sum), c) == PrevFree(L, m, c)
    {
      SetSizeReads(L, T, m, b, sum, c);
    }
    LinkedFrame(L, T, m, SetSizeMem(m, b, sum), heads, h.lists, {b});
    ListedWithin(t, h.lists, Fuse(h, b).blocks.Keys);
    LinkedStarts(L, T, Fuse(h, b).blocks.Keys, SetSizeMem(m, b, sum), heads, h.lists);
    SetSizePayload(L, Fuse(h, b).blocks, m, b, sum);
  }

  /** After unlinking, the tags of h are those of Take(h, b) except for b. */
  lemma TakeTags(L: Layout, h: Heap, X: set<nat>, b: nat, m: seq<byte>, m': seq<byte>)
    requires L.Valid() && b in h.blocks && Starts(L, h.blocks.Keys) && TagsBut(L, m, h.blocks, X)
    requires |m| == L.pool && |m'| == L.pool && SameHeaders(L, h.blocks.Keys, m, m')
    requires b in h.lists[InsertBin(h.blocks[b].size)]
    ensures Take(h, b).blocks.Keys == h.blocks.Keys
    ensures TagsBut(L, m', Take(h, b).blocks, X + {b})
  {
    hide TagsBut, SameHeaders, InsertBin;
    TagsFrame(L, m, m', h.blocks, X);
    TagsWeaken(L, m', h.blocks, X, X + {b});
    TagsRelabel(L, m', h.blocks, X + {b}, b, false);
  }

  /** The free bit of the header behind b tells whether the successor of b is free. */
  lemma NextIsFree(L: Layout, t: Tiling, X: set<nat>, b: nat, m: seq<byte>)
    requires L.Valid() && Tiles(L, t) && b in t && Starts(L, t.Keys) && TagsBut(L, m, t, X) && End(t, b) !in X
    ensures SizeAt(m, b) == t[b].size && (End(t, b) < L.pool ==> End(t, b) + L.MinBlock() <= L.pool)
    ensures End(t, b) < L.pool && IsFree(SizeFlagsAt(m, End(t, b))) <==> End(t, b) in t && t[End(t, b)].free
    ensures End(t, b) in t ==> SizeAt(m, End(t, b)) == t[End(t, b)].size
  {
    hide Load, IsFree;
    InsertHeaderDefined(L, m, t, X, b);
    NextOf(L, t, b);
    if End(t, b) in t {
      assert OwnTag(m, t, End(t, b));
      NextOf(L, t, End(t, b));
    }
  }

  /** The previous-free bit of b tells whether its predecessor is free, and prev_size where it is. */
  lemma PrevIsFree(L: Layout, t: Tiling, b: nat, m: seq<byte>)
    requires L.Valid() && Tiles(L, t) && b in t && Starts(L, t.Keys) && TagsBut(L, m, t, {b})
    ensures IsPrevFree(SizeFlagsAt(m, b)) <==> MergeStart(t, b) != b
    ensures MergeStart(t, b) != b ==>
              && PrevSizeAt(m, b) <= b && MergeStart(t, b) == b - PrevSizeAt(m, b)
              && SizeAt(m, MergeStart(t, b)) == t[MergeStart(t, b)].size
  {
    hide Load, IsFree, IsPrevFree;
    var p := MergeStart(t, b);
    if p != b {
      assert PrevTag(m, t, p) && OwnTag(m, t, p);
    } else if b > 0 {
      var q := Predecessor(L, t, b);
      assert PrevTag(m, t, q);
    }
  }

  lemma LiveWithinOf(t: Tiling, t': Tiling)
    requires forall c | c in LiveOf(t) :: c in LiveOf(t') && LiveOf(t)[c] <= LiveOf(t')[c]
    ensures LiveWithin(t, t')
  {
    forall c: nat | Live(t, c) ensures Live(t', c) && t[c].size <= t'[c].size { assert c in LiveOf(t); }
  }
}
