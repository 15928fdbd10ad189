/** allocate, deallocate and the in-place path of reallocate on the tiling model
    (runtime/lua_heap.hpp:219-364): they keep it well formed and touch no other allocation. */
module HeapOps {
  import opened TlsfMapping
  import opened FreeLists
  import opened HeapModel

  /** The live allocations by offset, with their block sizes: what a client sees of the heap. */
  function LiveOf(t: Tiling): map<nat, nat>
  {
    map b | b in t && !t[b].free :: t[b].size
  }

  // ----- allocate

  /** search_suitable_block: the front of the first non-empty list at or above the search bin. */
  function Found(h: Heap, r: nat): (k: nat)
    ensures k < BIN_COUNT ==> h.lists[k] != [] && k >= SearchBin(r)
  {
    FirstBin(h.lists, SearchBin(r))
  }

  predicate CanAllocate(L: Layout, h: Heap, size: nat)
    requires L.Valid()
  {
    0 < size <= L.pool - HEADER && Found(h, Required(L, size)) < BIN_COUNT
  }

  /** Cut the allocated block b down to r bytes if the rest can be a block. */
  function Trim(L: Layout, h: Heap, b: nat, r: nat): Heap
    requires b in h.blocks
  {
    if h.blocks[b].size >= r + L.MinBlock() then SplitTail(h, b, r) else h
  }

  function Chosen(L: Layout, h: Heap, size: nat): (b: nat)
    requires L.Valid() && CanAllocate(L, h, size)
  {
    h.lists[Found(h, Required(L, size))][0]
  }

  /** Taking listed block b for a request of r bytes. */
  function Carve(L: Layout, h: Heap, b: nat, r: nat): Heap
    requires b in h.blocks && b in h.lists[InsertBin(h.blocks[b].size)]
  {
    Trim(L, Take(h, b), b, r)
  }

  lemma ChosenIsFree(L: Layout, h: Heap, size: nat)
    requires L.Valid() && WellFormed(L, h) && CanAllocate(L, h, size)
    ensures var b := Chosen(L, h, size);
            && b in h.blocks && h.blocks[b].free
            && InsertBin(h.blocks[b].size) == Found(h, Required(L, size))
            && b in h.lists[InsertBin(h.blocks[b].size)]
  {
    hide InsertBin, SearchBin;
  }

  lemma TrimKeeps(L: Layout, h: Heap, b: nat, r: nat)
    requires L.Valid() && WellFormed(L, h) && Live(h.blocks, b) && SealedAfter(h.blocks, b)
    requires r % 8 == 0 && L.MinBlock() <= r
    ensures WellFormed(L, Trim(L, h, b, r))
    ensures LiveOf(Trim(L, h, b, r).blocks) == LiveOf(h.blocks)[b := Trim(L, h, b, r).blocks[b].size]
    ensures Live(Trim(L, h, b, r).blocks, b)
    ensures h.blocks[b].size >= r ==> r <= Trim(L, h, b, r).blocks[b].size < r + L.MinBlock()
    ensures h.blocks[b].size < r ==> Trim(L, h, b, r) == h
  {
    hide WellFormed, InsertBin;
    if h.blocks[b].size >= r + L.MinBlock() {
      SplitKeeps(L, h, b, r);
      SplitWasWithin(L, h, b, r);
    }
  }

  lemma SplitWasWithin(L: Layout, h: Heap, b: nat, r: nat)
    requires L.Valid() && WellFormed(L, h) && Splits(L, h.blocks, b, r)
    ensures b + r !in h.blocks
  {
    SplitFresh(L, h.blocks, b, r);
  }

  /** Allocation adds exactly one live block, taken from free space, and keeps the heap well formed. */
  lemma CarveKeeps(L: Layout, h: Heap, b: nat, r: nat)
    requires L.Valid() && WellFormed(L, h) && b in h.blocks && h.blocks[b].free
    requires r % 8 == 0 && L.MinBlock() <= r
    ensures b in h.lists[InsertBin(h.blocks[b].size)]
    ensures var h' := Carve(L, h, b, r);
            && WellFormed(L, h')
            && b !in LiveOf(h.blocks) && b in h'.blocks
            && LiveOf(h'.blocks) == LiveOf(h.blocks)[b := h'.blocks[b].size]
            && (h.blocks[b].size >= r ==> r <= h'.blocks[b].size < r + L.MinBlock())
            && (h.blocks[b].size < r ==> h'.blocks[b].size == h.blocks[b].size)
  {
    hide WellFormed, InsertBin, Splits, Trim;
    TakeKeeps(L, h, b);
    TrimKeeps(L, Take(h, b), b, r);
  }

  // ----- deallocate

  /** The block deallocate ends up releasing: the free predecessor of b, or b itself. */
  ghost function MergeStart(t: Tiling, b: nat): (p: nat)
    ensures p == b || (p in t && t[p].free && End(t, p) == b)
    ensures p == b ==> forall q | q in t && t[q].free :: End(t, q) != b || q == b
  {
    if exists p :: p in t && t[p].free && End(t, p) == b && p != b then
      var p :| p in t && t[p].free && End(t, p) == b && p != b; p
    else b
  }

  /** Coalesce with the physical successor if that is free. */
  function MergeNext(h: Heap, b: nat): Heap
    requires b in h.blocks
    requires var n := End(h.blocks, b); n in h.blocks && h.blocks[n].free ==> n in h.lists[InsertBin(h.blocks[n].size)]
  {
    var n := End(h.blocks, b);
    if n in h.blocks && h.blocks[n].free then Fuse(Take(h, n), b) else h
  }

  ghost function MergePrev(h: Heap, b: nat): Heap
    requires b in h.blocks
    requires var p := MergeStart(h.blocks, b); p != b ==> p in h.lists[InsertBin(h.blocks[p].size)]
  {
    var p := MergeStart(h.blocks, b);
    if p == b then h else Fuse(Take(h, p), p)
  }

  lemma MergeNextKeeps(L: Layout, h: Heap, b: nat)
    requires L.Valid() && WellFormed(L, h) && Live(h.blocks, b)
    ensures MergeNext.requires(h, b)
    ensures var h' := MergeNext(h, b);
            && WellFormed(L, h') && Live(h'.blocks, b) && SealedAfter(h'.blocks, b)
            && LiveOf(h'.blocks) == LiveOf(h.blocks)[b := h'.blocks[b].size]
            && h'.blocks[b].size >= h.blocks[b].size
  {
    hide WellFormed, InsertBin;
    var n := End(h.blocks, b);
    if n in h.blocks && h.blocks[n].free {
      TakeKeeps(L, h, n);
      BlockPositive(L, h, b);
      FuseKeeps(L, Take(h, n), b);
      FusedEnd(L, h, b);
    }
  }

  lemma BlockPositive(L: Layout, h: Heap, b: nat)
    requires L.Valid() && WellFormed(L, h) && b in h.blocks
    ensures h.blocks[b].size >= L.MinBlock() > 0
    ensures End(h.blocks, b) > b
    ensures b % 8 == 0 && h.blocks[b].size % 8 == 0 && End(h.blocks, b) <= L.pool
    ensures End(h.blocks, b) == L.pool || End(h.blocks, b) in h.blocks
  {
    assert BlockFits(L, h.blocks, b);
  }

  lemma FusedEnd(L: Layout, h: Heap, b: nat)
    requires L.Valid() && WellFormed(L, h) && Live(h.blocks, b)
    requires var n := End(h.blocks, b); n in h.blocks && h.blocks[n].free && n in h.lists[InsertBin(h.blocks[n].size)]
    ensures SealedAfter(Fuse(Take(h, End(h.blocks, b)), b).blocks, b)
  {
    hide InsertBin, Filed;
    var n := End(h.blocks, b);
    BlockPositive(L, h, b); BlockPositive(L, h, n);
    assert Apart(h.blocks, n);
  }

  lemma MergePrevKeeps(L: Layout, h: Heap, b: nat)
    requires L.Valid() && WellFormed(L, h) && Live(h.blocks, b) && SealedAfter(h.blocks, b)
    ensures MergePrev.requires(h, b)
    ensures var h', p := MergePrev(h, b), MergeStart(h.blocks, b);
            && WellFormed(L, h') && Live(h'.blocks, p) && SealedAfter(h'.blocks, p) && SealedBefore(h'.blocks, p)
            && LiveOf(h'.blocks) == (LiveOf(h.blocks) - {b})[p := h'.blocks[p].size]
  {
    hide WellFormed, InsertBin;
    var p := MergeStart(h.blocks, b);
    BlockPositive(L, h, b);
    if p != b {
      BlockPositive(L, h, p);
      TakeKeeps(L, h, p);
      FuseKeeps(L, Take(h, p), p);
      FusedStart(L, h, p);
    }
  }

  lemma FusedStart(L: Layout, h: Heap, p: nat)
    requires L.Valid() && WellFormed(L, h) && p in h.blocks && h.blocks[p].free && Live(h.blocks, End(h.blocks, p))
    requires p in h.lists[InsertBin(h.blocks[p].size)]
    ensures SealedBefore(Fuse(Take(h, p), p).blocks, p)
  {
    hide InsertBin, Filed;
    BlockPositive(L, h, p); BlockPositive(L, h, End(h.blocks, p));
    var t' := Fuse(Take(h, p), p).blocks;
    forall q | q in t' && End(t', q) == p ensures !t'[q].free {
      assert Apart(h.blocks, q);
    }
  }

  ghost function Deallocate(h: Heap, b: nat): Heap
    requires b in h.blocks && MergeNext.requires(h, b) && b in MergeNext(h, b).blocks
    requires MergePrev.requires(MergeNext(h, b), b)
    requires MergeStart(MergeNext(h, b).blocks, b) in MergePrev(MergeNext(h, b), b).blocks
  {
    var h1 := MergeNext(h, b);
    Release(MergePrev(h1, b), MergeStart(h1.blocks, b))
  }

  /** Freeing removes exactly one live block and keeps the heap well formed, coalesced included. */
  lemma DeallocateKeeps(L: Layout, h: Heap, b: nat)
    requires L.Valid() && WellFormed(L, h) && Live(h.blocks, b)
    ensures Deallocate.requires(h, b)
    ensures WellFormed(L, Deallocate(h, b))
    ensures LiveOf(Deallocate(h, b).blocks) == LiveOf(h.blocks) - {b}
  {
    hide WellFormed, InsertBin, MergeNext, MergePrev, LiveOf;
    MergeNextKeeps(L, h, b);
    var h1 := MergeNext(h, b);
    MergePrevKeeps(L, h1, b);
    var p, h2 := MergeStart(h1.blocks, b), MergePrev(h1, b);
    ReleaseKeeps(L, h2, p);
    LiveReleased(h2, p);
    if p != b { FreeNotLive(h1.blocks, p); }
    assert LiveOf(h1.blocks) - {b} == LiveOf(h.blocks) - {b};
    assert (LiveOf(h.blocks) - {b})[p := h2.blocks[p].size] - {p} == LiveOf(h.blocks) - {b};
  }

  lemma FreeNotLive(t: Tiling, p: nat)
    requires p in t && t[p].free
    ensures p !in LiveOf(t)
  {
  }

  lemma LiveReleased(h: Heap, p: nat)
    requires p in h.blocks
    ensures LiveOf(Release(h, p).blocks) == LiveOf(h.blocks) - {p}
  {
    hide InsertBin, Enlist;
  }

  // ----- the in-place path of reallocate

  predicate CanGrow(h: Heap, b: nat, nsize: nat)
    requires b in h.blocks && h.blocks[b].size >= HEADER
  {
    var n := End(h.blocks, b);
    n in h.blocks && h.blocks[n].free && nsize <= h.blocks[b].size - HEADER + h.blocks[n].size
  }

  function Grow(L: Layout, h: Heap, b: nat, nsize: nat): Heap
    requires L.Valid() && MergeNext.requires(h, b)
  {
    Trim(L, MergeNext(h, b), b, Required(L, nsize))
  }

  /** Growing in place resizes one live block to fit the request and keeps the heap well formed. */
  lemma GrowKeeps(L: Layout, h: Heap, b: nat, nsize: nat)
    requires L.Valid() && WellFormed(L, h) && Live(h.blocks, b) && h.blocks[b].size >= HEADER
    requires h.blocks[b].size - HEADER < nsize && CanGrow(h, b, nsize)
    ensures Grow.requires(L, h, b, nsize)
    ensures var h' := Grow(L, h, b, nsize);
            && WellFormed(L, h') && b in h'.blocks
            && LiveOf(h'.blocks) == LiveOf(h.blocks)[b := h'.blocks[b].size]
            && h'.blocks[b].size >= nsize + HEADER && h'.blocks[b].size > h.blocks[b].size
  {
    hide WellFormed, InsertBin, MergeNext, Trim;
    MergeNextKeeps(L, h, b);
    var h1, r := MergeNext(h, b), Required(L, nsize);
    TrimKeeps(L, h1, b, r);
    MergedSize(L, h, b);
    BlockPositive(L, h1, b); BlockPositive(L, h, b);
    assert h1.blocks[b].size >= nsize + HEADER;
    RequiredFits(L, nsize, h1.blocks[b].size);
  }

  /** A block that can hold the payload can hold the aligned payload. */
  lemma RequiredFits(L: Layout, nsize: nat, s: nat)
    requires L.Valid() && s % 8 == 0 && s >= nsize + HEADER && s >= L.MinBlock()
    ensures s >= Required(L, nsize)
  {
  }

  lemma MergedSize(L: Layout, h: Heap, b: nat)
    requires L.Valid() && WellFormed(L, h) && Live(h.blocks, b) && MergeNext.requires(h, b)
    requires var n := End(h.blocks, b); n in h.blocks && h.blocks[n].free
    ensures MergeNext(h, b).blocks[b].size == h.blocks[b].size + h.blocks[End(h.blocks, b)].size
  {
    hide InsertBin, WellFormed;
    BlockPositive(L, h, b);
  }

  // ----- the move path of reallocate

  /** How many bytes the move path copies. */
  function CopySize(payload: nat, osize: nat, nsize: nat): (r: nat)
    ensures r <= payload && r <= osize && r <= nsize && r in {payload, osize, nsize}
  {
    var c := if osize < nsize then osize else nsize;
    if c > payload then payload else c
  }

  /** The move path asks for a block, gets one, and would copy more bytes than it holds. */
  ghost predicate Overruns(L: Layout, h: Heap, b: nat, osize: nat, nsize: nat)
    requires L.Valid() && WellFormed(L, h) && Live(h.blocks, b)
  {
    BlockPositive(L, h, b);
    && nsize > h.blocks[b].size - HEADER && !CanGrow(h, b, nsize) && CanAllocate(L, h, nsize)
    && (ChosenIsFree(L, h, nsize);
        var c := Chosen(L, h, nsize);
        CarveKeeps(L, h, c, Required(L, nsize));
        Carve(L, h, c, Required(L, nsize)).blocks[c].size < HEADER + CopySize(h.blocks[b].size - HEADER, osize, nsize))
  }
}
