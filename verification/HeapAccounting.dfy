/** The memory counters of LuaHeap as sums over the tiling (runtime/lua_heap.hpp:262-272, 289-291, 360). */
module HeapAccounting {
  import opened TlsfMapping
  import opened FreeLists
  import opened HeapModel
  import opened HeapOps

  /** The live payload bytes from offset b on, found by walking the pool block by block. */
  ghost function UsedFrom(L: Layout, t: Tiling, b: nat): (u: nat)
    requires L.Valid() && Tiles(L, t) && (b in t || b == L.pool)
    decreases L.pool - b
  {
    if b in t then
      assert BlockFits(L, t, b);
      (if t[b].free then 0 else t[b].size - HEADER) + UsedFrom(L, t, End(t, b))
    else 0
  }

  ghost function Used(L: Layout, t: Tiling): nat
    requires L.Valid() && Tiles(L, t)
  {
    UsedFrom(L, t, 0)
  }

  /** Live payloads plus one header per block never exceed the pool. */
  lemma {:induction false} UsedBound(L: Layout, t: Tiling, b: nat)
    requires L.Valid() && Tiles(L, t) && b in t
    ensures UsedFrom(L, t, b) + HEADER <= L.pool - b
    decreases L.pool - b
  {
    assert BlockFits(L, t, b);
    if End(t, b) in t { UsedBound(L, t, End(t, b)); }
  }

  ghost predicate SameFrom(t: Tiling, t': Tiling, b: nat)
  {
    forall x | b <= x :: (x in t <==> x in t') && (x in t ==> t'[x] == t[x])
  }

  ghost predicate SameBefore(t: Tiling, t': Tiling, b: nat)
  {
    forall x | 0 <= x < b :: (x in t <==> x in t') && (x in t ==> t'[x] == t[x])
  }

  lemma {:induction false} UsedSuffix(L: Layout, t: Tiling, t': Tiling, b: nat)
    requires L.Valid() && Tiles(L, t) && Tiles(L, t') && SameFrom(t, t', b) && (b in t || b == L.pool)
    ensures UsedFrom(L, t', b) == UsedFrom(L, t, b)
    decreases L.pool - b
  {
    if b in t {
      assert BlockFits(L, t, b);
      UsedSuffix(L, t, t', End(t, b));
    } else {
      PoolIsNoBlock(L, t);
    }
  }

  lemma PoolIsNoBlock(L: Layout, t: Tiling)
    requires L.Valid() && Tiles(L, t)
    ensures L.pool !in t
  {
    assert L.pool in t ==> BlockFits(L, t, L.pool);
  }

  /** A change from b on shows in the total as it shows at b. */
  lemma {:induction false} UsedPrefix(L: Layout, t: Tiling, t': Tiling, c: nat, b: nat)
    requires L.Valid() && Tiles(L, t) && Tiles(L, t') && SameBefore(t, t', b)
    requires b in t && b in t' && c in t && c <= b
    ensures c in t' && UsedFrom(L, t', c) - UsedFrom(L, t, c) == UsedFrom(L, t', b) - UsedFrom(L, t, b)
    decreases b - c
  {
    if c < b {
      assert BlockFits(L, t, c) && BlockFits(L, t, b) && InOrder(t, c, b);
      UsedPrefix(L, t, t', End(t, c), b);
    }
  }

  lemma TakeUsed(L: Layout, h: Heap, b: nat)
    requires L.Valid() && WellFormed(L, h) && b in h.blocks && h.blocks[b].free
    requires b in h.lists[InsertBin(h.blocks[b].size)]
    ensures WellFormed(L, Take(h, b))
    ensures Used(L, Take(h, b).blocks) == Used(L, h.blocks) + h.blocks[b].size - HEADER
  {
    hide InsertBin, Filed;
    TakeKeeps(L, h, b);
    BlockPositive(L, h, b);
    var t, t' := h.blocks, Take(h, b).blocks;
    UsedSuffix(L, t, t', End(t, b));
    UsedPrefix(L, t, t', 0, b);
  }

  lemma ReleaseUsed(L: Layout, h: Heap, b: nat)
    requires L.Valid() && WellFormed(L, h) && Live(h.blocks, b) && WellFormed(L, Release(h, b))
    ensures Used(L, Release(h, b).blocks) == Used(L, h.blocks) - (h.blocks[b].size - HEADER)
  {
    hide InsertBin, Filed;
    BlockPositive(L, h, b);
    var t, t' := h.blocks, Release(h, b).blocks;
    UsedSuffix(L, t, t', End(t, b));
    UsedPrefix(L, t, t', 0, b);
  }

  lemma FuseUsed(L: Layout, h: Heap, b: nat)
    requires L.Valid() && WellFormed(L, h) && Live(h.blocks, b) && Live(h.blocks, End(h.blocks, b))
    ensures WellFormed(L, Fuse(h, b))
    ensures Used(L, Fuse(h, b).blocks) == Used(L, h.blocks) + HEADER
  {
    hide InsertBin, Filed;
    FuseKeeps(L, h, b);
    var n := End(h.blocks, b);
    BlockPositive(L, h, b); BlockPositive(L, h, n);
    var t, t' := h.blocks, Fuse(h, b).blocks;
    UsedSuffix(L, t, t', End(t, n));
    FuseBefore(L, t, t', b);
    UsedPrefix(L, t, t', 0, b);
    assert End(t', b) == End(t, n);
    assert UsedFrom(L, t', b) == t'[b].size - HEADER + UsedFrom(L, t', End(t', b));
    assert UsedFrom(L, t, b) == t[b].size - HEADER + UsedFrom(L, t, n);
  }

  lemma FuseBefore(L: Layout, t: Tiling, t': Tiling, b: nat)
    requires b in t && End(t, b) > b && forall x | x in t && x != b && x != End(t, b) :: x in t' && t'[x] == t[x]
    requires forall x | x in t' :: x in t
    ensures SameBefore(t, t', b)
  {
  }

  lemma UsedStep(L: Layout, t: Tiling, b: nat)
    requires L.Valid() && Tiles(L, t) && b in t
    ensures (End(t, b) in t || End(t, b) == L.pool) && t[b].size >= HEADER
    ensures UsedFrom(L, t, b) == (if t[b].free then 0 else t[b].size - HEADER) + UsedFrom(L, t, End(t, b))
  {
    assert BlockFits(L, t, b);
  }

  lemma SplitUsed(L: Layout, h: Heap, b: nat, r: nat)
    requires L.Valid() && WellFormed(L, h) && Splits(L, h.blocks, b, r)
    ensures b + r !in h.blocks && WellFormed(L, SplitTail(h, b, r))
    ensures Used(L, SplitTail(h, b, r).blocks) == Used(L, h.blocks) - (h.blocks[b].size - r)
  {
    hide InsertBin, Filed, Coalesced, Tiles, UsedFrom, SameFrom, SameBefore;
    SplitKeeps(L, h, b, r);
    SplitSame(L, h, b, r);
    var t, t' := h.blocks, SplitTail(h, b, r).blocks;
    UsedStep(L, t, b);
    UsedStep(L, t', b);
    UsedStep(L, t', b + r);
    UsedSuffix(L, t, t', End(t, b));
    UsedPrefix(L, t, t', 0, b);
  }

  /** A split changes nothing before the block or behind it. */
  lemma SplitSame(L: Layout, h: Heap, b: nat, r: nat)
    requires L.Valid() && WellFormed(L, h) && Splits(L, h.blocks, b, r)
    ensures var t, t' := h.blocks, SplitTail(h, b, r).blocks;
            && SameFrom(t, t', End(t, b)) && SameBefore(t, t', b) && 0 in t
            && t'[b] == Block(r, false) && t'[b + r] == Block(t[b].size - r, true)
  {
    hide InsertBin, Filed, Coalesced;
    BlockPositive(L, h, b);
  }

  lemma TrimUsed(L: Layout, h: Heap, b: nat, r: nat)
    requires L.Valid() && WellFormed(L, h) && Live(h.blocks, b) && SealedAfter(h.blocks, b)
    requires r % 8 == 0 && L.MinBlock() <= r
    ensures WellFormed(L, Trim(L, h, b, r)) && b in Trim(L, h, b, r).blocks
    ensures Used(L, Trim(L, h, b, r).blocks) + h.blocks[b].size == Used(L, h.blocks) + Trim(L, h, b, r).blocks[b].size
  {
    hide InsertBin, WellFormed;
    TrimKeeps(L, h, b, r);
    UsedDefined(L, h);
    if h.blocks[b].size >= r + L.MinBlock() { SplitUsed(L, h, b, r); }
  }

  lemma UsedDefined(L: Layout, h: Heap)
    requires WellFormed(L, h)
    ensures Tiles(L, h.blocks)
  {
  }

  /** allocate adds the payload of the block it returns. */
  lemma CarveUsed(L: Layout, h: Heap, b: nat, r: nat)
    requires L.Valid() && WellFormed(L, h) && b in h.blocks && h.blocks[b].free
    requires r % 8 == 0 && L.MinBlock() <= r
    ensures b in h.lists[InsertBin(h.blocks[b].size)] && b in Carve(L, h, b, r).blocks
    ensures WellFormed(L, Carve(L, h, b, r))
    ensures Used(L, Carve(L, h, b, r).blocks) == Used(L, h.blocks) + Carve(L, h, b, r).blocks[b].size - HEADER
  {
    hide InsertBin, WellFormed, Trim;
    UsedDefined(L, h);
    CarveKeeps(L, h, b, r);
    UsedDefined(L, Carve(L, h, b, r));
    TakeKeeps(L, h, b);
    TakeUsed(L, h, b);
    TrimUsed(L, Take(h, b), b, r);
  }

  lemma MergeNextUsed(L: Layout, h: Heap, b: nat)
    requires L.Valid() && WellFormed(L, h) && Live(h.blocks, b)
    ensures MergeNext.requires(h, b) && WellFormed(L, MergeNext(h, b)) && b in MergeNext(h, b).blocks
    ensures Used(L, MergeNext(h, b).blocks) + h.blocks[b].size == Used(L, h.blocks) + MergeNext(h, b).blocks[b].size
  {
    hide InsertBin, WellFormed;
    UsedDefined(L, h);
    MergeNextKeeps(L, h, b);
    UsedDefined(L, MergeNext(h, b));
    var n := End(h.blocks, b);
    if n in h.blocks && h.blocks[n].free {
      BlockPositive(L, h, b);
      TakeKeeps(L, h, n);
      TakeUsed(L, h, n);
      FuseUsed(L, Take(h, n), b);
    }
  }

  lemma MergePrevUsed(L: Layout, h: Heap, b: nat)
    requires L.Valid() && WellFormed(L, h) && Live(h.blocks, b) && SealedAfter(h.blocks, b)
    ensures MergePrev.requires(h, b) && WellFormed(L, MergePrev(h, b))
    ensures MergeStart(h.blocks, b) in MergePrev(h, b).blocks
    ensures Used(L, MergePrev(h, b).blocks) + h.blocks[b].size
            == Used(L, h.blocks) + MergePrev(h, b).blocks[MergeStart(h.blocks, b)].size
  {
    hide InsertBin, WellFormed;
    UsedDefined(L, h);
    MergePrevKeeps(L, h, b);
    UsedDefined(L, MergePrev(h, b));
    var p := MergeStart(h.blocks, b);
    if p != b {
      BlockPositive(L, h, p);
      TakeKeeps(L, h, p);
      TakeUsed(L, h, p);
      FuseUsed(L, Take(h, p), p);
    }
  }

  /** deallocate takes back exactly the payload of the freed block. */
  lemma DeallocateUsed(L: Layout, h: Heap, b: nat)
    requires L.Valid() && WellFormed(L, h) && Live(h.blocks, b)
    ensures Deallocate.requires(h, b) && WellFormed(L, Deallocate(h, b))
    ensures Used(L, h.blocks) == Used(L, Deallocate(h, b).blocks) + h.blocks[b].size - HEADER
  {
    hide InsertBin, WellFormed, MergeNext, MergePrev;
    DeallocateKeeps(L, h, b);
    UsedDefined(L, h); UsedDefined(L, Deallocate(h, b));
    MergeNextKeeps(L, h, b);
    MergeNextUsed(L, h, b);
    var h1 := MergeNext(h, b);
    UsedDefined(L, h1);
    MergePrevKeeps(L, h1, b);
    MergePrevUsed(L, h1, b);
    UsedDefined(L, MergePrev(h1, b));
    ReleaseUsed(L, MergePrev(h1, b), MergeStart(h1.blocks, b));
  }

  lemma GrowUsed(L: Layout, h: Heap, b: nat, nsize: nat)
    requires L.Valid() && WellFormed(L, h) && Live(h.blocks, b)
    ensures Grow.requires(L, h, b, nsize)
    ensures WellFormed(L, Grow(L, h, b, nsize)) && b in Grow(L, h, b, nsize).blocks
    ensures Used(L, Grow(L, h, b, nsize).blocks) + h.blocks[b].size ==
              Used(L, h.blocks) + Grow(L, h, b, nsize).blocks[b].size
  {
    hide InsertBin, WellFormed, MergeNext, Trim;
    UsedDefined(L, h);
    MergeNextKeeps(L, h, b);
    MergeNextUsed(L, h, b);
    var h1 := MergeNext(h, b);
    UsedDefined(L, h1);
    TrimUsed(L, h1, b, Required(L, nsize));
    UsedDefined(L, Grow(L, h, b, nsize));
  }

  /** Once nothing is live the pool is a single free block: no leak and no fragmentation. */
  lemma AllFreed(L: Layout, h: Heap)
    requires L.Valid() && WellFormed(L, h) && LiveOf(h.blocks) == map[]
    ensures h.blocks == map[0 := Block(L.pool, true)]
    ensures Used(L, h.blocks) == 0
  {
    hide InsertBin, Filed;
    var t := h.blocks;
    assert forall b | b in t :: t[b].free by {
      forall b | b in t ensures t[b].free { assert b !in LiveOf(t); }
    }
    assert BlockFits(L, t, 0) && Apart(t, 0);
    assert End(t, 0) == L.pool;
    PoolIsNoBlock(L, t);
    assert UsedFrom(L, t, L.pool) == 0;
    forall b | b in t ensures b == 0 { assert BlockFits(L, t, b) && InOrder(t, 0, b); }
  }
}
