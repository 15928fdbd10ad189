/** The heaps in which allocate or reallocate goes wrong are reached from reset, by the same six calls for every size
    (runtime/lua_heap.hpp:219-375). */
module HeapReach {
  import opened TlsfMapping
  import opened FreeLists
  import opened HeapModel
  import opened HeapOps
  import opened HeapEffects
  import opened HeapTheorems
  import opened HeapOverruns

  // ----- Heaps with one free block, the last one

  function Only(t: Tiling, b: nat, z: nat): Heap
  {
    Heap(t[b := Block(z, true)], NoLists()[InsertBin(z) := [b]])
  }

  lemma SearchLeast(L: Layout)
    requires L.Valid()
    ensures Required(L, 8) == L.MinBlock() && SearchBin(L.MinBlock()) < 16
  {
  }

  lemma RequiredIs(L: Layout, s: nat)
    requires L.Valid() && s % 8 == 0 && s >= L.MinBlock()
    ensures Required(L, s - HEADER) == s
  {
  }

  /** A least block is allocated in front of the free one. */
  lemma AllocLeast(L: Layout, t: Tiling, b: nat, z: nat)
    requires L.Valid() && WellFormed(L, Only(t, b, z)) && z >= 64 + L.MinBlock()
    ensures var (h, q) := (Only(t, b, z), L.MinBlock());
            && Enabled(L, h, Alloc(8)) && Step(L, h, Alloc(8)) == Only(t[b := Block(q, false)], b + q, z - q)
            && WellFormed(L, Only(t[b := Block(q, false)], b + q, z - q))
  {
    hide InsertBin, SearchBin, Required, WellFormed, Step;
    var h, q := Only(t, b, z), L.MinBlock();
    SearchLeast(L);
    BinLarge(z);
    BlockPositive(L, h, b);
    AllocateFirst(L, h, b, z, InsertBin(z), 8, q);
    assert h.blocks[b := Block(q, false)] == t[b := Block(q, false)];
    StepKeeps(L, h, Alloc(8));
  }

  /** What growing over the only free block leaves. */
  lemma GrownIs(L: Layout, t: Tiling, b: nat, q: nat, z: nat, s: nat)
    requires L.Valid() && b in t && t[b] == Block(q, false) && b + q !in t && 0 < q < s
    requires s + L.MinBlock() <= q + z && s >= HEADER && Required(L, s - HEADER) == s
    requires MergeNext.requires(Only(t, b + q, z), b)
    ensures Grow(L, Only(t, b + q, z), b, s - HEADER) == Only(t[b := Block(s, false)], b + s, q + z - s)
  {
    hide InsertBin, Required;
    var h := Only(t, b + q, z);
    OnlyOne(h.lists, InsertBin(z), b + q, InsertBin(q + z - s), b + s);
    assert MergeNext(h, b).blocks == t[b := Block(q + z, false)];
  }

  /** The block in front of the free one grows in place to s bytes, or has them already. */
  lemma GrowLast(L: Layout, t: Tiling, b: nat, z: nat, s: nat)
    requires L.Valid() && b in t && t[b] == Block(L.MinBlock(), false) && b + L.MinBlock() !in t
    requires WellFormed(L, Only(t, b + L.MinBlock(), z))
    requires s % 8 == 0 && L.MinBlock() <= s && s + L.MinBlock() <= L.MinBlock() + z
    ensures var (h, q) := (Only(t, b + L.MinBlock(), z), L.MinBlock());
            && Enabled(L, h, Realloc(b, 8, s - HEADER))
            && Step(L, h, Realloc(b, 8, s - HEADER)) == Only(t[b := Block(s, false)], b + s, q + z - s)
            && WellFormed(L, Only(t[b := Block(s, false)], b + s, q + z - s))
  {
    hide InsertBin, SearchBin, Required, WellFormed, Grow, MergeNext;
    var h, q := Only(t, b + L.MinBlock(), z), L.MinBlock();
    RequiredIs(L, s);
    BlockPositive(L, h, b + q);
    if s == q {
      assert t[b := Block(s, false)] == t;
    } else {
      GrowKeeps(L, h, b, s - HEADER);
      GrownIs(L, t, b, q, z, s);
    }
    StepKeeps(L, h, Realloc(b, 8, s - HEADER));
  }

  // ----- Six calls

  /** Block 0 of s bytes, a block of m bytes, a least one and the rest. */
  function Prepared(L: Layout, s: nat, m: nat): Tiling
  {
    map[0 := Block(s, false), s := Block(m, false), s + m := Block(L.MinBlock(), false)]
  }

  /** The rest is the only free block, ... */
  function Ready(L: Layout, s: nat, m: nat): Heap
    requires s + m + L.MinBlock() <= L.pool
  {
    Only(Prepared(L, s, m), s + m + L.MinBlock(), L.pool - s - m - L.MinBlock())
  }

  /** ... until block 0 is freed. */
  function FirstFreed(L: Layout, s: nat, m: nat): Heap
    requires s + m + L.MinBlock() <= L.pool
  {
    Release(Ready(L, s, m), 0)
  }

  function Calls(s: nat, m: nat): seq<Op>
    requires s >= HEADER && m >= HEADER
  {
    [Alloc(8), Realloc(0, 8, s - HEADER), Alloc(8), Realloc(s, 8, m - HEADER), Alloc(8), Free(0)]
  }

  function States(L: Layout, s: nat, m: nat): seq<Heap>
    requires s + m + L.MinBlock() <= L.pool && 2 * L.MinBlock() <= L.pool && s + L.MinBlock() <= L.pool
  {
    var q, t := L.MinBlock(), map[0 := Block(s, false)];
    [Only(map[], 0, L.pool), Only(map[0 := Block(q, false)], q, L.pool - q), Only(t, s, L.pool - s),
     Only(t[s := Block(q, false)], s + q, L.pool - s - q), Only(t[s := Block(m, false)], s + m, L.pool - s - m),
     Ready(L, s, m), FirstFreed(L, s, m)]
  }

  ghost predicate RunStep(L: Layout, h: Heap, op: Op, h': Heap)
    requires L.Valid()
  {
    WellFormed(L, h) && Enabled(L, h, op) && h' == Step(L, h, op) && WellFormed(L, h')
  }

  /** Freeing block 0 merges nothing if its successor is live. */
  lemma FreeFront(L: Layout, h: Heap)
    requires L.Valid() && WellFormed(L, h) && Live(h.blocks, 0) && Live(h.blocks, End(h.blocks, 0))
    ensures Step(L, h, Free(0)) == Release(h, 0)
  {
    hide InsertBin, WellFormed;
    DeallocateKeeps(L, h, 0);
    forall p | p in h.blocks ensures End(h.blocks, p) != 0 { BlockPositive(L, h, p); }
    assert MergeNext(h, 0) == h;
    assert MergeStart(h.blocks, 0) == 0;
    assert MergePrev(h, 0) == h;
  }

  lemma Freed(L: Layout, s: nat, m: nat)
    requires L.Valid() && 0 < s && 0 < m && s + m + L.MinBlock() < L.pool && WellFormed(L, Ready(L, s, m))
    ensures RunStep(L, Ready(L, s, m), Free(0), FirstFreed(L, s, m))
  {
    hide InsertBin, WellFormed, Step, Release;
    var h := Ready(L, s, m);
    assert Live(h.blocks, 0) && End(h.blocks, 0) == s && Live(h.blocks, s);
    FreeFront(L, h);
    StepKeeps(L, h, Free(0));
  }

  lemma FrontSteps(L: Layout, s: nat)
    requires L.Valid() && s % 8 == 0 && L.MinBlock() <= s && s + 2 * L.MinBlock() + 64 <= L.pool
    ensures var (q, t) := (L.MinBlock(), map[0 := Block(s, false)]);
            && Only(map[], 0, L.pool) == Fresh(L)
            && RunStep(L, Only(map[], 0, L.pool), Alloc(8), Only(map[0 := Block(q, false)], q, L.pool - q))
            && RunStep(L, Only(map[0 := Block(q, false)], q, L.pool - q), Realloc(0, 8, s - HEADER),
                       Only(t, s, L.pool - s))
  {
    hide InsertBin, WellFormed, Step, Required;
    var q, t := L.MinBlock(), map[0 := Block(s, false)];
    assert Only(map[], 0, L.pool) == Fresh(L) by { assert [0] + NoLists()[InsertBin(L.pool)] == [0]; }
    FreshKeeps(L);
    AllocLeast(L, map[], 0, L.pool);
    assert map[][0 := Block(q, false)] == map[0 := Block(q, false)];
    GrowLast(L, map[0 := Block(q, false)], 0, L.pool - q, s);
    assert map[0 := Block(q, false)][0 := Block(s, false)] == t;
  }

  lemma BackSteps(L: Layout, s: nat, m: nat)
    requires L.Valid() && s % 8 == 0 && m % 8 == 0 && L.MinBlock() <= s && L.MinBlock() <= m
    requires s + m + L.MinBlock() + 64 <= L.pool && WellFormed(L, Only(map[0 := Block(s, false)], s, L.pool - s))
    ensures var (q, t) := (L.MinBlock(), map[0 := Block(s, false)]);
            && RunStep(L, Only(t, s, L.pool - s), Alloc(8), Only(t[s := Block(q, false)], s + q, L.pool - s - q))
            && RunStep(L, Only(t[s := Block(q, false)], s + q, L.pool - s - q), Realloc(s, 8, m - HEADER),
                       Only(t[s := Block(m, false)], s + m, L.pool - s - m))
            && RunStep(L, Only(t[s := Block(m, false)], s + m, L.pool - s - m), Alloc(8),
                       Ready(L, s, m))
  {
    hide InsertBin, WellFormed, Step, Required;
    var q, t: Tiling := L.MinBlock(), map[0 := Block(s, false)];
    AllocLeast(L, t, s, L.pool - s);
    GrowLast(L, t[s := Block(q, false)], s, L.pool - s - q, m);
    assert t[s := Block(q, false)][s := Block(m, false)] == t[s := Block(m, false)];
    AllocLeast(L, t[s := Block(m, false)], s + m, L.pool - s - m);
    assert t[s := Block(m, false)][s + m := Block(q, false)] == Prepared(L, s, m);
  }

  /** The six calls make any two block sizes from reset, the first one free, in every pool with 64 bytes to spare. */
  lemma Reached(L: Layout, s: nat, m: nat)
    requires L.Valid() && s % 8 == 0 && m % 8 == 0 && L.MinBlock() <= s && L.MinBlock() <= m
    requires s + m + L.MinBlock() + 64 <= L.pool
    ensures IsRun(L, Calls(s, m), States(L, s, m)) && WellFormed(L, FirstFreed(L, s, m))
  {
    hide InsertBin, WellFormed, Step, Enabled, Only, Ready, FirstFreed, Fresh;
    FrontSteps(L, s);
    BackSteps(L, s, m);
    Freed(L, s, m);
    var ops, hs := Calls(s, m), States(L, s, m);
    forall i | 0 <= i < |ops| ensures RunStep(L, hs[i], ops[i], hs[i + 1]) {
      assert i == 0 || i == 1 || i == 2 || i == 3 || i == 4 || i == 5;
    }
  }

  // ----- What goes wrong is reached

  ghost predicate Reachable(L: Layout, h: Heap)
    requires L.Valid()
  {
    exists ops, hs :: IsRun(L, ops, hs) && hs[|ops|] == h
  }

  /** An allocation for which the search is not exact then takes block 0. */
  lemma TakesFront(L: Layout, s: nat, m: nat, size: nat)
    requires L.Valid() && 0 < size <= L.pool - HEADER && !Exact(Required(L, size))
    requires s == LeastFound(L.MinBlock(), Required(L, size)) && s + m + L.MinBlock() + 64 <= L.pool
    ensures CanAllocate(L, FirstFreed(L, s, m), size) && Chosen(L, FirstFreed(L, s, m), size) == 0
  {
    hide InsertBin, SearchBin, Required, Exact, LeastFound;
    var h, r, z := FirstFreed(L, s, m), Required(L, size), L.pool - s - m - L.MinBlock();
    RequiredAligned(L, size);
    LeastIsFound(L.MinBlock(), r);
    BinLarge(z);
    forall j | SearchBin(r) <= j < InsertBin(s) ensures h.lists[j] == [] { assert NoLists()[j] == []; }
    FirstBinIs(h.lists, SearchBin(r), InsertBin(s));
  }

  lemma ReachedTooSmall(L: Layout, size: nat) returns (h: Heap)
    requires L.Valid() && 0 < size <= L.pool - HEADER && !Exact(Required(L, size)) && L.pool >= 136
    ensures Reachable(L, h) && TooSmall(L, h, size)
  {
    hide InsertBin, SearchBin, Required, Exact, LeastFound, WellFormed, IsRun, Calls, CanAllocate, Chosen;
    var r, q := Required(L, size), L.MinBlock();
    RequiredAligned(L, size);
    RequiredFits(L, size, L.pool);
    LeastIsFound(q, r);
    var s := LeastFound(q, r);
    h := FirstFreed(L, s, q);
    Reached(L, s, q);
    RunEnds(L, s, q);
    TakesFront(L, s, q, size);
  }

  lemma RunEnds(L: Layout, s: nat, m: nat)
    requires L.Valid() && s >= HEADER && m >= HEADER
    requires s + m + L.MinBlock() <= L.pool && 2 * L.MinBlock() <= L.pool && s + L.MinBlock() <= L.pool
    requires IsRun(L, Calls(s, m), States(L, s, m))
    ensures Reachable(L, FirstFreed(L, s, m))
  {
    hide IsRun, Only, FirstFreed;
    assert States(L, s, m)[|Calls(s, m)|] == FirstFreed(L, s, m);
  }

  /** Exactly the sizes for which allocate comes to hand out too small a block in some run from reset. */
  lemma TooSmallReached(L: Layout, size: nat)
    requires L.Valid() && 0 < size <= L.pool - HEADER && L.pool >= 136
    ensures (exists h :: Reachable(L, h) && TooSmall(L, h, size)) <==> !Exact(Required(L, size))
  {
    hide Exact, Required, CanAllocate, WellFormed, Reachable;
    forall h | Reachable(L, h) && TooSmall(L, h, size) ensures !Exact(Required(L, size)) {
      if Exact(Required(L, size)) { ChosenFits(L, h, size); }
    }
    if !Exact(Required(L, size)) {
      var h := ReachedTooSmall(L, size);
    }
  }

  lemma FreedBlocks(L: Layout, s: nat, m: nat)
    requires L.Valid() && 0 < s && 0 < m && s + m + L.MinBlock() <= L.pool
    ensures var t := FirstFreed(L, s, m).blocks;
            0 in t && t[0] == Block(s, true) && s in t && t[s] == Block(m, false) && SealedAfter(t, s)
  {
    hide InsertBin, Enlist;
  }

  /** Every size that may overrun comes to overrun in some run from reset, in pools with 96 bytes to spare. */
  lemma OverrunReached(L: Layout, nsize: nat) returns (h: Heap, b: nat)
    requires L.Valid() && nsize > 0 && MayOverrun(L, nsize)
    requires 2 * LeastFound(L.MinBlock(), Required(L, nsize)) + 96 <= L.pool
    ensures Reachable(L, h) && OverrunsIn(L, h, b, nsize, nsize)
  {
    hide InsertBin, SearchBin, Required, Exact, LeastFound, WellFormed, IsRun, Calls, CanAllocate, Chosen, Overruns;
    hide Reachable, States, FirstFreed, Enlist;
    var r, q := Required(L, nsize), L.MinBlock();
    RequiredAligned(L, nsize);
    LeastIsFound(q, r);
    var s := LeastFound(q, r);
    h, b := FirstFreed(L, s, s + 8), s;
    Reached(L, s, s + 8);
    RunEnds(L, s, s + 8);
    TakesFront(L, s, s + 8, nsize);
    FreedBlocks(L, s, s + 8);
    OverrunInto(L, h, b, nsize);
  }
}
