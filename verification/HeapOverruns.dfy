/** When the memcpy of reallocate leaves the block it copies into (runtime/lua_heap.hpp:366-374). */
module HeapOverruns {
  import opened TlsfMapping
  import opened FreeLists
  import opened HeapModel
  import opened HeapOps
  import opened HeapEffects
  import opened HeapTheorems

  // ----- The condition a caller can check

  /** Room for two blocks in the pool: a free one that the search for r bytes finds, and a larger one that is still
      smaller than r. The free one has s bytes or more. */
  predicate Room(L: Layout, r: nat, s: nat)
  {
    && r <= L.pool && s + 16 <= r && 2 * s + 8 <= L.pool
    && (L.pool <= s + r - 8 || 2 * s + 8 + L.MinBlock() <= L.pool)
  }

  /** What a size and a pool need for a move to overrun. */
  predicate MayOverrun(L: Layout, nsize: nat)
    requires L.Valid()
  {
    var r := Required(L, nsize);
    !Exact(r) && Room(L, r, LeastFound(L.MinBlock(), r))
  }

  /** An overrun copies a larger block into a smaller one, which is too small for the request. */
  lemma OverrunBlocks(L: Layout, h: Heap, b: nat, osize: nat, nsize: nat) returns (c: nat)
    requires L.Valid() && WellFormed(L, h) && Live(h.blocks, b) && Overruns(L, h, b, osize, nsize)
    ensures CanAllocate(L, h, nsize) && c == Chosen(L, h, nsize) && c in h.blocks && h.blocks[c].free && c != b
    ensures InsertBin(h.blocks[c].size) >= SearchBin(Required(L, nsize)) && nsize <= L.pool - HEADER
    ensures h.blocks[c].size + 8 <= h.blocks[b].size <= Required(L, nsize) - 8
  {
    hide InsertBin, SearchBin, WellFormed, Carve, Required, Trim, FirstBin, CanGrow, LiveOf;
    BlockPositive(L, h, b);
    ChosenIsFree(L, h, nsize);
    c := Chosen(L, h, nsize);
    BlockPositive(L, h, c);
    CarveKeeps(L, h, c, Required(L, nsize));
    EightLess(h.blocks[b].size, nsize, Required(L, nsize));
    EightLess(h.blocks[c].size, h.blocks[b].size - 8, h.blocks[b].size);
  }

  lemma EightLess(x: nat, n: int, r: nat)
    requires x % 8 == 0 && r % 8 == 0 && x - 8 < n && n + 8 <= r
    ensures x <= r - 8
  {
  }

  /** Two blocks fill the pool or leave room for a third. */
  lemma TwoInPool(L: Layout, t: Tiling, a: nat, b: nat)
    requires L.Valid() && Tiles(L, t) && a in t && b in t && a < b
    ensures t[a].size + t[b].size == L.pool || t[a].size + t[b].size + L.MinBlock() <= L.pool
  {
    assert BlockFits(L, t, a) && BlockFits(L, t, b) && InOrder(t, a, b);
    if a > 0 { assert BlockFits(L, t, 0) && InOrder(t, 0, a); }
    if End(t, a) < b { assert BlockFits(L, t, End(t, a)) && InOrder(t, End(t, a), b); }
    if End(t, b) < L.pool { assert BlockFits(L, t, End(t, b)); }
  }

  /** An overrun needs a size for which the search is not exact, and one in row 0 needs a free block below 32 bytes.
      With 8-byte links a least block has 24 bytes, which is enough for whatever is moved to 32. */
  lemma OverrunNeeds(L: Layout, h: Heap, b: nat, osize: nat, nsize: nat)
    requires L.Valid() && WellFormed(L, h) && Live(h.blocks, b) && Overruns(L, h, b, osize, nsize)
    ensures !Exact(Required(L, nsize)) && (Required(L, nsize) < 64 ==> !NoSmallBlocks(h.blocks))
    ensures !(Required(L, nsize) == 32 && L.ptr == 8)
    ensures MayOverrun(L, nsize)
  {
    hide InsertBin, SearchBin, WellFormed, Overruns, CanAllocate, Chosen, NoSmallBlocks, Exact, Required, LeastFound;
    var r := Required(L, nsize);
    var c := OverrunBlocks(L, h, b, osize, nsize);
    ExactOrRowZero(r);
    if Exact(r) || (32 <= r < 64 && NoSmallBlocks(h.blocks)) { ChosenFits(L, h, nsize); }
    BlockPositive(L, h, b);
    BlockPositive(L, h, c);
    RequiredFits(L, nsize, L.pool);
    TilingOf(L, h);
    TwoInPool(L, h.blocks, if b < c then b else c, if b < c then c else b);
    RoomFor(L, r, h.blocks[c].size, h.blocks[b].size);
  }

  lemma TilingOf(L: Layout, h: Heap)
    requires WellFormed(L, h)
    ensures Tiles(L, h.blocks)
  {
  }

  lemma ExactOrRowZero(r: nat)
    ensures r < 32 ==> Exact(r)
  {
  }

  /** If two such blocks fit, then so they do with the least free one. */
  lemma RoomFor(L: Layout, r: nat, s: nat, m: nat)
    requires L.Valid() && !Exact(r) && r % 8 == 0 && s % 8 == 0 && m % 8 == 0 && r <= L.pool
    requires L.MinBlock() <= s && s + 8 <= m <= r - 8 && InsertBin(s) >= SearchBin(r)
    requires s + m == L.pool || s + m + L.MinBlock() <= L.pool
    ensures Room(L, r, LeastFound(L.MinBlock(), r))
  {
    hide InsertBin, SearchBin, LeastFound;
    NoneLess(L.MinBlock(), r, s);
    LeastIsFound(L.MinBlock(), r);
    if r < 64 && 32 <= s { InRowZero(r); SearchIsExact(r, s); }
  }

  lemma InRowZero(r: nat)
    requires !Exact(r)
    ensures r >= 32
  {
  }

  // ----- Every such size can overrun

  /** A free block of s bytes, the block to be moved, and the rest of the pool allocated. */
  function ThreeBlocks(L: Layout, s: nat, m: nat): Heap
    requires s + m <= L.pool
  {
    Heap(map[0 := Block(s, true), s := Block(m, false), s + m := Block(L.pool - s - m, false)],
         Enlist(NoLists(), InsertBin(s), 0))
  }

  lemma ThreeBlocksKeep(L: Layout, s: nat, m: nat)
    requires L.Valid() && s % 8 == 0 && m % 8 == 0 && L.MinBlock() <= s && L.MinBlock() <= m
    requires s + m + L.MinBlock() <= L.pool
    ensures WellFormed(L, ThreeBlocks(L, s, m))
  {
    hide InsertBin, Tiles, Coalesced, Filed;
    ThreeBlocksFit(L, s, m);
    ThreeBlocksInOrder(L, s, m);
    ThreeBlocksFiled(L, s, m);
    ThreeBlocksTile(L, ThreeBlocks(L, s, m).blocks);
  }

  lemma ThreeBlocksTile(L: Layout, t: Tiling)
    requires 0 in t && forall b | b in t :: BlockFits(L, t, b) && Apart(t, b)
    requires forall a, b | a in t && b in t :: InOrder(t, a, b)
    ensures Tiles(L, t) && Coalesced(t)
  {
  }

  lemma ThreeBlocksFit(L: Layout, s: nat, m: nat)
    requires L.Valid() && s % 8 == 0 && m % 8 == 0 && L.MinBlock() <= s && L.MinBlock() <= m
    requires s + m + L.MinBlock() <= L.pool
    ensures var t := ThreeBlocks(L, s, m).blocks; forall b | b in t :: BlockFits(L, t, b) && Apart(t, b)
  {
    hide InsertBin;
  }

  lemma ThreeBlocksInOrder(L: Layout, s: nat, m: nat)
    requires 0 < s && 0 < m && s + m <= L.pool
    ensures var t := ThreeBlocks(L, s, m).blocks; forall a, b | a in t && b in t :: InOrder(t, a, b)
  {
    hide InsertBin;
  }

  lemma ThreeBlocksFiled(L: Layout, s: nat, m: nat)
    requires 0 < s && 0 < m && s + m <= L.pool
    ensures Filed(ThreeBlocks(L, s, m).blocks, ThreeBlocks(L, s, m).lists)
  {
    hide InsertBin;
    var h, k := ThreeBlocks(L, s, m), InsertBin(s);
    assert h.lists[k] == [0] by { assert NoLists()[k] == []; }
    forall j | 0 <= j < BIN_COUNT && j != k ensures h.lists[j] == [] { assert NoLists()[j] == []; }
  }

  /** Moving block b copies what it holds into the free block at 0, which is smaller. */
  lemma OverrunInto(L: Layout, h: Heap, b: nat, nsize: nat)
    requires L.Valid() && WellFormed(L, h) && Live(h.blocks, b) && SealedAfter(h.blocks, b)
    requires 0 in h.blocks && h.blocks[0].free && h.blocks[0].size + 8 <= h.blocks[b].size <= Required(L, nsize) - 8
    requires CanAllocate(L, h, nsize) && Chosen(L, h, nsize) == 0
    ensures Overruns(L, h, b, nsize, nsize)
  {
    hide InsertBin, SearchBin, WellFormed, Carve, CanAllocate, Chosen;
    BlockPositive(L, h, b);
    CarveKeeps(L, h, 0, Required(L, nsize));
  }

  /** For every size that may overrun there is a heap in which it does. */
  lemma OverrunExists(L: Layout, nsize: nat) returns (h: Heap, b: nat)
    requires L.Valid() && nsize > 0 && MayOverrun(L, nsize)
    ensures WellFormed(L, h) && Live(h.blocks, b) && Overruns(L, h, b, nsize, nsize)
  {
    hide InsertBin, SearchBin, Exact, LeastFound, Required, Overruns, WellFormed;
    var r := Required(L, nsize);
    var s := LeastFound(L.MinBlock(), r);
    LeastIsFound(L.MinBlock(), r);
    b := s;
    if L.pool <= s + r - 8 {
      h := TwoBlocks(L, s);
      TwoBlocksKeep(L, s);
    } else {
      h := ThreeBlocks(L, s, s + 8);
      ThreeBlocksKeep(L, s, s + 8);
    }
    assert forall j | 0 <= j < BIN_COUNT && j != InsertBin(s) :: NoLists()[j] == [];
    FirstBinIs(h.lists, SearchBin(r), InsertBin(s));
    assert Chosen(L, h, nsize) == 0;
    OverrunInto(L, h, b, nsize);
  }

  ghost predicate OverrunsIn(L: Layout, h: Heap, b: nat, osize: nat, nsize: nat)
    requires L.Valid()
  {
    WellFormed(L, h) && Live(h.blocks, b) && Overruns(L, h, b, osize, nsize)
  }

  /** Exactly the sizes and pools for which moving a block can overrun. */
  lemma OverrunIff(L: Layout, nsize: nat)
    requires L.Valid() && nsize > 0
    ensures (exists h, b, osize :: OverrunsIn(L, h, b, osize, nsize)) <==> MayOverrun(L, nsize)
  {
    hide MayOverrun, Overruns, WellFormed;
    forall h, b, osize | OverrunsIn(L, h, b, osize, nsize) ensures MayOverrun(L, nsize) {
      OverrunNeeds(L, h, b, osize, nsize);
    }
    if MayOverrun(L, nsize) {
      var h, b := OverrunExists(L, nsize);
      assert OverrunsIn(L, h, b, nsize, nsize);
    }
  }

  /** In a pool of up to 2^18 bytes, such as the 32 KB one of the target, these are sizes of 32 to 56 bytes. */
  lemma OverrunsAreSmall(L: Layout, nsize: nat)
    requires L.Valid() && MayOverrun(L, nsize) && L.pool <= 0x40000
    ensures 32 <= Required(L, nsize) <= 56
  {
    hide InsertBin, SearchBin, Required;
    var r := Required(L, nsize);
    RequiredAligned(L, nsize);
    if r >= 64 { SearchHigh(r); }
  }

  // ----- A run that reaches an overrun

  function Over2(): Heap
  {
    Heap(map[0 := Block(24, false), 24 := Block(48, false), 72 := Block(32696, true)], NoLists()[159 := [72]])
  }

  function Over3(): Heap
  {
    Heap(map[0 := Block(24, false), 24 := Block(48, false), 72 := Block(24, false), 96 := Block(32672, true)],
         NoLists()[159 := [96]])
  }

  function Over4(): Heap
  {
    Heap(map[0 := Block(24, true), 24 := Block(48, false), 72 := Block(24, false), 96 := Block(32672, true)],
         NoLists()[159 := [96]][12 := [0]])
  }

  lemma OverBins()
    ensures InsertBin(32744) == 159 && InsertBin(32696) == 159 && InsertBin(32672) == 159 && InsertBin(24) == 12
  {
    Pow2Values();
    MsbUnique(32744, 14); MsbUnique(32696, 14); MsbUnique(32672, 14);
  }

  lemma OverSearches()
    ensures SearchBin(24) == 12 && SearchBin(48) == 8 && SearchBin(56) == 12
  {
    Pow2Values();
    MsbUnique(48, 5); MsbUnique(49, 5); MsbUnique(56, 5); MsbUnique(57, 5);
  }

  lemma OverSizes()
    ensures TARGET.Valid() && TARGET.MinBlock() == 16
    ensures Required(TARGET, 16) == 24 && Required(TARGET, 40) == 48 && Required(TARGET, 48) == 56
  {
    TargetIsValid();
  }

  lemma OverSteps()
    requires TARGET.Valid() && WellFormed(TARGET, Run1())
    ensures Step(TARGET, Run1(), Alloc(40)) == Over2() && WellFormed(TARGET, Over2())
    ensures Step(TARGET, Over2(), Alloc(16)) == Over3() && WellFormed(TARGET, Over3())
  {
    hide InsertBin, SearchBin, Required, WellFormed, Step;
    OverSizes();
    OverBins();
    OverSearches();
    AllocateFirst(TARGET, Run1(), 24, 32744, 159, 40, 48);
    StepKeeps(TARGET, Run1(), Alloc(40));
    assert Step(TARGET, Run1(), Alloc(40)) == Over2();
    AllocateFirst(TARGET, Over2(), 72, 32696, 159, 16, 24);
    StepKeeps(TARGET, Over2(), Alloc(16));
    assert Step(TARGET, Over2(), Alloc(16)) == Over3();
  }

  lemma OverFree()
    requires TARGET.Valid() && WellFormed(TARGET, Over3())
    ensures Live(Over3().blocks, 0) && Step(TARGET, Over3(), Free(0)) == Over4() && WellFormed(TARGET, Over4())
  {
    hide InsertBin, WellFormed;
    OverBins();
    DeallocateKeeps(TARGET, Over3(), 0);
    assert MergeNext(Over3(), 0) == Over3();
    assert MergeStart(Over3().blocks, 0) == 0;
    assert MergePrev(Over3(), 0) == Over3();
    assert NoLists()[12] == [];
    assert [0] + [] == [0];
  }

  lemma OverLast()
    requires TARGET.Valid() && WellFormed(TARGET, Over4())
    ensures Live(Over4().blocks, 24) && Overruns(TARGET, Over4(), 24, 40, 48)
  {
    hide InsertBin, SearchBin, Required, WellFormed;
    OverSizes();
    OverBins();
    OverSearches();
    assert forall j | 0 <= j < BIN_COUNT :: NoLists()[j] == [];
    FirstBinIs(Over4().lists, 12, 12);
    assert Chosen(TARGET, Over4(), 48) == 0;
    CarveKeeps(TARGET, Over4(), 0, 56);
  }

  /** From reset: allocate 16, 40 and 16 bytes and free the first. Moving the second, with its 40 bytes, to 48 then
      copies 40 bytes into a payload of 16, over the header of the block being moved. */
  lemma OverrunRun()
    ensures TARGET.Valid()
    ensures IsRun(TARGET, [Alloc(16), Alloc(40), Alloc(16), Free(0)], [Run0(), Run1(), Over2(), Over3(), Over4()])
    ensures OverrunsIn(TARGET, Over4(), 24, 40, 48)
  {
    hide InsertBin, WellFormed, Step, Required, Fresh, Overruns, Run0, Run1, Over2, Over3, Over4;
    TargetIsValid();
    FirstStep();
    OverSteps();
    OverFree();
    OverLast();
    var ops, hs := [Alloc(16), Alloc(40), Alloc(16), Free(0)], [Run0(), Run1(), Over2(), Over3(), Over4()];
    forall i | 0 <= i < |ops|
      ensures WellFormed(TARGET, hs[i]) && Enabled(TARGET, hs[i], ops[i]) && hs[i + 1] == Step(TARGET, hs[i], ops[i])
    {
      assert i == 0 || i == 1 || i == 2 || i == 3;
    }
  }
}
