/** Results about whole runs of LuaHeap, stated on the tiling that its bytes represent. */
module HeapTheorems {
  import opened ByteMemory
  import opened TlsfMapping
  import opened FreeLists
  import opened HeapModel
  import opened HeapOps
  import opened HeapAccounting
  import opened HeapEffects
  import opened LuaHeap

  // ----- The two-level search

  ghost predicate NoSmallBlocks(t: Tiling)
  {
    forall b | b in t && t[b].free :: t[b].size >= 32
  }

  /** The block taken by allocate holds the request, unless the request lies in [32, 64) while blocks
      below 32 bytes are free, or its rounded-up size leaves the table. */
  lemma ChosenFits(L: Layout, h: Heap, size: nat)
    requires L.Valid() && WellFormed(L, h) && CanAllocate(L, h, size)
    requires var r := Required(L, size); Exact(r) || (32 <= r < 64 && NoSmallBlocks(h.blocks))
    ensures Chosen(L, h, size) in h.blocks && h.blocks[Chosen(L, h, size)].size >= Required(L, size)
  {
    hide InsertBin, SearchBin, Required;
    ChosenIsFree(L, h, size);
    var b, r := Chosen(L, h, size), Required(L, size);
    BlockPositive(L, h, b);
    RequiredAligned(L, size);
    SearchIsExact(r, h.blocks[b].size);
  }

  lemma RequiredAligned(L: Layout, size: nat)
    requires L.Valid()
    ensures Required(L, size) % 8 == 0
  {
  }

  /** A free block that the search for r bytes finds. */
  ghost predicate FoundIn(h: Heap, r: nat, b: nat)
  {
    b in h.blocks && h.blocks[b].free && Finds(r, h.blocks[b].size)
  }

  /** Below 2^18 bytes a request is granted exactly when some free block has a size that the search finds. */
  lemma GrantedIff(L: Layout, h: Heap, size: nat)
    requires L.Valid() && WellFormed(L, h) && L.pool < 0x40000
    ensures CanAllocate(L, h, size) <==>
              0 < size <= L.pool - HEADER && exists b :: FoundIn(h, Required(L, size), b)
  {
    hide InsertBin, SearchBin, Required, Finds, FirstBin;
    if 0 < size <= L.pool - HEADER {
      var r := Required(L, size);
      RequiredAligned(L, size);
      RequiredFits(L, size, L.pool);
      if CanAllocate(L, h, size) {
        ChosenIsFree(L, h, size);
        var b := Chosen(L, h, size);
        BlockPositive(L, h, b);
        FindsIff(r, h.blocks[b].size);
        assert FoundIn(h, r, b);
      }
      if b :| FoundIn(h, r, b) {
        BlockPositive(L, h, b);
        FindsIff(r, h.blocks[b].size);
        FreeIsListed(L, h, b);
        assert h.lists[InsertBin(h.blocks[b].size)] != [];
      }
    }
  }

  /** So a request of 64 to MAX_EXACT bytes is granted as soon as some free block has a sixteenth more than it needs. */
  lemma EnoughIsGranted(L: Layout, h: Heap, size: nat, b: nat)
    requires L.Valid() && WellFormed(L, h) && L.pool < 0x40000 && b in h.blocks && h.blocks[b].free
    requires var r := Required(L, size); 64 <= r <= MAX_EXACT && h.blocks[b].size >= r + r / 16
    ensures CanAllocate(L, h, size)
  {
    hide InsertBin, SearchBin, Required, RoundedUp;
    var r := Required(L, size);
    BlockPositive(L, h, b);
    SizeWithin(L, size);
    RoundedBelow(r);
    assert FoundIn(h, r, b);
    GrantedIff(L, h, size);
  }

  lemma SizeWithin(L: Layout, size: nat)
    requires L.Valid() && Required(L, size) >= 64
    ensures 0 < size && size + HEADER <= Required(L, size)
  {
  }

  /** ... and a fresh heap grants it if the pool has that much. */
  lemma FreshGrants(L: Layout, size: nat)
    requires L.Valid() && L.pool < 0x40000
    requires var r := Required(L, size); 64 <= r && r + r / 16 <= L.pool
    ensures CanAllocate(L, Fresh(L), size) && Chosen(L, Fresh(L), size) == 0
  {
    hide InsertBin, SearchBin, Required;
    FreshKeeps(L);
    EnoughIsGranted(L, Fresh(L), size, 0);
    ChosenIsFree(L, Fresh(L), size);
  }

  /** For every other request there is a well-formed heap in which allocate hands out too small a block, as soon as
      the pool has room for two blocks. */
  lemma ChosenTooSmall(L: Layout, size: nat) returns (h: Heap)
    requires L.Valid() && 0 < size <= L.pool - HEADER && !Exact(Required(L, size)) && 2 * L.MinBlock() <= L.pool
    ensures WellFormed(L, h) && CanAllocate(L, h, size)
    ensures Chosen(L, h, size) in h.blocks && h.blocks[Chosen(L, h, size)].size < Required(L, size)
  {
    hide InsertBin, SearchBin, Required, Align8, LeastFound;
    RequiredAligned(L, size);
    var r := Required(L, size);
    RequiredFits(L, size, L.pool);
    var s := LeastFound(L.MinBlock(), r);
    LeastIsFound(L.MinBlock(), r);
    h := TwoBlocks(L, s);
    TwoBlocksKeep(L, s);
    FirstBinIs2(L, h, s, SearchBin(r));
    ChosenIsFree(L, h, size);
  }

  /** In a pool with no room for two blocks there is one block, which fits every request. */
  lemma OneBlockFits(L: Layout, h: Heap, size: nat)
    requires L.Valid() && WellFormed(L, h) && CanAllocate(L, h, size) && L.pool < 2 * L.MinBlock()
    ensures Chosen(L, h, size) in h.blocks && h.blocks[Chosen(L, h, size)].size >= Required(L, size)
  {
    hide InsertBin, SearchBin, Required, Align8;
    ChosenIsFree(L, h, size);
    var b := Chosen(L, h, size);
    BlockPositive(L, h, b);
    BlockPositive(L, h, 0);
    assert InOrder(h.blocks, 0, b);
    if End(h.blocks, 0) in h.blocks { BlockPositive(L, h, End(h.blocks, 0)); }
    RequiredFits(L, size, L.pool);
  }

  ghost predicate TooSmall(L: Layout, h: Heap, size: nat)
    requires L.Valid()
  {
    && WellFormed(L, h) && CanAllocate(L, h, size) && Chosen(L, h, size) in h.blocks
    && h.blocks[Chosen(L, h, size)].size < Required(L, size)
  }

  /** Exactly the sizes for which allocate can hand out too small a block. */
  lemma TooSmallIff(L: Layout, size: nat)
    requires L.Valid() && 0 < size <= L.pool - HEADER
    ensures (exists h :: TooSmall(L, h, size)) <==> !Exact(Required(L, size)) && 2 * L.MinBlock() <= L.pool
  {
    hide Exact, Required, CanAllocate, WellFormed;
    forall h | TooSmall(L, h, size) ensures !Exact(Required(L, size)) && 2 * L.MinBlock() <= L.pool {
      if Exact(Required(L, size)) { ChosenFits(L, h, size); }
      if L.pool < 2 * L.MinBlock() { OneBlockFits(L, h, size); }
    }
    if !Exact(Required(L, size)) && 2 * L.MinBlock() <= L.pool {
      var h := ChosenTooSmall(L, size);
      assert TooSmall(L, h, size);
    }
  }

  /** A free block of s bytes in front of one allocated block. */
  function TwoBlocks(L: Layout, s: nat): Heap
    requires s <= L.pool
  {
    Heap(map[0 := Block(s, true), s := Block(L.pool - s, false)], Enlist(NoLists(), InsertBin(s), 0))
  }

  lemma TwoBlocksKeep(L: Layout, s: nat)
    requires L.Valid() && s % 8 == 0 && L.MinBlock() <= s && s + L.MinBlock() <= L.pool
    ensures WellFormed(L, TwoBlocks(L, s))
  {
    hide InsertBin;
    var h := TwoBlocks(L, s);
    var t, k := h.blocks, InsertBin(s);
    forall b | b in t ensures BlockFits(L, t, b) && Apart(t, b) {}
    forall a, b | a in t && b in t ensures InOrder(t, a, b) {}
    assert h.lists[k] == [0] by { assert NoLists()[k] == []; }
    forall j | 0 <= j < BIN_COUNT && j != k ensures h.lists[j] == [] { assert NoLists()[j] == []; }
  }

  lemma FirstBinIs2(L: Layout, h: Heap, s: nat, k: nat)
    requires s <= L.pool && h == TwoBlocks(L, s) && k <= InsertBin(s)
    ensures FirstBin(h.lists, k) == InsertBin(s)
  {
    hide InsertBin;
    assert forall j | 0 <= j < BIN_COUNT && j != InsertBin(s) :: NoLists()[j] == [];
    FirstBinIs(h.lists, k, InsertBin(s));
  }

  // ----- Runs

  datatype Op = Alloc(size: nat) | Free(b: nat) | Realloc(b: nat, osize: nat, nsize: nat) | Reset

  /** The heap after reallocating live block b to nsize > 0 bytes, when the copy fits. */
  ghost function ResizeTo(L: Layout, h: Heap, b: nat, osize: nat, nsize: nat): Heap
    requires L.Valid() && WellFormed(L, h) && Live(h.blocks, b) && !Overruns(L, h, b, osize, nsize)
  {
    BlockPositive(L, h, b);
    if nsize <= h.blocks[b].size - HEADER then h
    else if CanGrow(h, b, nsize) then GrowKeeps(L, h, b, nsize); Grow(L, h, b, nsize)
    else if !CanAllocate(L, h, nsize) then h
    else
      ChosenIsFree(L, h, nsize);
      var c := Chosen(L, h, nsize);
      CarveKeeps(L, h, c, Required(L, nsize));
      var h1 := Carve(L, h, c, Required(L, nsize));
      StillLive(h, h1, b, c);
      DeallocateKeeps(L, h1, b);
      HeapOps.Deallocate(h1, b)
  }

  ghost function Step(L: Layout, h: Heap, op: Op): Heap
    requires L.Valid() && WellFormed(L, h) && Enabled(L, h, op)
  {
    match op
    case Alloc(size) =>
      if CanAllocate(L, h, size) then
        ChosenIsFree(L, h, size);
        Carve(L, h, Chosen(L, h, size), Required(L, size))
      else h
    case Free(b) => DeallocateKeeps(L, h, b); HeapOps.Deallocate(h, b)
    case Realloc(b, osize, nsize) =>
      if nsize == 0 then DeallocateKeeps(L, h, b); HeapOps.Deallocate(h, b) else ResizeTo(L, h, b, osize, nsize)
    case Reset => Fresh(L)
  }

  /** Only live blocks are freed or resized, and no copy leaves its block to write over the header behind it. */
  ghost predicate Enabled(L: Layout, h: Heap, op: Op)
    requires L.Valid() && WellFormed(L, h)
  {
    match op
    case Alloc(_) => true
    case Free(b) => Live(h.blocks, b)
    case Realloc(b, osize, nsize) => Live(h.blocks, b) && (nsize == 0 || !Overruns(L, h, b, osize, nsize))
    case Reset => true
  }

  lemma StepKeeps(L: Layout, h: Heap, op: Op)
    requires L.Valid() && WellFormed(L, h) && Enabled(L, h, op)
    ensures WellFormed(L, Step(L, h, op))
  {
    hide InsertBin, WellFormed, Carve, Grow, HeapOps.Deallocate, Required, SearchBin, Overruns;
    match op
    case Alloc(size) =>
      if CanAllocate(L, h, size) {
        ChosenIsFree(L, h, size);
        RequiredAligned(L, size);
        CarveKeeps(L, h, Chosen(L, h, size), Required(L, size));
      }
    case Free(b) => DeallocateKeeps(L, h, b);
    case Realloc(b, osize, nsize) =>
      if nsize == 0 { DeallocateKeeps(L, h, b); } else { var c, s := ResizeKeeps(L, h, b, osize, nsize); }
    case Reset => FreshKeeps(L);
  }

  /** Resizing is all a client sees: block b now lives at c with s bytes, every other block as before.
      It stays in place unless a new block was found, and in place it holds nsize bytes if it grew; a new block
      holds what is copied into it. */
  lemma ResizeKeeps(L: Layout, h: Heap, b: nat, osize: nat, nsize: nat) returns (c: nat, s: nat)
    requires L.Valid() && WellFormed(L, h) && Live(h.blocks, b) && !Overruns(L, h, b, osize, nsize)
    ensures WellFormed(L, ResizeTo(L, h, b, osize, nsize))
    ensures LiveOf(ResizeTo(L, h, b, osize, nsize).blocks) == (LiveOf(h.blocks) - {b})[c := s]
    ensures c == b || c !in LiveOf(h.blocks)
    ensures c == b ==> s == h.blocks[b].size || s >= nsize + HEADER
    ensures c != b ==> h.blocks[b].size >= HEADER && s >= HEADER + CopySize(h.blocks[b].size - HEADER, osize, nsize)
  {
    hide InsertBin, WellFormed, Carve, Grow, HeapOps.Deallocate, Required, SearchBin;
    BlockPositive(L, h, b);
    c, s := b, h.blocks[b].size;
    if nsize <= h.blocks[b].size - HEADER {
    } else if CanGrow(h, b, nsize) {
      GrowKeeps(L, h, b, nsize);
      s := Grow(L, h, b, nsize).blocks[b].size;
    } else if CanAllocate(L, h, nsize) {
      ChosenIsFree(L, h, nsize);
      RequiredAligned(L, nsize);
      c := Chosen(L, h, nsize);
      CarveKeeps(L, h, c, Required(L, nsize));
      var h1 := Carve(L, h, c, Required(L, nsize));
      StillLive(h, h1, b, c);
      DeallocateKeeps(L, h1, b);
      s := h1.blocks[c].size;
    }
  }

  /** hs is the run of ops from a fresh heap. */
  ghost predicate IsRun(L: Layout, ops: seq<Op>, hs: seq<Heap>)
    requires L.Valid()
  {
    && |hs| == |ops| + 1 && hs[0] == Fresh(L)
    && forall i {:trigger ops[i]} | 0 <= i < |ops| ::
         WellFormed(L, hs[i]) ==> Enabled(L, hs[i], ops[i]) && hs[i + 1] == Step(L, hs[i], ops[i])
  }

  /** Every heap of every run without an overrunning copy is well formed. */
  lemma {:induction false} RunKeeps(L: Layout, ops: seq<Op>, hs: seq<Heap>, i: nat)
    requires L.Valid() && IsRun(L, ops, hs) && i < |hs|
    ensures WellFormed(L, hs[i])
  {
    hide WellFormed, Step;
    if i == 0 {
      FreshKeeps(L);
    } else {
      RunKeeps(L, ops, hs, i - 1);
      assert hs[i] == Step(L, hs[i - 1], ops[i - 1]);
      StepKeeps(L, hs[i - 1], ops[i - 1]);
    }
  }

  /** Once every allocation is freed, whatever the run, the heap is as after reset: nothing leaks. */
  lemma Drained(L: Layout, ops: seq<Op>, hs: seq<Heap>, i: nat)
    requires L.Valid() && IsRun(L, ops, hs) && i < |hs| && LiveOf(hs[i].blocks) == map[]
    ensures hs[i] == Fresh(L)
  {
    hide Step, InsertBin;
    RunKeeps(L, ops, hs, i);
    var h := hs[i];
    AllFreed(L, h);
    OnlyBlockListed(L, h);
  }

  lemma OnlyBlockListed(L: Layout, h: Heap)
    requires L.Valid() && WellFormed(L, h) && h.blocks == map[0 := Block(L.pool, true)]
    ensures h.lists == Fresh(L).lists
  {
    hide InsertBin, Tiles, Coalesced;
    forall j | 0 <= j < BIN_COUNT ensures h.lists[j] == Fresh(L).lists[j] {
      assert NoLists()[j] == [];
      if j != InsertBin(L.pool) {
        if h.lists[j] != [] { FrontIsFiled(h, j); }
      } else {
        assert h.blocks[0] == Block(L.pool, true);
        FreeIsListed(L, h, 0);
        OneEntry(h.lists[j], 0);
      }
    }
  }

  lemma FrontIsFiled(h: Heap, k: nat)
    requires Filed(h.blocks, h.lists) && k < BIN_COUNT && h.lists[k] != []
    ensures h.lists[k][0] in h.blocks && InsertBin(h.blocks[h.lists[k][0]].size) == k
  {
    hide InsertBin;
  }

  lemma OneEntry(l: seq<nat>, x: nat)
    requires x in l && forall i | 0 <= i < |l| :: l[i] == x
    requires forall i, j | 0 <= i < j < |l| :: l[i] != l[j]
    ensures l == [x]
  {
    if |l| >= 2 { FirstTwoDiffer(l); }
  }

  lemma FirstTwoDiffer(l: seq<nat>)
    requires |l| >= 2 && forall i, j | 0 <= i < j < |l| :: l[i] != l[j]
    ensures l[0] != l[1]
  {
  }

  // ----- A run in which allocate returns too small a block

  const TARGET := Layout(32768, 0x2000_0000, 4)

  lemma TargetBins()
    ensures InsertBin(24) == 12 && InsertBin(32768) == 160 && InsertBin(32744) == 159 && InsertBin(32720) == 159
    ensures SearchBin(24) == 12 && SearchBin(32) == 0
  {
    Pow2Values();
    MsbUnique(32768, 15); MsbUnique(32744, 14); MsbUnique(32720, 14); MsbUnique(32, 5); MsbUnique(33, 5);
  }

  lemma TargetIsValid()
    ensures TARGET.Valid() && TARGET.MinBlock() == 16 && Required(TARGET, 16) == 24 && Required(TARGET, 24) == 32
  {
    assert Pow256(4) == 0x1_0000_0000;
  }

  function Run0(): Heap { Heap(map[0 := Block(32768, true)], NoLists()[160 := [0]]) }
  function Run1(): Heap { Heap(map[0 := Block(24, false), 24 := Block(32744, true)], NoLists()[159 := [24]]) }
  function Run2(): Heap
  {
    Heap(map[0 := Block(24, false), 24 := Block(24, false), 48 := Block(32720, true)], NoLists()[159 := [48]])
  }
  function Run3(): Heap
  {
    Heap(map[0 := Block(24, true), 24 := Block(24, false), 48 := Block(32720, true)],
         NoLists()[159 := [48]][12 := [0]])
  }

  /** An allocation on a heap whose only free block is b, of size z, cuts its r bytes off it. */
  lemma AllocateFirst(L: Layout, h: Heap, b: nat, z: nat, k: nat, size: nat, r: nat)
    requires L.Valid() && 0 < size <= L.pool - HEADER && Required(L, size) == r
    requires WellFormed(L, h) && b in h.blocks && h.blocks[b] == Block(z, true) && z >= r + L.MinBlock()
    requires SearchBin(r) <= k == InsertBin(z) && h.lists == NoLists()[k := [b]]
    ensures CanAllocate(L, h, size)
    ensures Step(L, h, Alloc(size)) ==
            Heap(h.blocks[b := Block(r, false)][b + r := Block(z - r, true)], NoLists()[InsertBin(z - r) := [b + r]])
  {
    hide InsertBin, WellFormed, SearchBin, Required;
    assert forall j | 0 <= j < BIN_COUNT :: NoLists()[j] == [];
    FirstBinIs(h.lists, SearchBin(r), k);
    assert Chosen(L, h, size) == b;
    ChosenIsFree(L, h, size);
    OnlyOne(h.lists, k, b, InsertBin(z - r), b + r);
  }

  /** The only entry leaves and another one comes. */
  lemma OnlyOne(lists: Lists, k: nat, b: nat, k': nat, b': nat)
    requires k < BIN_COUNT && k' < BIN_COUNT && lists == NoLists()[k := [b]]
    ensures Unlist(lists, k, b) == NoLists() && Enlist(NoLists(), k', b') == NoLists()[k' := [b']]
  {
    assert Without(lists[k], IndexOf(lists[k], b)) == [];
    assert [b'] + NoLists()[k'] == [b'];
  }

  lemma FirstStep()
    requires TARGET.Valid()
    ensures Fresh(TARGET) == Run0() && WellFormed(TARGET, Run0()) && Step(TARGET, Run0(), Alloc(16)) == Run1()
    ensures WellFormed(TARGET, Run1())
  {
    TargetIsValid();
    TargetBins();
    hide InsertBin, SearchBin, Required, WellFormed, Step;
    assert NoLists()[160] == [] && [0] + [] == [0];
    assert Fresh(TARGET) == Run0();
    FreshKeeps(TARGET);
    AllocateFirst(TARGET, Run0(), 0, 32768, 160, 16, 24);
    StepKeeps(TARGET, Run0(), Alloc(16));
  }

  lemma SecondStep()
    requires TARGET.Valid() && WellFormed(TARGET, Run1())
    ensures Step(TARGET, Run1(), Alloc(16)) == Run2() && WellFormed(TARGET, Run2())
  {
    TargetIsValid();
    TargetBins();
    hide InsertBin, SearchBin, Required, WellFormed, Step;
    AllocateFirst(TARGET, Run1(), 24, 32744, 159, 16, 24);
    StepKeeps(TARGET, Run1(), Alloc(16));
  }

  lemma Shortfall()
    requires TARGET.Valid()
    ensures CanAllocate(TARGET, Run3(), 24) && Chosen(TARGET, Run3(), 24) == 0
    ensures Run3().blocks[0].size == 24 < Required(TARGET, 24)
  {
    TargetIsValid();
    TargetBins();
    hide InsertBin, SearchBin, Required;
    assert forall j | 0 <= j < BIN_COUNT :: NoLists()[j] == [];
    FirstBinIs(Run3().lists, 0, 12);
  }

  /** From reset: allocate 16, allocate 16, free the first, allocate 24. The last call finds the 24-byte
      block, whose payload is 16 bytes. */
  lemma ShortBlockRun()
    ensures TARGET.Valid()
    ensures IsRun(TARGET, [Alloc(16), Alloc(16), Free(0)], [Run0(), Run1(), Run2(), Run3()])
    ensures CanAllocate(TARGET, Run3(), 24) && Chosen(TARGET, Run3(), 24) == 0
    ensures Run3().blocks[0].size == 24 < Required(TARGET, 24)
  {
    hide InsertBin, WellFormed, Step, Required, Fresh, CanAllocate, Chosen, Run0, Run1, Run2, Run3;
    TargetIsValid();
    FirstStep();
    SecondStep();
    FreeFirst();
    Shortfall();
    var ops, hs := [Alloc(16), Alloc(16), Free(0)], [Run0(), Run1(), Run2(), Run3()];
    forall i | 0 <= i < |ops|
      ensures WellFormed(TARGET, hs[i]) && Enabled(TARGET, hs[i], ops[i]) && hs[i + 1] == Step(TARGET, hs[i], ops[i])
    {
      assert i == 0 || i == 1 || i == 2;
    }
  }

  lemma FreeFirst()
    requires TARGET.Valid() && WellFormed(TARGET, Run2())
    ensures Live(Run2().blocks, 0) && Step(TARGET, Run2(), Free(0)) == Run3()
  {
    TargetBins();
    hide InsertBin, WellFormed;
    DeallocateKeeps(TARGET, Run2(), 0);
    assert MergeNext(Run2(), 0) == Run2();
    assert MergeStart(Run2().blocks, 0) == 0;
    assert MergePrev(Run2(), 0) == Run2();
    assert NoLists()[12] == [];
    assert [0] + [] == [0];
  }
}
