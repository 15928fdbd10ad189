/** LuaHeap as a tiling of its pool with segregated free lists: the specification that the
    byte-level allocator in LuaHeap.dfy refines (runtime/lua_heap.hpp:196-375). */
module HeapModel {
  import opened TlsfMapping
  import opened FreeLists

  datatype Block = Block(size: nat, free: bool)

  /** The blocks of the pool by offset. */
  type Tiling = map<nat, Block>

  datatype Heap = Heap(blocks: Tiling, lists: Lists)

  function End(t: Tiling, b: nat): nat
    requires b in t
  {
    b + t[b].size
  }

  ghost predicate BlockFits(L: Layout, t: Tiling, b: nat)
    requires b in t
  {
    && b % 8 == 0 && t[b].size % 8 == 0
    && L.MinBlock() <= t[b].size
    && End(t, b) <= L.pool
    && (End(t, b) == L.pool || End(t, b) in t)
  }

  ghost predicate InOrder(t: Tiling, a: nat, b: nat)
    requires a in t && b in t
  {
    a < b ==> End(t, a) <= b
  }

  /** The blocks cover the pool without gap or overlap (see `TilesCover`). */
  ghost predicate Tiles(L: Layout, t: Tiling)
  {
    && 0 in t
    && (forall b {:trigger BlockFits(L, t, b)} | b in t :: BlockFits(L, t, b))
    && (forall a, b {:trigger InOrder(t, a, b)} | a in t && b in t :: InOrder(t, a, b))
  }

  /** A free block is not followed by another one. */
  ghost predicate Apart(t: Tiling, b: nat)
    requires b in t
  {
    t[b].free && End(t, b) in t ==> !t[End(t, b)].free
  }

  /** No two free blocks are adjacent. */
  ghost predicate Coalesced(t: Tiling)
  {
    forall b {:trigger Apart(t, b)} | b in t :: Apart(t, b)
  }

  /** Exactly the free blocks are listed, each once, in the bin of its size. */
  ghost predicate Filed(t: Tiling, lists: Lists)
  {
    && (forall k, i | 0 <= k < BIN_COUNT && 0 <= i < |lists[k]| ::
          lists[k][i] in t && t[lists[k][i]].free && InsertBin(t[lists[k][i]].size) == k)
    && (forall k, i, j | 0 <= k < BIN_COUNT && 0 <= i < j < |lists[k]| :: lists[k][i] != lists[k][j])
    && (forall b | b in t && t[b].free :: b in lists[InsertBin(t[b].size)])
  }

  ghost predicate WellFormed(L: Layout, h: Heap)
  {
    Tiles(L, h.blocks) && Coalesced(h.blocks) && Filed(h.blocks, h.lists)
  }

  predicate Live(t: Tiling, b: nat) { b in t && !t[b].free }

  /** Every byte of the pool lies in exactly one block. */
  lemma TilesCover(L: Layout, t: Tiling, x: nat) returns (b: nat)
    requires L.Valid() && Tiles(L, t) && x < L.pool
    ensures b in t && b <= x < End(t, b)
    ensures forall c | c in t && c <= x < End(t, c) :: c == b
  {
    b := 0;
    while End(t, b) <= x
      invariant b in t && b <= x
      decreases x - b
    {
      assert BlockFits(L, t, b);
      b := End(t, b);
    }
    forall c | c in t && c <= x < End(t, c) ensures c == b {
      assert InOrder(t, c, b) && InOrder(t, b, c);
    }
  }

  /** Every block but the first has a physical predecessor. */
  lemma Predecessor(L: Layout, t: Tiling, b: nat) returns (p: nat)
    requires L.Valid() && Tiles(L, t) && b in t && b > 0
    ensures p in t && p < b && End(t, p) == b
  {
    assert BlockFits(L, t, b);
    p := TilesCover(L, t, b - 1);
    assert BlockFits(L, t, p) && InOrder(t, p, b);
  }

  // ----- Sizes

  function Align8(size: nat): (r: nat)
    ensures r % 8 == 0 && size <= r < size + 8
  {
    (size + 7) / 8 * 8
  }

  /** The block size an allocation of `size` bytes asks for. */
  function Required(L: Layout, size: nat): (r: nat)
    requires L.Valid()
    ensures r % 8 == 0 && r >= L.MinBlock() && r >= size + HEADER
  {
    var r := Align8(size) + HEADER;
    if r < L.MinBlock() then L.MinBlock() else r
  }

  // ----- The list operations

  function IndexOf(l: seq<nat>, b: nat): (i: nat)
    requires b in l
    ensures i < |l| && l[i] == b
  {
    if l[0] == b then 0 else 1 + IndexOf(l[1..], b)
  }

  function Unlist(lists: Lists, k: nat, b: nat): Lists
    requires k < BIN_COUNT && b in lists[k]
  {
    lists[k := Without(lists[k], IndexOf(lists[k], b))]
  }

  function Enlist(lists: Lists, k: nat, b: nat): Lists
    requires k < BIN_COUNT
  {
    lists[k := [b] + lists[k]]
  }

  /** The first non-empty bin at or above k, or BIN_COUNT. */
  function FirstBin(lists: Lists, k: nat): (r: nat)
    requires k <= BIN_COUNT
    ensures k <= r <= BIN_COUNT
    ensures r < BIN_COUNT ==> lists[r] != []
    ensures forall j | k <= j < r :: lists[j] == []
    decreases BIN_COUNT - k
  {
    if k == BIN_COUNT || lists[k] != [] then k else FirstBin(lists, k + 1)
  }

  lemma {:induction false} IndexUnique(l: seq<nat>, i: nat)
    requires i < |l| && forall j, j' | 0 <= j < j' < |l| :: l[j] != l[j']
    ensures IndexOf(l, l[i]) == i
  {
    if i > 0 {
      assert l[i] == l[1..][i - 1];
      IndexUnique(l[1..], i - 1);
    }
  }

  // ----- The four ways the tiling changes

  /** A free block leaves its list and becomes allocated. */
  function Take(h: Heap, b: nat): Heap
    requires b in h.blocks && b in h.lists[InsertBin(h.blocks[b].size)]
  {
    Heap(h.blocks[b := Block(h.blocks[b].size, false)], Unlist(h.lists, InsertBin(h.blocks[b].size), b))
  }

  /** An allocated block without free neighbours becomes free and joins the list of its bin. */
  function Release(h: Heap, b: nat): Heap
    requires b in h.blocks
  {
    Heap(h.blocks[b := Block(h.blocks[b].size, true)], Enlist(h.lists, InsertBin(h.blocks[b].size), b))
  }

  function FuseTiles(t: Tiling, b: nat): Tiling
    requires b in t && End(t, b) in t
  {
    (t - {End(t, b)})[b := Block(t[b].size + t[End(t, b)].size, false)]
  }

  function SplitTiles(t: Tiling, b: nat, r: nat): Tiling
    requires b in t && r <= t[b].size
  {
    t[b := Block(r, false)][b + r := Block(t[b].size - r, true)]
  }

  /** An allocated block absorbs the allocated block behind it. */
  function Fuse(h: Heap, b: nat): Heap
    requires b in h.blocks && End(h.blocks, b) in h.blocks
  {
    Heap(FuseTiles(h.blocks, b), h.lists)
  }

  /** An allocated block shrinks to r bytes and its tail becomes a free block. */
  function SplitTail(h: Heap, b: nat, r: nat): Heap
    requires b in h.blocks && r <= h.blocks[b].size
  {
    var rest := h.blocks[b].size - r;
    Heap(SplitTiles(h.blocks, b, r), Enlist(h.lists, InsertBin(rest), b + r))
  }

  lemma FreeIsListed(L: Layout, h: Heap, b: nat)
    requires WellFormed(L, h) && b in h.blocks && h.blocks[b].free
    ensures b in h.lists[InsertBin(h.blocks[b].size)]
  {
  }

  lemma UnlistFiled(t: Tiling, lists: Lists, b: nat)
    requires Filed(t, lists) && b in t && t[b].free
    ensures Filed(t[b := Block(t[b].size, false)], Unlist(lists, InsertBin(t[b].size), b))
  {
    hide InsertBin;
    var k := InsertBin(t[b].size);
    var l := lists[k];
    var i := IndexOf(l, b);
    var l', t' := Without(l, i), t[b := Block(t[b].size, false)];
    WithoutList(l, i);
    forall c | c in t' && t'[c].free && InsertBin(t'[c].size) == k ensures c in l' {
      assert c in l && c != b;
    }
    assert forall j | 0 <= j < |l'| :: l'[j] in l && l'[j] != b;
  }

  /** A list without its element i: the others, in order. */
  lemma WithoutList(l: seq<nat>, i: nat)
    requires i < |l| && forall j, k | 0 <= j < k < |l| :: l[j] != l[k]
    ensures forall c :: c in Without(l, i) <==> c in l && c != l[i]
    ensures forall j, k | 0 <= j < k < |Without(l, i)| :: Without(l, i)[j] != Without(l, i)[k]
  {
    var l' := Without(l, i);
    assert forall j | 0 <= j < |l'| :: l'[j] == l[if j < i then j else j + 1];
    forall c | c in l && c != l[i] ensures c in l' {
      var j := IndexOf(l, c);
      assert l'[if j < i then j else j - 1] == c;
    }
  }

  lemma EnlistFiled(t: Tiling, lists: Lists, b: nat, size: nat)
    requires Filed(t, lists) && (b in t ==> !t[b].free)
    ensures Filed(t[b := Block(size, true)], Enlist(lists, InsertBin(size), b))
  {
    hide InsertBin;
    var k, t' := InsertBin(size), t[b := Block(size, true)];
    var lists' := Enlist(lists, k, b);
    assert forall j | 1 <= j < |lists'[k]| :: lists'[k][j] == lists[k][j - 1];
    assert lists'[k][0] == b;
    forall c | c in t' && t'[c].free ensures c in lists'[InsertBin(t'[c].size)] {
      if c != b { assert c in lists[InsertBin(t[c].size)]; }
    }
  }

  ghost predicate Sound(L: Layout, t: Tiling) { Tiles(L, t) && Coalesced(t) }

  /** The block behind b is not free. */
  predicate SealedAfter(t: Tiling, b: nat)
    requires b in t
  {
    End(t, b) in t ==> !t[End(t, b)].free
  }

  /** The block in front of b is not free. */
  ghost predicate SealedBefore(t: Tiling, b: nat)
  {
    forall p {:trigger Apart(t, p)} | p in t && End(t, p) == b :: !t[p].free
  }

  /** The same blocks, one of them with another flag. */
  lemma RelabelTiles(L: Layout, t: Tiling, b: nat, free: bool)
    requires Tiles(L, t) && b in t
    ensures Tiles(L, t[b := Block(t[b].size, free)]) && t[b := Block(t[b].size, free)].Keys == t.Keys
  {
    var t' := t[b := Block(t[b].size, free)];
    assert t'.Keys == t.Keys;
    forall c | c in t' ensures BlockFits(L, t', c) { assert BlockFits(L, t, c); }
    forall a, c | a in t' && c in t' ensures InOrder(t', a, c) { assert InOrder(t, a, c); }
  }

  lemma TakeSound(L: Layout, t: Tiling, b: nat)
    requires Sound(L, t) && b in t && t[b].free
    ensures Sound(L, t[b := Block(t[b].size, false)])
    ensures SealedAfter(t[b := Block(t[b].size, false)], b)
  {
    hide Tiles;
    RelabelTiles(L, t, b, false);
    var t' := t[b := Block(t[b].size, false)];
    assert Apart(t, b);
    forall c | c in t' ensures Apart(t', c) { assert Apart(t, c); }
    if End(t', b) == b { OwnEnd(L, t, b); }
  }

  lemma OwnEnd(L: Layout, t: Tiling, b: nat)
    requires Tiles(L, t) && b in t
    ensures End(t, b) > b
  {
    assert BlockFits(L, t, b);
  }

  lemma ReleaseSound(L: Layout, t: Tiling, b: nat)
    requires Sound(L, t) && Live(t, b) && SealedAfter(t, b) && SealedBefore(t, b)
    ensures Sound(L, t[b := Block(t[b].size, true)])
  {
    hide Tiles;
    RelabelTiles(L, t, b, true);
    OwnEnd(L, t, b);
    var t' := t[b := Block(t[b].size, true)];
    forall c | c in t' ensures Apart(t', c) { assert Apart(t, c); }
  }

  lemma FuseFits(L: Layout, t: Tiling, b: nat, c: nat)
    requires Tiles(L, t) && b in t && End(t, b) in t && c in FuseTiles(t, b)
    ensures BlockFits(L, FuseTiles(t, b), c)
  {
    assert BlockFits(L, t, b) && BlockFits(L, t, End(t, b));
    assert BlockFits(L, t, c) && InOrder(t, c, b) && InOrder(t, b, c);
  }

  lemma FuseInOrder(L: Layout, t: Tiling, b: nat, a: nat, c: nat)
    requires Tiles(L, t) && b in t && End(t, b) in t && a in FuseTiles(t, b) && c in FuseTiles(t, b)
    ensures InOrder(FuseTiles(t, b), a, c)
  {
    assert BlockFits(L, t, b) && BlockFits(L, t, End(t, b));
    assert InOrder(t, a, c) && InOrder(t, End(t, b), c) && InOrder(t, b, c);
  }

  lemma FuseApart(L: Layout, t: Tiling, b: nat, c: nat)
    requires Sound(L, t) && Live(t, b) && Live(t, End(t, b)) && c in FuseTiles(t, b)
    ensures Apart(FuseTiles(t, b), c)
  {
    assert Apart(t, c);
  }

  lemma FuseSound(L: Layout, t: Tiling, b: nat)
    requires Sound(L, t) && Live(t, b) && Live(t, End(t, b))
    ensures Sound(L, FuseTiles(t, b))
  {
    hide BlockFits, InOrder, Apart;
    var t' := FuseTiles(t, b);
    OwnEnd(L, t, b);
    forall c | c in t' ensures BlockFits(L, t', c) && Apart(t', c) { FuseFits(L, t, b, c); FuseApart(L, t, b, c); }
    forall a, c | a in t' && c in t' ensures InOrder(t', a, c) { FuseInOrder(L, t, b, a, c); }
  }

  ghost predicate Splits(L: Layout, t: Tiling, b: nat, r: nat)
  {
    && Live(t, b) && SealedAfter(t, b)
    && r % 8 == 0 && L.MinBlock() <= r && r + L.MinBlock() <= t[b].size
  }

  lemma SplitFresh(L: Layout, t: Tiling, b: nat, r: nat)
    requires L.Valid() && Tiles(L, t) && Splits(L, t, b, r)
    ensures b + r !in t
  {
    assert b + r in t ==> InOrder(t, b, b + r);
  }

  lemma SplitFitsAt(L: Layout, t: Tiling, b: nat, r: nat, c: nat)
    requires L.Valid() && Sound(L, t) && Splits(L, t, b, r) && b + r !in t && c in SplitTiles(t, b, r)
    ensures BlockFits(L, SplitTiles(t, b, r), c) && Apart(SplitTiles(t, b, r), c)
  {
    assert BlockFits(L, t, b);
    if c != b + r { assert BlockFits(L, t, c) && Apart(t, c); }
  }

  lemma SplitFits(L: Layout, t: Tiling, b: nat, r: nat)
    requires L.Valid() && Sound(L, t) && Splits(L, t, b, r)
    ensures forall c | c in SplitTiles(t, b, r) :: BlockFits(L, SplitTiles(t, b, r), c) && Apart(SplitTiles(t, b, r), c)
  {
    hide BlockFits, Apart;
    SplitFresh(L, t, b, r);
    forall c | c in SplitTiles(t, b, r) ensures BlockFits(L, SplitTiles(t, b, r), c) && Apart(SplitTiles(t, b, r), c) {
      SplitFitsAt(L, t, b, r, c);
    }
  }

  lemma SplitSound(L: Layout, t: Tiling, b: nat, r: nat)
    requires L.Valid() && Sound(L, t) && Splits(L, t, b, r)
    ensures b + r !in t
    ensures Sound(L, SplitTiles(t, b, r))
  {
    var t', rem := SplitTiles(t, b, r), b + r;
    SplitFresh(L, t, b, r);
    SplitFits(L, t, b, r);
    forall a, c | a in t' && c in t' ensures InOrder(t', a, c) {
      if a == rem && c != rem { assert InOrder(t, b, c); }
      else if a != rem && c == rem { assert InOrder(t, a, b) && InOrder(t, b, a); }
      else if a != rem { assert InOrder(t, a, c); }
    }
  }

  // ----- Well-formedness is kept

  lemma TakeKeeps(L: Layout, h: Heap, b: nat)
    requires WellFormed(L, h) && b in h.blocks && h.blocks[b].free
    ensures b in h.lists[InsertBin(h.blocks[b].size)]
    ensures WellFormed(L, Take(h, b)) && SealedAfter(Take(h, b).blocks, b)
  {
    FreeIsListed(L, h, b);
    hide Tiles, Coalesced, Filed, InsertBin;
    TakeSound(L, h.blocks, b);
    UnlistFiled(h.blocks, h.lists, b);
  }

  lemma ReleaseKeeps(L: Layout, h: Heap, b: nat)
    requires WellFormed(L, h) && Live(h.blocks, b) && SealedAfter(h.blocks, b) && SealedBefore(h.blocks, b)
    ensures WellFormed(L, Release(h, b))
  {
    hide Tiles, Coalesced, Filed, InsertBin;
    ReleaseSound(L, h.blocks, b);
    EnlistFiled(h.blocks, h.lists, b, h.blocks[b].size);
  }

  lemma FuseKeeps(L: Layout, h: Heap, b: nat)
    requires WellFormed(L, h) && Live(h.blocks, b) && Live(h.blocks, End(h.blocks, b))
    ensures WellFormed(L, Fuse(h, b))
  {
    FuseFiled(h.blocks, h.lists, b);
    hide Tiles, Coalesced, Filed, InsertBin;
    FuseSound(L, h.blocks, b);
  }

  lemma FuseFiled(t: Tiling, lists: Lists, b: nat)
    requires Filed(t, lists) && Live(t, b) && Live(t, End(t, b))
    ensures Filed(FuseTiles(t, b), lists)
  {
    hide InsertBin;
  }

  lemma SplitKeeps(L: Layout, h: Heap, b: nat, r: nat)
    requires L.Valid() && WellFormed(L, h) && Splits(L, h.blocks, b, r)
    ensures b + r !in h.blocks && WellFormed(L, SplitTail(h, b, r))
  {
    hide Tiles, Coalesced, Filed, InsertBin;
    SplitSound(L, h.blocks, b, r);
    ShrinkFiled(h.blocks, h.lists, b, r);
    EnlistFiled(h.blocks[b := Block(r, false)], h.lists, b + r, h.blocks[b].size - r);
  }

  lemma ShrinkFiled(t: Tiling, lists: Lists, b: nat, r: nat)
    requires Filed(t, lists) && Live(t, b)
    ensures Filed(t[b := Block(r, false)], lists)
  {
    hide InsertBin;
  }
}
