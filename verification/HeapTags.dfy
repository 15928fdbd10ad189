/** The boundary tags of LuaHeap in memory: every header agrees with the tiling, and every header
    describes its physical predecessor (runtime/lua_heap.hpp:57-95, 140-149, 242-260, 294-306). */
module HeapTags {
  import opened ByteMemory
  import opened FreeLists
  import opened HeapModel

  ghost predicate OwnTag(m: seq<byte>, t: Tiling, b: nat)
    requires b in t && b + HEADER <= |m|
  {
    SizeAt(m, b) == t[b].size && IsFree(SizeFlagsAt(m, b)) == t[b].free
  }

  ghost predicate PrevTag(m: seq<byte>, t: Tiling, p: nat)
    requires p in t
  {
    End(t, p) in t ==>
      && End(t, p) + HEADER <= |m|
      && PrevSizeAt(m, End(t, p)) == t[p].size
      && IsPrevFree(SizeFlagsAt(m, End(t, p))) == t[p].free
  }

  /** The tags agree with the tiling, except that the blocks in X only need their size right. */
  ghost predicate TagsBut(L: Layout, m: seq<byte>, t: Tiling, X: set<nat>)
    requires Starts(L, t.Keys)
  {
    && |m| == L.pool && 0 in t
    && (forall c {:trigger OwnTag(m, t, c)} | c in t && c !in X :: OwnTag(m, t, c))
    && (forall c {:trigger PrevTag(m, t, c)} | c in t && c !in X :: PrevTag(m, t, c))
    && (forall c | c in t && c in X :: SizeAt(m, c) == t[c].size)
    && !IsPrevFree(SizeFlagsAt(m, 0))
  }

  lemma StartsOfTiles(L: Layout, t: Tiling)
    requires Tiles(L, t)
    ensures Starts(L, t.Keys)
  {
    forall b | b in t ensures b + L.MinBlock() <= L.pool { assert BlockFits(L, t, b); }
    forall a, b | a in t && b in t && a < b ensures a + L.MinBlock() <= b {
      assert BlockFits(L, t, a) && InOrder(t, a, b);
    }
  }

  ghost predicate SameHeaders(L: Layout, T: set<nat>, m: seq<byte>, m': seq<byte>)
    requires Starts(L, T) && |m| == L.pool && |m'| == L.pool
  {
    forall c {:trigger SizeFlagsAt(m', c)} | c in T ::
      SizeFlagsAt(m', c) == SizeFlagsAt(m, c) && PrevSizeAt(m', c) == PrevSizeAt(m, c)
  }

  lemma TagsFrame(L: Layout, m: seq<byte>, m': seq<byte>, t: Tiling, X: set<nat>)
    requires Starts(L, t.Keys) && TagsBut(L, m, t, X) && |m'| == L.pool && SameHeaders(L, t.Keys, m, m')
    ensures TagsBut(L, m', t, X)
  {
    hide Load;
    forall c | c in t && c !in X ensures OwnTag(m', t, c) { assert OwnTag(m, t, c); }
    forall c | c in t && c !in X ensures PrevTag(m', t, c) {
      assert PrevTag(m, t, c);
      if End(t, c) in t { assert SizeFlagsAt(m', End(t, c)) == SizeFlagsAt(m, End(t, c)); }
    }
  }

  lemma TagsWeaken(L: Layout, m: seq<byte>, t: Tiling, X: set<nat>, Y: set<nat>)
    requires Starts(L, t.Keys) && TagsBut(L, m, t, X) && X <= Y
    ensures TagsBut(L, m, t, Y)
  {
    hide Load;
    forall c | c in t && c in Y ensures SizeAt(m, c) == t[c].size { if c !in X { assert OwnTag(m, t, c); } }
  }

  /** The tags do not record the state of an excepted block. */
  lemma TagsRelabel(L: Layout, m: seq<byte>, t: Tiling, X: set<nat>, b: nat, free: bool)
    requires Starts(L, t.Keys) && TagsBut(L, m, t, X) && b in X && b in t
    ensures t[b := Block(t[b].size, free)].Keys == t.Keys
    ensures TagsBut(L, m, t[b := Block(t[b].size, free)], X)
  {
    hide Load;
    var t' := t[b := Block(t[b].size, free)];
    assert t'.Keys == t.Keys;
    forall c | c in t' && c !in X ensures OwnTag(m, t', c) { assert OwnTag(m, t, c); }
    forall c | c in t' && c !in X ensures PrevTag(m, t', c) { assert PrevTag(m, t, c); }
  }

  // ----- set_size when two blocks become one

  function SetSizeMem(m: seq<byte>, b: nat, size: nat): (r: seq<byte>)
    requires b + HEADER <= |m|
    ensures |r| == |m|
  {
    Store(m, b, 4, WithSize(SizeFlagsAt(m, b), size))
  }

  lemma SetSizeReads(L: Layout, T: set<nat>, m: seq<byte>, b: nat, size: nat, c: nat)
    requires L.Valid() && Starts(L, T) && |m| == L.pool && b in T && c in T && size % 8 == 0 && size <= L.pool
    ensures var m' := SetSizeMem(m, b, size);
            && SizeAt(m', c) == (if c == b then size else SizeAt(m, c))
            && (c != b ==> SizeFlagsAt(m', c) == SizeFlagsAt(m, c))
            && IsFree(SizeFlagsAt(m', c)) == IsFree(SizeFlagsAt(m, c))
            && IsPrevFree(SizeFlagsAt(m', c)) == IsPrevFree(SizeFlagsAt(m, c))
            && PrevSizeAt(m', c) == PrevSizeAt(m, c)
            && NextFree(L, m', c) == NextFree(L, m, c) && PrevFree(L, m', c) == PrevFree(L, m, c)
  {
    hide Load, Store, IsFree, IsPrevFree;
    SizeFlags(SizeFlagsAt(m, b), size);
    SizeWord(L, SizeFlagsAt(m, b), size);
    HeaderStore(L, T, m, b, false, WithSize(SizeFlagsAt(m, b), size), c);
  }

  lemma SizeWord(L: Layout, sf: nat, size: nat)
    requires L.Valid() && size % 8 == 0 && size <= L.pool
    ensures WithSize(sf, size) < WORD
  {
  }

  lemma FuseStarts(L: Layout, t: Tiling, b: nat)
    requires Starts(L, t.Keys) && b in t && End(t, b) in t
    ensures Starts(L, FuseTiles(t, b).Keys)
  {
    assert FuseTiles(t, b).Keys <= t.Keys;
  }

  /** The tags of block c are right in m' if they were in m and their bytes read the same. */
  lemma TagsCopied(m: seq<byte>, m': seq<byte>, t: Tiling, t': Tiling, c: nat)
    requires |m'| == |m| && c in t && c in t' && t'[c] == t[c] && c + HEADER <= |m|
    requires (End(t, c) in t' <==> End(t, c) in t) && (End(t, c) in t ==> End(t, c) + HEADER <= |m|)
    requires OwnTag(m, t, c) && PrevTag(m, t, c)
    requires SizeAt(m', c) == SizeAt(m, c) && IsFree(SizeFlagsAt(m', c)) == IsFree(SizeFlagsAt(m, c))
    requires End(t, c) in t ==>
               && PrevSizeAt(m', End(t, c)) == PrevSizeAt(m, End(t, c))
               && IsPrevFree(SizeFlagsAt(m', End(t, c))) == IsPrevFree(SizeFlagsAt(m, End(t, c)))
    ensures OwnTag(m', t', c) && PrevTag(m', t', c)
  {
    hide SizeFlagsAt, SizeAt, PrevSizeAt, IsFree, IsPrevFree;
  }

  lemma FuseTagsAt(L: Layout, m: seq<byte>, t: Tiling, X: set<nat>, b: nat, c: nat)
    requires L.Valid() && Tiles(L, t) && Live(t, b) && Live(t, End(t, b))
    requires Starts(L, t.Keys) && TagsBut(L, m, t, X) && X <= {b, End(t, b)}
    requires c in t && c != b && c != End(t, b)
    ensures var t' := FuseTiles(t, b);
            OwnTag(SetSizeMem(m, b, t'[b].size), t', c) && PrevTag(SetSizeMem(m, b, t'[b].size), t', c)
  {
    hide Load, Store, IsFree, IsPrevFree, SetSizeMem, Tiles, OwnTag, PrevTag;
    var t' := FuseTiles(t, b);
    assert OwnTag(m, t, c) && PrevTag(m, t, c);
    FuseGeometry(L, t, b, c);
    SetSizeReads(L, t.Keys, m, b, t'[b].size, c);
    if End(t, c) in t { SetSizeReads(L, t.Keys, m, b, t'[b].size, End(t, c)); }
    TagsCopied(m, SetSizeMem(m, b, t'[b].size), t, t', c);
  }

  lemma FuseGeometry(L: Layout, t: Tiling, b: nat, c: nat)
    requires L.Valid() && Tiles(L, t) && b in t && End(t, b) in t && c in t && c != b
    ensures End(t, c) != End(t, b)
    ensures (t[b].size + t[End(t, b)].size) % 8 == 0 && t[b].size + t[End(t, b)].size <= L.pool
    ensures End(t, b) > b
  {
    assert BlockFits(L, t, b) && BlockFits(L, t, End(t, b)) && BlockFits(L, t, c);
    assert InOrder(t, c, b) && InOrder(t, b, c);
  }

  /** Enlarging block b over its successor keeps every other tag right. */
  lemma FuseTags(L: Layout, m: seq<byte>, t: Tiling, X: set<nat>, b: nat)
    requires L.Valid() && Tiles(L, t) && Live(t, b) && Live(t, End(t, b))
    requires Starts(L, t.Keys) && TagsBut(L, m, t, X) && X <= {b, End(t, b)}
    ensures Starts(L, FuseTiles(t, b).Keys)
    ensures var t' := FuseTiles(t, b);
            var m' := SetSizeMem(m, b, t'[b].size);
            TagsBut(L, m', t', {b}) && IsFree(SizeFlagsAt(m', b)) == IsFree(SizeFlagsAt(m, b))
  {
    hide Load, Store, IsFree, IsPrevFree, SetSizeMem, Tiles;
    var t', n := FuseTiles(t, b), End(t, b);
    FuseStarts(L, t, b);
    FirstStays(L, t, b);
    SetSizeReads(L, t.Keys, m, b, t'[b].size, b);
    SetSizeReads(L, t.Keys, m, b, t'[b].size, 0);
    forall c | c in t' && c != b
      ensures OwnTag(SetSizeMem(m, b, t'[b].size), t', c)
      ensures PrevTag(SetSizeMem(m, b, t'[b].size), t', c)
    {
      FuseTagsAt(L, m, t, X, b, c);
    }
  }

  lemma FirstStays(L: Layout, t: Tiling, b: nat)
    requires L.Valid() && Tiles(L, t) && b in t && End(t, b) in t
    ensures 0 in FuseTiles(t, b)
    ensures FuseTiles(t, b)[b].size % 8 == 0 && FuseTiles(t, b)[b].size <= L.pool
  {
    assert BlockFits(L, t, b) && BlockFits(L, t, End(t, b));
  }

  // ----- the split

  function SplitMem(L: Layout, m: seq<byte>, b: nat, r: nat, rest: nat): (m': seq<byte>)
    requires b + HEADER <= |m| && b + r + HEADER <= |m|
    ensures |m'| == |m|
  {
    Store(Store(SetSizeMem(m, b, r), b + r, 4, rest), b + r + 4, 4, r)
  }

  lemma SplitReads(L: Layout, T: set<nat>, m: seq<byte>, b: nat, r: nat, rest: nat, c: nat)
    requires L.Valid() && Starts(L, T) && |m| == L.pool && b in T && b + r in T && c in T
    requires r > 0 && r % 8 == 0 && rest % 8 == 0 && b + r + rest <= L.pool
    ensures var m' := SplitMem(L, m, b, r, rest);
            && SizeFlagsAt(m', b + r) == rest
            && (c != b + r ==> SizeAt(m', c) == (if c == b then r else SizeAt(m, c)))
            && (c != b + r && c != b ==> SizeFlagsAt(m', c) == SizeFlagsAt(m, c))
            && (c != b + r ==> IsFree(SizeFlagsAt(m', c)) == IsFree(SizeFlagsAt(m, c)))
            && (c != b + r ==> IsPrevFree(SizeFlagsAt(m', c)) == IsPrevFree(SizeFlagsAt(m, c)))
            && PrevSizeAt(m', c) == (if c == b + r then r else PrevSizeAt(m, c))
            && NextFree(L, m', c) == NextFree(L, m, c) && PrevFree(L, m', c) == PrevFree(L, m, c)
  {
    hide Load, Store, IsFree, IsPrevFree, SetSizeMem, SizeOf;
    var m1 := SetSizeMem(m, b, r);
    var m2 := Store(m1, b + r, 4, rest);
    SetSizeReads(L, T, m, b, r, c);
    HeaderStore(L, T, m1, b + r, false, rest, c);
    HeaderStore(L, T, m1, b + r, false, rest, b + r);
    HeaderStore(L, T, m2, b + r, true, r, c);
    HeaderStore(L, T, m2, b + r, true, r, b + r);
  }

  lemma SplitGeometry(L: Layout, t: Tiling, b: nat, r: nat, c: nat)
    requires L.Valid() && Tiles(L, t) && Splits(L, t, b, r) && c in t && c != b
    ensures b + r !in t && End(t, c) != b + r && End(t, b) <= L.pool
    ensures (t[b].size - r) % 8 == 0 && r > 0
  {
    SplitFresh(L, t, b, r);
    assert BlockFits(L, t, b) && BlockFits(L, t, c);
    assert InOrder(t, c, b) && InOrder(t, b, c);
  }

  lemma SplitTagsAt(L: Layout, m: seq<byte>, t: Tiling, b: nat, r: nat, c: nat)
    requires L.Valid() && Tiles(L, t) && Splits(L, t, b, r)
    requires Starts(L, t.Keys) && TagsBut(L, m, t, {b}) && Starts(L, SplitTiles(t, b, r).Keys)
    requires c in t && c != b && b + r !in t && b + r + HEADER <= L.pool
    ensures var m1 := SplitMem(L, m, b, r, t[b].size - r);
            OwnTag(m1, SplitTiles(t, b, r), c) && PrevTag(m1, SplitTiles(t, b, r), c)
  {
    hide Load, Store, IsFree, IsPrevFree, SplitMem, Tiles, OwnTag, PrevTag;
    var t', rest := SplitTiles(t, b, r), t[b].size - r;
    SplitGeometry(L, t, b, r, c);
    assert OwnTag(m, t, c) && PrevTag(m, t, c);
    SplitReads(L, t'.Keys, m, b, r, rest, c);
    if End(t, c) in t { SplitReads(L, t'.Keys, m, b, r, rest, End(t, c)); }
    TagsCopied(m, SplitMem(L, m, b, r, rest), t, t', c);
  }

  /** Cutting block b and writing the header of its tail leaves only those two to be announced. */
  lemma SplitTags(L: Layout, m: seq<byte>, t: Tiling, b: nat, r: nat)
    requires L.Valid() && Tiles(L, t) && Splits(L, t, b, r)
    requires Starts(L, t.Keys) && TagsBut(L, m, t, {b}) && Starts(L, SplitTiles(t, b, r).Keys)
    requires b + r !in t && b + r + HEADER <= L.pool
    ensures var m1 := SplitMem(L, m, b, r, t[b].size - r);
            && TagsBut(L, m1, SplitTiles(t, b, r), {b, b + r})
            && IsFree(SizeFlagsAt(m1, b)) == IsFree(SizeFlagsAt(m, b))
  {
    hide Load, Store, IsFree, IsPrevFree, SplitMem, Tiles, OwnTag, PrevTag, SizeAt, SizeFlagsAt;
    var t', m1 := SplitTiles(t, b, r), SplitMem(L, m, b, r, t[b].size - r);
    SplitSizes(L, m, t, b, r);
    forall c | c in t' && c !in {b, b + r} ensures OwnTag(m1, t', c) && PrevTag(m1, t', c) {
      SplitTagsAt(L, m, t, b, r, c);
    }
    ButIs(L, m1, t', {b, b + r});
  }

  lemma ButIs(L: Layout, m: seq<byte>, t: Tiling, X: set<nat>)
    requires Starts(L, t.Keys) && |m| == L.pool && 0 in t && !IsPrevFree(SizeFlagsAt(m, 0))
    requires forall c | c in t && c !in X :: OwnTag(m, t, c) && PrevTag(m, t, c)
    requires forall c | c in t && c in X :: SizeAt(m, c) == t[c].size
    ensures TagsBut(L, m, t, X)
  {
    hide OwnTag, PrevTag, SizeAt, SizeFlagsAt, IsPrevFree;
  }

  /** The two halves have their sizes, and block 0 has no free predecessor. */
  lemma SplitSizes(L: Layout, m: seq<byte>, t: Tiling, b: nat, r: nat)
    requires L.Valid() && Tiles(L, t) && Splits(L, t, b, r)
    requires Starts(L, t.Keys) && TagsBut(L, m, t, {b}) && Starts(L, SplitTiles(t, b, r).Keys)
    requires b + r !in t && b + r + HEADER <= L.pool
    ensures var m1 := SplitMem(L, m, b, r, t[b].size - r);
            && SizeAt(m1, b) == r && SizeAt(m1, b + r) == t[b].size - r && !IsPrevFree(SizeFlagsAt(m1, 0))
            && IsFree(SizeFlagsAt(m1, b)) == IsFree(SizeFlagsAt(m, b))
  {
    hide Load, Store, IsFree, IsPrevFree, SplitMem, Tiles, OwnTag, PrevTag;
    var t', rest := SplitTiles(t, b, r), t[b].size - r;
    SplitArithmetic(L, t, b, r);
    SplitReads(L, t'.Keys, m, b, r, rest, b);
    SplitReads(L, t'.Keys, m, b, r, rest, 0);
  }

  lemma SplitArithmetic(L: Layout, t: Tiling, b: nat, r: nat)
    requires L.Valid() && Tiles(L, t) && Splits(L, t, b, r)
    ensures r > 0 && (t[b].size - r) % 8 == 0 && b + r + (t[b].size - r) <= L.pool
    ensures SizeOf(t[b].size - r) == t[b].size - r
  {
    assert BlockFits(L, t, b);
  }

  // ----- telling the physical successor

  lemma NextStart(L: Layout, t: Tiling, b: nat, c: nat)
    requires L.Valid() && Tiles(L, t) && b in t && c in t && c != b
    ensures End(t, b) > b && (End(t, b) == L.pool || End(t, b) in t)
    ensures End(t, c) != End(t, b)
  {
    assert BlockFits(L, t, b) && BlockFits(L, t, c);
    assert InOrder(t, c, b) && InOrder(t, b, c);
  }

  lemma NextOf(L: Layout, t: Tiling, b: nat)
    requires L.Valid() && Tiles(L, t) && b in t
    ensures t[b].size > 0 && (End(t, b) == L.pool || End(t, b) in t)
  {
    assert BlockFits(L, t, b);
  }

  lemma InsertTagsAt(L: Layout, m: seq<byte>, t: Tiling, X: set<nat>, b: nat, c: nat)
    requires L.Valid() && Tiles(L, t) && b in t && b in X
    requires Starts(L, t.Keys) && TagsBut(L, m, t, X) && c in t && c != b && c !in X
    requires InsertHeaderMem.requires(L, m, b)
    ensures var m', t' := InsertHeaderMem(L, m, b), t[b := Block(t[b].size, true)];
            OwnTag(m', t', c) && PrevTag(m', t', c)
  {
    hide Load, Store, IsFree, IsPrevFree, InsertHeaderMem, Tiles, OwnTag, PrevTag;
    NextOf(L, t, b);
    assert OwnTag(m, t, c) && PrevTag(m, t, c);
    NextStart(L, t, b, c);
    InsertHeaderReads(L, t.Keys, m, b, c);
    FreeFlags(SizeFlagsAt(m, b)); PrevFreeFlags(SizeFlagsAt(m, c));
    if End(t, c) in t {
      InsertHeaderReads(L, t.Keys, m, b, End(t, c));
      PrevFreeFlags(SizeFlagsAt(m, End(t, c)));
    }
    TagsCopied(m, InsertHeaderMem(L, m, b), t, t[b := Block(t[b].size, true)], c);
  }

  /** Block b itself is tagged free. */
  lemma InsertTagsOwn(L: Layout, m: seq<byte>, t: Tiling, X: set<nat>, b: nat)
    requires L.Valid() && Tiles(L, t) && b in t && b in X
    requires Starts(L, t.Keys) && TagsBut(L, m, t, X) && InsertHeaderMem.requires(L, m, b)
    ensures var m', t' := InsertHeaderMem(L, m, b), t[b := Block(t[b].size, true)];
            OwnTag(m', t', b) && PrevTag(m', t', b)
  {
    hide Load, Store, IsFree, IsPrevFree, InsertHeaderMem, Tiles;
    NextOf(L, t, b);
    InsertHeaderReads(L, t.Keys, m, b, b);
    FreeFlags(SizeFlagsAt(m, b));
    if End(t, b) in t {
      InsertHeaderReads(L, t.Keys, m, b, End(t, b));
      PrevFreeFlags(SizeFlagsAt(m, End(t, b)));
    }
  }

  lemma InsertHeaderDefined(L: Layout, m: seq<byte>, t: Tiling, X: set<nat>, b: nat)
    requires L.Valid() && Tiles(L, t) && b in t && Starts(L, t.Keys) && TagsBut(L, m, t, X)
    ensures SizeAt(m, b) == t[b].size && InsertHeaderMem.requires(L, m, b)
  {
    NextOf(L, t, b);
    assert b !in X ==> OwnTag(m, t, b);
  }

  /** The header words written by insert_free_block make the tags of b right again, as a free block. */
  lemma InsertTags(L: Layout, m: seq<byte>, t: Tiling, X: set<nat>, b: nat)
    requires L.Valid() && Tiles(L, t) && b in t && b in X
    requires Starts(L, t.Keys) && TagsBut(L, m, t, X)
    ensures InsertHeaderMem.requires(L, m, b)
    ensures t[b := Block(t[b].size, true)].Keys == t.Keys
    ensures TagsBut(L, InsertHeaderMem(L, m, b), t[b := Block(t[b].size, true)], X - {b})
  {
    hide Load, Store, IsFree, IsPrevFree, InsertHeaderMem, Tiles;
    InsertHeaderDefined(L, m, t, X, b);
    var m', t' := InsertHeaderMem(L, m, b), t[b := Block(t[b].size, true)];
    assert t'.Keys == t.Keys;
    forall c | c in t' && c !in X - {b} ensures OwnTag(m', t', c) && PrevTag(m', t', c) {
      if c == b { InsertTagsOwn(L, m, t, X, b); } else { InsertTagsAt(L, m, t, X, b, c); }
    }
    NextOf(L, t, b);
    forall c | c in t' && c in X - {b} ensures SizeAt(m', c) == t'[c].size { InsertHeaderReads(L, t.Keys, m, b, c); }
    InsertHeaderReads(L, t.Keys, m, b, 0);
    FreeFlags(SizeFlagsAt(m, b));
  }

  /** The notice to the physical successor that block b is allocated. */
  function NotifyMem(L: Layout, m: seq<byte>, b: nat): (r: seq<byte>)
    requires b + HEADER <= |m|
    requires var n := b + SizeAt(m, b); n >= L.pool || n + HEADER <= |m|
    ensures |r| == |m|
  {
    var n := b + SizeAt(m, b);
    if n < L.pool then
      Store(Store(m, n, 4, WithPrevAllocated(SizeFlagsAt(m, n))), n + 4, 4, SizeAt(m, b))
    else m
  }

  lemma NotifyReads(L: Layout, T: set<nat>, m: seq<byte>, b: nat, c: nat)
    requires L.Valid() && Starts(L, T) && |m| == L.pool && b in T && c in T
    requires SizeAt(m, b) > 0 && (b + SizeAt(m, b) == L.pool || b + SizeAt(m, b) in T)
    ensures var m', n := NotifyMem(L, m, b), b + SizeAt(m, b);
            && SizeFlagsAt(m', c) == (if c == n then WithPrevAllocated(SizeFlagsAt(m, c)) else SizeFlagsAt(m, c))
            && PrevSizeAt(m', c) == (if c == n then SizeAt(m, b) else PrevSizeAt(m, c))
            && NextFree(L, m', c) == NextFree(L, m, c) && PrevFree(L, m', c) == PrevFree(L, m, c)
            && SizeAt(m', c) == SizeAt(m, c)
  {
    hide Load, Store, IsFree, IsPrevFree;
    var n := b + SizeAt(m, b);
    PrevFreeFlags(SizeFlagsAt(m, c));
    if n < L.pool {
      HeaderBounds(m, n);
      HeaderBounds(m, b);
      var v := WithPrevAllocated(SizeFlagsAt(m, n));
      HeaderStore(L, T, m, n, false, v, c);
      HeaderStore(L, T, Store(m, n, 4, v), n, true, SizeAt(m, b), c);
    }
  }

  lemma NotifyTagsAt(L: Layout, m: seq<byte>, t: Tiling, X: set<nat>, b: nat, c: nat)
    requires L.Valid() && Tiles(L, t) && Live(t, b) && b in X
    requires Starts(L, t.Keys) && TagsBut(L, m, t, X) && c in t && (c == b || c !in X)
    requires !IsFree(SizeFlagsAt(m, b))
    requires NotifyMem.requires(L, m, b)
    ensures OwnTag(NotifyMem(L, m, b), t, c) && PrevTag(NotifyMem(L, m, b), t, c)
  {
    hide Load, Store, IsFree, IsPrevFree, NotifyMem, Tiles;
    NextOf(L, t, b);
    assert c != b ==> OwnTag(m, t, c) && PrevTag(m, t, c);
    if c != b { NextStart(L, t, b, c); }
    NotifyReads(L, t.Keys, m, b, c);
    PrevFreeFlags(SizeFlagsAt(m, c));
    if End(t, c) in t {
      NotifyReads(L, t.Keys, m, b, End(t, c));
      PrevFreeFlags(SizeFlagsAt(m, End(t, c)));
    }
  }

  /** Telling the successor makes the tags of an allocated block right again. */
  lemma NotifyTags(L: Layout, m: seq<byte>, t: Tiling, X: set<nat>, b: nat)
    requires L.Valid() && Tiles(L, t) && Live(t, b) && b in X
    requires Starts(L, t.Keys) && TagsBut(L, m, t, X) && !IsFree(SizeFlagsAt(m, b))
    ensures NotifyMem.requires(L, m, b)
    ensures TagsBut(L, NotifyMem(L, m, b), t, X - {b})
  {
    hide Load, Store, IsFree, IsPrevFree, NotifyMem, Tiles;
    InsertHeaderDefined(L, m, t, X, b);
    var m' := NotifyMem(L, m, b);
    forall c | c in t && c !in X - {b} ensures OwnTag(m', t, c) && PrevTag(m', t, c) {
      NotifyTagsAt(L, m, t, X, b, c);
    }
    NextOf(L, t, b);
    forall c | c in t && c in X - {b} ensures SizeAt(m', c) == t[c].size { NotifyReads(L, t.Keys, m, b, c); }
    NotifyReads(L, t.Keys, m, b, 0);
  }

  function AllocatedMem(m: seq<byte>, b: nat): (r: seq<byte>)
    requires b + HEADER <= |m|
    ensures |r| == |m|
  {
    Store(m, b, 4, WithAllocated(SizeFlagsAt(m, b)))
  }

  lemma AllocatedReads(L: Layout, T: set<nat>, m: seq<byte>, b: nat, c: nat)
    requires L.Valid() && Starts(L, T) && |m| == L.pool && b in T && c in T
    ensures var m' := AllocatedMem(m, b);
            && SizeFlagsAt(m', c) == (if c == b then WithAllocated(SizeFlagsAt(m, c)) else SizeFlagsAt(m, c))
            && SizeAt(m', c) == SizeAt(m, c) && PrevSizeAt(m', c) == PrevSizeAt(m, c)
            && IsPrevFree(SizeFlagsAt(m', c)) == IsPrevFree(SizeFlagsAt(m, c))
            && NextFree(L, m', c) == NextFree(L, m, c) && PrevFree(L, m', c) == PrevFree(L, m, c)
  {
    hide Load, Store, IsFree, IsPrevFree;
    FreeFlags(SizeFlagsAt(m, b));
    HeaderBounds(m, b);
    HeaderStore(L, T, m, b, false, WithAllocated(SizeFlagsAt(m, b)), c);
  }

  lemma AllocatedTags(L: Layout, m: seq<byte>, t: Tiling, X: set<nat>, b: nat)
    requires L.Valid() && b in t && b in X && Starts(L, t.Keys) && TagsBut(L, m, t, X)
    ensures TagsBut(L, AllocatedMem(m, b), t, X) && !IsFree(SizeFlagsAt(AllocatedMem(m, b), b))
  {
    hide Load, Store, IsFree, IsPrevFree, AllocatedMem;
    var m' := AllocatedMem(m, b);
    AllocatedReads(L, t.Keys, m, b, b);
    FreeFlags(SizeFlagsAt(m, b));
    AllocatedReads(L, t.Keys, m, b, 0);
    forall c | c in t && c !in X ensures OwnTag(m', t, c) && PrevTag(m', t, c) {
      assert OwnTag(m, t, c) && PrevTag(m, t, c);
      AllocatedReads(L, t.Keys, m, b, c);
      if End(t, c) in t { AllocatedReads(L, t.Keys, m, b, End(t, c)); }
    }
    forall c | c in t && c in X ensures SizeAt(m', c) == t[c].size { AllocatedReads(L, t.Keys, m, b, c); }
  }
}
