/** What the allocator may not touch: the payload bytes of live blocks. */
module HeapPayload {
  import opened ByteMemory
  import opened TlsfMapping
  import opened FreeLists
  import opened HeapModel
  import opened HeapTags

  ghost predicate RangeSame(m: seq<byte>, m': seq<byte>, lo: nat, hi: nat)
  {
    |m'| == |m| && forall x | lo <= x < hi && x < |m| :: m'[x] == m[x]
  }

  /** Every payload byte of every live block is the same in m and m'. */
  ghost predicate PayloadSame(t: Tiling, m: seq<byte>, m': seq<byte>)
  {
    |m'| == |m| && forall c: nat {:trigger Live(t, c)} | Live(t, c) :: RangeSame(m, m', c + HEADER, End(t, c))
  }

  /** Every live block of t is live in t', and at least as large. */
  ghost predicate LiveWithin(t: Tiling, t': Tiling)
  {
    forall c: nat {:trigger Live(t, c)} | Live(t, c) :: Live(t', c) && t[c].size <= t'[c].size
  }

  lemma PayloadTrans(t: Tiling, t': Tiling, m: seq<byte>, m1: seq<byte>, m2: seq<byte>)
    requires PayloadSame(t, m, m1) && PayloadSame(t', m1, m2) && LiveWithin(t, t')
    ensures PayloadSame(t, m, m2)
  {
    forall c: nat | Live(t, c) ensures RangeSame(m, m2, c + HEADER, End(t, c)) {
      assert Live(t', c);
      assert RangeSame(m, m1, c + HEADER, End(t, c)) && RangeSame(m1, m2, c + HEADER, End(t', c));
    }
  }

  /** Block headers lie outside every payload. */
  lemma HeaderOutside(L: Layout, t: Tiling, s: nat, c: nat)
    requires L.Valid() && Tiles(L, t) && s in t && c in t
    ensures s + HEADER <= c + HEADER || End(t, c) <= s
  {
    assert InOrder(t, s, c) && InOrder(t, c, s);
  }

  lemma HeaderWrite(L: Layout, t: Tiling, m: seq<byte>, s: nat, off: nat, v: nat)
    requires L.Valid() && Tiles(L, t) && s in t && |m| == L.pool && off + 4 <= HEADER && s + HEADER <= |m|
    ensures PayloadSame(t, m, Store(m, s + off, 4, v))
  {
    hide Tiles;
    var m' := Store(m, s + off, 4, v);
    forall c: nat | Live(t, c) ensures RangeSame(m, m', c + HEADER, End(t, c)) { HeaderOutside(L, t, s, c); }
  }

  /** The link words of listed blocks lie outside every live payload. */
  lemma LinkWrite(L: Layout, t: Tiling, lists: Lists, m: seq<byte>, m': seq<byte>)
    requires L.Valid() && Tiles(L, t) && Filed(t, lists) && OnlyLinks(L, lists, m, m')
    ensures PayloadSame(t, m, m')
  {
    hide InsertBin, Tiles;
    forall c: nat | Live(t, c) ensures RangeSame(m, m', c + HEADER, End(t, c)) {
      forall x | c + HEADER <= x < End(t, c) && x < |m| ensures m'[x] == m[x] {
        assert !InLinks(L, lists, x) by {
          if InLinks(L, lists, x) {
            var k, i :| 0 <= k < BIN_COUNT && 0 <= i < |lists[k]|
                        && lists[k][i] + HEADER <= x < lists[k][i] + L.MinBlock();
            LinksOutside(L, t, lists[k][i], c);
          }
        }
      }
    }
  }

  lemma LinksOutside(L: Layout, t: Tiling, f: nat, c: nat)
    requires L.Valid() && Tiles(L, t) && f in t && t[f].free && Live(t, c)
    ensures f + L.MinBlock() <= c || End(t, c) <= f
  {
    assert InOrder(t, f, c) && InOrder(t, c, f) && BlockFits(L, t, f);
  }

  lemma SetSizePayload(L: Layout, t: Tiling, m: seq<byte>, b: nat, size: nat)
    requires L.Valid() && Tiles(L, t) && b in t && |m| == L.pool && b + HEADER <= |m|
    ensures PayloadSame(t, m, SetSizeMem(m, b, size))
  {
    hide Tiles, Store, PayloadSame;
    HeaderWrite(L, t, m, b, 0, WithSize(SizeFlagsAt(m, b), size));
  }

  lemma AllocatedPayload(L: Layout, t: Tiling, m: seq<byte>, b: nat)
    requires L.Valid() && Tiles(L, t) && b in t && |m| == L.pool && b + HEADER <= |m|
    ensures PayloadSame(t, m, AllocatedMem(m, b))
  {
    hide Tiles, Store, PayloadSame;
    HeaderWrite(L, t, m, b, 0, WithAllocated(SizeFlagsAt(m, b)));
  }

  lemma SelfWithin(t: Tiling)
    ensures LiveWithin(t, t)
  {
  }

  lemma SplitPayload(L: Layout, t: Tiling, m: seq<byte>, b: nat, r: nat, rest: nat)
    requires L.Valid() && Tiles(L, t) && b in t && b + r in t && |m| == L.pool
    requires b + HEADER <= |m| && b + r + HEADER <= |m|
    ensures PayloadSame(t, m, SplitMem(L, m, b, r, rest))
  {
    hide Tiles, Store, PayloadSame, LiveWithin, SetSizeMem;
    SelfWithin(t);
    var m1 := SetSizeMem(m, b, r);
    SetSizePayload(L, t, m, b, r);
    var m2 := Store(m1, b + r, 4, rest);
    HeaderWrite(L, t, m1, b + r, 0, rest);
    HeaderWrite(L, t, m2, b + r, 4, r);
    PayloadTrans(t, t, m, m1, m2);
    PayloadTrans(t, t, m, m2, Store(m2, b + r + 4, 4, r));
  }

  lemma InsertHeaderPayload(L: Layout, t: Tiling, m: seq<byte>, b: nat)
    requires L.Valid() && Tiles(L, t) && b in t && |m| == L.pool && InsertHeaderMem.requires(L, m, b)
    requires SizeAt(m, b) == t[b].size
    ensures PayloadSame(t, m, InsertHeaderMem(L, m, b))
  {
    hide Tiles, Load, Store, PayloadSame, LiveWithin, WithFree, WithPrevFree, IsFree, IsPrevFree;
    NextOf(L, t, b);
    SelfWithin(t);
    var n := End(t, b);
    var m1 := Store(m, b, 4, WithFree(SizeFlagsAt(m, b)));
    HeaderWrite(L, t, m, b, 0, WithFree(SizeFlagsAt(m, b)));
    if n < L.pool {
      var m2 := Store(m1, n, 4, WithPrevFree(SizeFlagsAt(m1, n)));
      HeaderWrite(L, t, m1, n, 0, WithPrevFree(SizeFlagsAt(m1, n)));
      HeaderWrite(L, t, m2, n, 4, SizeAt(m, b));
      PayloadTrans(t, t, m, m1, m2);
      PayloadTrans(t, t, m, m2, Store(m2, n + 4, 4, SizeAt(m, b)));
    }
  }

  lemma NotifyPayload(L: Layout, t: Tiling, m: seq<byte>, b: nat)
    requires L.Valid() && Tiles(L, t) && b in t && |m| == L.pool && NotifyMem.requires(L, m, b)
    requires SizeAt(m, b) == t[b].size
    ensures PayloadSame(t, m, NotifyMem(L, m, b))
  {
    NextOf(L, t, b);
    var n := End(t, b);
    if n < L.pool {
      hide Tiles, Store, PayloadSame, LiveWithin;
      SelfWithin(t);
      var m1 := Store(m, n, 4, WithPrevAllocated(SizeFlagsAt(m, n)));
      HeaderWrite(L, t, m, n, 0, WithPrevAllocated(SizeFlagsAt(m, n)));
      HeaderWrite(L, t, m1, n, 4, SizeAt(m, b));
      PayloadTrans(t, t, m, m1, Store(m1, n + 4, 4, SizeAt(m, b)));
    }
  }
}
