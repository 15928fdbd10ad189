/** The segregated free lists of LuaHeap as they lie in memory: doubly linked through the
    payload of the free blocks, with one list head per bin and a two-level bitmap
    (runtime/lua_heap.hpp, insert_free_block and remove_free_block). */
module FreeLists {
  import opened ByteMemory
  import opened TlsfMapping
  import opened Bitmap

  const HEADER: nat := 8
  const FLAG_FREE: nat := 1
  const FLAG_PREV_FREE: nat := 2
  const WORD: nat := 0x1_0000_0000

  type Lists = l: seq<seq<nat>> | |l| == BIN_COUNT witness seq(BIN_COUNT, _ => [])
  type Heads = h: seq<nat> | |h| == BIN_COUNT witness seq(BIN_COUNT, _ => 0)

  /** Where the pool lies and how wide a pointer is. Addresses are absolute, blocks are named by
      their offset in the pool. */
  datatype Layout = Layout(pool: nat, base: nat, ptr: nat) {

    predicate Valid() {
      && (ptr == 4 || ptr == 8)
      && pool % 8 == 0 && MinBlock() <= pool < WORD
      && base % 8 == 0 && 0 < base && base + pool <= Pow256(ptr)
    }

    /** sizeof(FreeNode): a header and two links. */
    function MinBlock(): nat { HEADER + 2 * ptr }

    function Addr(b: nat): nat { base + b }
  }

  function SizeOf(sf: nat): nat { sf - sf % 8 }
  predicate IsFree(sf: nat) { sf % 2 == 1 }
  predicate IsPrevFree(sf: nat) { sf % 4 >= 2 }

  function WithSize(sf: nat, size: nat): nat { sf % 8 + SizeOf(size) }
  function WithFree(sf: nat): nat { if IsFree(sf) then sf else sf + FLAG_FREE }
  function WithAllocated(sf: nat): nat { if IsFree(sf) then sf - FLAG_FREE else sf }
  function WithPrevFree(sf: nat): nat { if IsPrevFree(sf) then sf else sf + FLAG_PREV_FREE }
  function WithPrevAllocated(sf: nat): nat { if IsPrevFree(sf) then sf - FLAG_PREV_FREE else sf }

  /** The flags of a header word are those of its low three bits. */
  lemma LowBits(q: nat, low: nat)
    requires low < 8
    ensures SizeOf(8 * q + low) == 8 * q && (8 * q + low) % 8 == low
    ensures IsFree(8 * q + low) == IsFree(low) && IsPrevFree(8 * q + low) == IsPrevFree(low)
  {
    Remainder8(q, low);
    Remainder4(2 * q + low / 4, low % 4);
    Remainder2(4 * q + low / 2, low % 2);
  }

  lemma Remainder8(q: nat, r: nat)
    requires r < 8
    ensures (8 * q + r) % 8 == r
  {
  }

  lemma Remainder4(q: nat, r: nat)
    requires r < 4
    ensures (4 * q + r) % 4 == r
  {
  }

  lemma Remainder2(q: nat, r: nat)
    requires r < 2
    ensures (2 * q + r) % 2 == r
  {
  }

  lemma SizeFlags(sf: nat, size: nat)
    requires size % 8 == 0
    ensures SizeOf(WithSize(sf, size)) == size
    ensures IsFree(WithSize(sf, size)) == IsFree(sf) && IsPrevFree(WithSize(sf, size)) == IsPrevFree(sf)
  {
    LowBits(size / 8, sf % 8);
    LowBits(sf / 8, sf % 8);
  }

  lemma FlagBits(low: nat)
    requires low < 8
    ensures IsFree(low) ==> low >= 1 && !IsFree(low - 1) && IsPrevFree(low - 1) == IsPrevFree(low)
    ensures !IsFree(low) ==> low < 7 && IsFree(low + 1) && IsPrevFree(low + 1) == IsPrevFree(low)
    ensures IsPrevFree(low) ==> low >= 2 && !IsPrevFree(low - 2) && IsFree(low - 2) == IsFree(low)
    ensures !IsPrevFree(low) ==> low < 6 && IsPrevFree(low + 2) && IsFree(low + 2) == IsFree(low)
  {
  }

  lemma FreeFlags(sf: nat)
    ensures SizeOf(WithFree(sf)) == SizeOf(sf) && IsFree(WithFree(sf))
    ensures IsPrevFree(WithFree(sf)) == IsPrevFree(sf)
    ensures SizeOf(WithAllocated(sf)) == SizeOf(sf) && !IsFree(WithAllocated(sf))
    ensures IsPrevFree(WithAllocated(sf)) == IsPrevFree(sf)
  {
    var q, low := sf / 8, sf % 8;
    LowBits(q, low);
    FlagBits(low);
    var other := if IsFree(low) then low - 1 else low + 1;
    LowBits(q, other);
  }

  lemma PrevFreeFlags(sf: nat)
    ensures SizeOf(WithPrevFree(sf)) == SizeOf(sf) && IsFree(WithPrevFree(sf)) == IsFree(sf)
    ensures IsPrevFree(WithPrevFree(sf))
    ensures SizeOf(WithPrevAllocated(sf)) == SizeOf(sf) && IsFree(WithPrevAllocated(sf)) == IsFree(sf)
    ensures !IsPrevFree(WithPrevAllocated(sf))
  {
    var q, low := sf / 8, sf % 8;
    LowBits(q, low);
    FlagBits(low);
    var other := if IsPrevFree(low) then low - 2 else low + 2;
    LowBits(q, other);
  }

  // ----- The fields of a block in memory

  function SizeFlagsAt(m: seq<byte>, b: nat): nat
    requires b + HEADER <= |m|
  {
    Load(m, b, 4)
  }

  function PrevSizeAt(m: seq<byte>, b: nat): nat
    requires b + HEADER <= |m|
  {
    Load(m, b + 4, 4)
  }

  function NextFree(L: Layout, m: seq<byte>, b: nat): nat
    requires b + L.MinBlock() <= |m|
  {
    Load(m, b + HEADER, L.ptr)
  }

  function PrevFree(L: Layout, m: seq<byte>, b: nat): nat
    requires b + L.MinBlock() <= |m|
  {
    Load(m, b + HEADER + L.ptr, L.ptr)
  }

  function SizeAt(m: seq<byte>, b: nat): nat
    requires b + HEADER <= |m|
  {
    SizeOf(SizeFlagsAt(m, b))
  }

  // ----- The invariant of the lists

  /** The block boundaries: far enough apart that headers and links never overlap. */
  ghost predicate Starts(L: Layout, T: set<nat>)
  {
    && (forall b | b in T :: b + L.MinBlock() <= L.pool)
    && (forall a, b | a in T && b in T && a < b :: a + L.MinBlock() <= b)
  }

  ghost function LinkAfter(L: Layout, l: seq<nat>, i: nat): nat
    requires i < |l|
  {
    if i + 1 < |l| then L.Addr(l[i + 1]) else 0
  }

  ghost function LinkBefore(L: Layout, l: seq<nat>, i: nat): nat
    requires i < |l|
  {
    if i > 0 then L.Addr(l[i - 1]) else 0
  }

  ghost function Front(L: Layout, l: seq<nat>): nat
  {
    if l == [] then 0 else L.Addr(l[0])
  }

  ghost predicate NodeOk(L: Layout, T: set<nat>, m: seq<byte>, l: seq<nat>, k: nat, i: nat)
    requires Starts(L, T) && |m| == L.pool && i < |l|
  {
    && l[i] in T
    && InsertBin(SizeAt(m, l[i])) == k
    && NextFree(L, m, l[i]) == LinkAfter(L, l, i)
    && PrevFree(L, m, l[i]) == LinkBefore(L, l, i)
  }

  ghost predicate ListOk(L: Layout, T: set<nat>, m: seq<byte>, l: seq<nat>, k: nat)
    requires Starts(L, T) && |m| == L.pool
  {
    && (forall i | 0 <= i < |l| :: NodeOk(L, T, m, l, k, i))
    && (forall i, j | 0 <= i < j < |l| :: l[i] != l[j])
  }

  ghost predicate Linked(L: Layout, T: set<nat>, m: seq<byte>, heads: Heads, lists: Lists)
    requires Starts(L, T) && |m| == L.pool
  {
    forall k | 0 <= k < BIN_COUNT :: ListOk(L, T, m, lists[k], k) && heads[k] == Front(L, lists[k])
  }

  /** x lies in the link words of some listed block. */
  ghost predicate InLinks(L: Layout, lists: Lists, x: int)
  {
    exists k, i :: 0 <= k < BIN_COUNT && 0 <= i < |lists[k]|
                   && lists[k][i] + HEADER <= x < lists[k][i] + L.MinBlock()
  }

  /** Nothing but link words of listed blocks differs. */
  ghost predicate OnlyLinks(L: Layout, lists: Lists, m: seq<byte>, m': seq<byte>)
  {
    && |m'| == |m|
    && forall x | 0 <= x < |m| && !InLinks(L, lists, x) :: m'[x] == m[x]
  }

  // ----- remove_free_block

  /** The neighbours p and n of a list linked to each other. */
  function JoinMem(L: Layout, m: seq<byte>, p: nat, n: nat): (r: seq<byte>)
    requires p == 0 || (L.base <= p && p - L.base + L.MinBlock() <= |m|)
    requires n == 0 || (L.base <= n && n - L.base + L.MinBlock() <= |m|)
    ensures |r| == |m|
  {
    var m1 := if p == 0 then m else Store(m, p - L.base + HEADER, L.ptr, n);
    if n == 0 then m1 else Store(m1, n - L.base + HEADER + L.ptr, L.ptr, p)
  }

  function RemoveMem(L: Layout, m: seq<byte>, b: nat): (r: seq<byte>)
    requires b + L.MinBlock() <= |m|
    requires var p := PrevFree(L, m, b); p == 0 || (L.base <= p && p - L.base + L.MinBlock() <= |m|)
    requires var n := NextFree(L, m, b); n == 0 || (L.base <= n && n - L.base + L.MinBlock() <= |m|)
    ensures |r| == |m|
  {
    var m2 := JoinMem(L, m, PrevFree(L, m, b), NextFree(L, m, b));
    Store(Store(m2, b + HEADER, L.ptr, 0), b + HEADER + L.ptr, L.ptr, 0)
  }

  /** What a block's fields read after a store into the link words of block s (offset 0 or ptr). */
  lemma LinkStore(L: Layout, T: set<nat>, m: seq<byte>, s: nat, second: bool, v: nat, c: nat)
    requires L.Valid() && Starts(L, T) && |m| == L.pool && s in T && c in T && v < Pow256(L.ptr)
    ensures var m' := Store(m, s + HEADER + (if second then L.ptr else 0), L.ptr, v);
            && SizeFlagsAt(m', c) == SizeFlagsAt(m, c)
            && PrevSizeAt(m', c) == PrevSizeAt(m, c)
            && NextFree(L, m', c) == (if c == s && !second then v else NextFree(L, m, c))
            && PrevFree(L, m', c) == (if c == s && second then v else PrevFree(L, m, c))
  {
    hide Load, Store, Pow256;
    var a := s + HEADER + (if second then L.ptr else 0);
    LoadApart(m, a, L.ptr, v, c, 4);
    LoadApart(m, a, L.ptr, v, c + 4, 4);
    if c == s && !second { LoadStored(m, a, L.ptr, v); } else { LoadApart(m, a, L.ptr, v, c + HEADER, L.ptr); }
    if c == s && second { LoadStored(m, a, L.ptr, v); } else { LoadApart(m, a, L.ptr, v, c + HEADER + L.ptr, L.ptr); }
  }

  lemma PtrRange(L: Layout)
    requires L.Valid()
    ensures 0 < Pow256(L.ptr)
  {
  }

  lemma JoinReads(L: Layout, T: set<nat>, m: seq<byte>, p: nat, n: nat, c: nat)
    requires L.Valid() && Starts(L, T) && |m| == L.pool && c in T && p < Pow256(L.ptr) && n < Pow256(L.ptr)
    requires p == 0 || (L.base <= p && p - L.base in T)
    requires n == 0 || (L.base <= n && n - L.base in T)
    ensures JoinMem.requires(L, m, p, n)
    ensures var m' := JoinMem(L, m, p, n);
            && SizeFlagsAt(m', c) == SizeFlagsAt(m, c)
            && PrevSizeAt(m', c) == PrevSizeAt(m, c)
            && NextFree(L, m', c) == (if p != 0 && p == L.Addr(c) then n else NextFree(L, m, c))
            && PrevFree(L, m', c) == (if n != 0 && n == L.Addr(c) then p else PrevFree(L, m, c))
  {
    hide Load, Store, Pow256, SizeFlagsAt, PrevSizeAt;
    if p != 0 { LinkStore(L, T, m, p - L.base, false, n, c); }
    var m1 := if p == 0 then m else Store(m, p - L.base + HEADER, L.ptr, n);
    if n != 0 { LinkStore(L, T, m1, n - L.base, true, p, c); }
  }

  lemma RemoveReads(L: Layout, T: set<nat>, m: seq<byte>, b: nat, p: nat, n: nat, c: nat)
    requires L.Valid() && Starts(L, T) && |m| == L.pool && b in T && c in T
    requires p == PrevFree(L, m, b) && n == NextFree(L, m, b)
    requires p == 0 || (L.base <= p && p - L.base in T && p - L.base != b)
    requires n == 0 || (L.base <= n && n - L.base in T && n - L.base != b)
    ensures var m' := RemoveMem(L, m, b);
            && SizeFlagsAt(m', c) == SizeFlagsAt(m, c)
            && PrevSizeAt(m', c) == PrevSizeAt(m, c)
            && (c != b ==> NextFree(L, m', c) == if p == L.Addr(c) then n else NextFree(L, m, c))
            && (c != b ==> PrevFree(L, m', c) == if n == L.Addr(c) then p else PrevFree(L, m, c))
  {
    hide Load, Store, Pow256, JoinMem, SizeFlagsAt, PrevSizeAt;
    LoadBound(m, b + HEADER, L.ptr); LoadBound(m, b + HEADER + L.ptr, L.ptr);
    JoinReads(L, T, m, p, n, c);
    var m2 := JoinMem(L, m, p, n);
    PtrRange(L);
    LinkStore(L, T, m2, b, false, 0, c);
    LinkStore(L, T, Store(m2, b + HEADER, L.ptr, 0), b, true, 0, c);
  }

  lemma NodeNeighbours(L: Layout, T: set<nat>, m: seq<byte>, l: seq<nat>, k: nat, i: nat)
    requires L.Valid() && Starts(L, T) && |m| == L.pool && ListOk(L, T, m, l, k) && i < |l|
    ensures l[i] in T
    ensures var p, n := PrevFree(L, m, l[i]), NextFree(L, m, l[i]);
            && (p == 0 <==> i == 0) && (n == 0 <==> i + 1 == |l|)
            && (p != 0 ==> p == L.Addr(l[i - 1]) && l[i - 1] in T && l[i - 1] != l[i])
            && (n != 0 ==> n == L.Addr(l[i + 1]) && l[i + 1] in T && l[i + 1] != l[i])
  {
    hide Load;
    assert NodeOk(L, T, m, l, k, i);
    assert i > 0 ==> NodeOk(L, T, m, l, k, i - 1);
    assert i + 1 < |l| ==> NodeOk(L, T, m, l, k, i + 1);
  }

  function Without(l: seq<nat>, i: nat): seq<nat>
    requires i < |l|
  {
    l[..i] + l[i + 1..]
  }

  lemma RemoveFromList(L: Layout, T: set<nat>, m: seq<byte>, l: seq<nat>, k: nat, i: nat)
    requires L.Valid() && Starts(L, T) && |m| == L.pool && ListOk(L, T, m, l, k) && i < |l|
    ensures l[i] in T && RemoveMem.requires(L, m, l[i])
    ensures ListOk(L, T, RemoveMem(L, m, l[i]), Without(l, i), k)
  {
    hide Load, Store, InsertBin, RemoveMem, NodeOk;
    NodeNeighbours(L, T, m, l, k, i);
    var l' := Without(l, i);
    forall j | 0 <= j < |l'| ensures NodeOk(L, T, RemoveMem(L, m, l[i]), l', k, j) {
      RemoveNode(L, T, m, l, k, i, j);
    }
  }

  lemma RemoveNode(L: Layout, T: set<nat>, m: seq<byte>, l: seq<nat>, k: nat, i: nat, j: nat)
    requires L.Valid() && Starts(L, T) && |m| == L.pool && ListOk(L, T, m, l, k) && i < |l| && j < |l| - 1
    requires l[i] in T && RemoveMem.requires(L, m, l[i])
    ensures NodeOk(L, T, RemoveMem(L, m, l[i]), Without(l, i), k, j)
  {
    hide Load, Store, InsertBin, RemoveMem;
    NodeNeighbours(L, T, m, l, k, i);
    var b, l' := l[i], Without(l, i);
    var p, n := PrevFree(L, m, b), NextFree(L, m, b);
    var j0 := if j < i then j else j + 1;
    assert NodeOk(L, T, m, l, k, j0) && NodeOk(L, T, m, l, k, i);
    RemoveReads(L, T, m, b, p, n, l'[j]);
  }

  lemma RemoveFromOther(L: Layout, T: set<nat>, m: seq<byte>, l: seq<nat>, k: nat, i: nat, o: seq<nat>, k': nat)
    requires L.Valid() && Starts(L, T) && |m| == L.pool && ListOk(L, T, m, l, k) && i < |l|
    requires ListOk(L, T, m, o, k') && k' != k
    ensures l[i] in T && RemoveMem.requires(L, m, l[i])
    ensures ListOk(L, T, RemoveMem(L, m, l[i]), o, k')
  {
    hide Load, Store, InsertBin, RemoveMem;
    NodeNeighbours(L, T, m, l, k, i);
    var b := l[i];
    var p, n, m' := PrevFree(L, m, b), NextFree(L, m, b), RemoveMem(L, m, b);
    assert NodeOk(L, T, m, l, k, i);
    assert i > 0 ==> NodeOk(L, T, m, l, k, i - 1);
    assert i + 1 < |l| ==> NodeOk(L, T, m, l, k, i + 1);
    forall j | 0 <= j < |o| ensures NodeOk(L, T, m', o, k', j) {
      assert NodeOk(L, T, m, o, k', j);
      RemoveReads(L, T, m, b, p, n, o[j]);
    }
  }

  function RemoveHeads(L: Layout, m: seq<byte>, heads: Heads, k: nat, b: nat): Heads
    requires b + L.MinBlock() <= |m| && k < BIN_COUNT
  {
    if PrevFree(L, m, b) == 0 then heads[k := NextFree(L, m, b)] else heads
  }

  /** Unlinking a listed block leaves well-formed lists without it. */
  lemma RemoveLinked(L: Layout, T: set<nat>, m: seq<byte>, heads: Heads, lists: Lists, k: nat, i: nat)
    requires L.Valid() && Starts(L, T) && |m| == L.pool && Linked(L, T, m, heads, lists)
    requires k < BIN_COUNT && i < |lists[k]|
    ensures var b := lists[k][i];
            && b in T && RemoveMem.requires(L, m, b)
            && Linked(L, T, RemoveMem(L, m, b), RemoveHeads(L, m, heads, k, b), lists[k := Without(lists[k], i)])
            && OnlyLinks(L, lists, m, RemoveMem(L, m, b))
  {
    hide Load, Store, InsertBin, RemoveMem, NodeOk, InLinks, OnlyLinks;
    var l := lists[k];
    var b := l[i];
    RemoveFromList(L, T, m, l, k, i);
    NodeNeighbours(L, T, m, l, k, i);
    var lists', heads' := lists[k := Without(l, i)], RemoveHeads(L, m, heads, k, b);
    forall k' | 0 <= k' < BIN_COUNT
      ensures ListOk(L, T, RemoveMem(L, m, b), lists'[k'], k') && heads'[k'] == Front(L, lists'[k'])
    {
      if k' != k { RemoveFromOther(L, T, m, l, k, i, lists[k'], k'); }
    }
    RemoveFrame(L, T, m, lists, k, i);
  }

  lemma InLinksAt(L: Layout, lists: Lists, k: nat, i: nat, x: nat)
    requires k < BIN_COUNT && i < |lists[k]| && lists[k][i] + HEADER <= x < lists[k][i] + L.MinBlock()
    ensures InLinks(L, lists, x)
  {
  }

  /** Removing a block writes only the link words of it and of its neighbours. */
  lemma RemoveElsewhere(L: Layout, m: seq<byte>, b: nat, x: nat)
    requires RemoveMem.requires(L, m, b) && x < |m|
    ensures var p, n := PrevFree(L, m, b), NextFree(L, m, b);
            && !(b + HEADER <= x < b + L.MinBlock())
            && (p != 0 ==> !(p - L.base + HEADER <= x < p - L.base + L.MinBlock()))
            && (n != 0 ==> !(n - L.base + HEADER <= x < n - L.base + L.MinBlock()))
            ==> RemoveMem(L, m, b)[x] == m[x]
  {
    hide Load;
  }

  lemma RemoveFrame(L: Layout, T: set<nat>, m: seq<byte>, lists: Lists, k: nat, i: nat)
    requires L.Valid() && Starts(L, T) && |m| == L.pool
    requires k < BIN_COUNT && i < |lists[k]| && ListOk(L, T, m, lists[k], k)
    ensures lists[k][i] in T && RemoveMem.requires(L, m, lists[k][i])
    ensures OnlyLinks(L, lists, m, RemoveMem(L, m, lists[k][i]))
  {
    hide Load, InsertBin, InLinks, RemoveMem;
    NodeNeighbours(L, T, m, lists[k], k, i);
    assert NodeOk(L, T, m, lists[k], k, i);
    var m' := RemoveMem(L, m, lists[k][i]);
    forall x | 0 <= x < |m| && !InLinks(L, lists, x) ensures m'[x] == m[x] {
      RemoveElsewhere(L, m, lists[k][i], x);
      if i > 0 && lists[k][i - 1] + HEADER <= x < lists[k][i - 1] + L.MinBlock() { InLinksAt(L, lists, k, i - 1, x); }
      if i + 1 < |lists[k]| && lists[k][i + 1] + HEADER <= x < lists[k][i + 1] + L.MinBlock() {
        InLinksAt(L, lists, k, i + 1, x);
      }
      if lists[k][i] + HEADER <= x < lists[k][i] + L.MinBlock() { InLinksAt(L, lists, k, i, x); }
    }
  }

  // ----- insert_free_block

  lemma WordWidth()
    ensures Pow256(4) == WORD
  {
  }

  /** What a block's fields read after a store into the header of block s (size word or prev_size word). */
  lemma HeaderStore(L: Layout, T: set<nat>, m: seq<byte>, s: nat, second: bool, v: nat, c: nat)
    requires L.Valid() && Starts(L, T) && |m| == L.pool && s in T && c in T && v < WORD
    ensures var m' := Store(m, s + (if second then 4 else 0), 4, v);
            && SizeFlagsAt(m', c) == (if c == s && !second then v else SizeFlagsAt(m, c))
            && PrevSizeAt(m', c) == (if c == s && second then v else PrevSizeAt(m, c))
            && NextFree(L, m', c) == NextFree(L, m, c)
            && PrevFree(L, m', c) == PrevFree(L, m, c)
  {
    hide Load, Store, Pow256;
    WordWidth();
    var a := s + (if second then 4 else 0);
    LoadApart(m, a, 4, v, c + HEADER, L.ptr);
    LoadApart(m, a, 4, v, c + HEADER + L.ptr, L.ptr);
    if c == s && !second { LoadStored(m, a, 4, v); } else { LoadApart(m, a, 4, v, c, 4); }
    if c == s && second { LoadStored(m, a, 4, v); } else { LoadApart(m, a, 4, v, c + 4, 4); }
  }

  lemma HeaderBounds(m: seq<byte>, b: nat)
    requires b + HEADER <= |m|
    ensures SizeFlagsAt(m, b) < WORD && PrevSizeAt(m, b) < WORD
    ensures WithFree(SizeFlagsAt(m, b)) < WORD && WithPrevFree(SizeFlagsAt(m, b)) < WORD
  {
    LoadBound(m, b, 4); LoadBound(m, b + 4, 4);
    WordWidth();
  }

  /** The header words written when block b joins a list: its own free flag and its successor's view of it. */
  function InsertHeaderMem(L: Layout, m: seq<byte>, b: nat): (r: seq<byte>)
    requires b + HEADER <= |m|
    requires var n := b + SizeAt(m, b); n >= L.pool || n + HEADER <= |m|
    ensures |r| == |m|
  {
    var m1 := Store(m, b, 4, WithFree(SizeFlagsAt(m, b)));
    var n := b + SizeAt(m, b);
    if n < L.pool then Store(Store(m1, n, 4, WithPrevFree(SizeFlagsAt(m1, n))), n + 4, 4, SizeAt(m, b)) else m1
  }

  /** The link words written when block b goes to the front of a list with the given head. */
  function InsertLinkMem(L: Layout, m: seq<byte>, b: nat, head: nat): (r: seq<byte>)
    requires b + L.MinBlock() <= |m|
    requires head == 0 || (L.base <= head && head - L.base + L.MinBlock() <= |m|)
    ensures |r| == |m|
  {
    var m2 := Store(Store(m, b + HEADER + L.ptr, L.ptr, 0), b + HEADER, L.ptr, head);
    if head == 0 then m2 else Store(m2, head - L.base + HEADER + L.ptr, L.ptr, L.Addr(b))
  }

  lemma InsertHeaderReads(L: Layout, T: set<nat>, m: seq<byte>, b: nat, c: nat)
    requires L.Valid() && Starts(L, T) && |m| == L.pool && b in T && c in T
    requires SizeAt(m, b) > 0 && (b + SizeAt(m, b) == L.pool || b + SizeAt(m, b) in T)
    ensures var m', n := InsertHeaderMem(L, m, b), b + SizeAt(m, b);
            && SizeFlagsAt(m', c) == (if c == b then WithFree(SizeFlagsAt(m, b))
                                      else if c == n then WithPrevFree(SizeFlagsAt(m, c)) else SizeFlagsAt(m, c))
            && PrevSizeAt(m', c) == (if c == n then SizeAt(m, b) else PrevSizeAt(m, c))
            && NextFree(L, m', c) == NextFree(L, m, c)
            && PrevFree(L, m', c) == PrevFree(L, m, c)
            && SizeAt(m', c) == SizeAt(m, c)
  {
    hide Load, Store;
    var sf, n := SizeFlagsAt(m, b), b + SizeAt(m, b);
    HeaderBounds(m, b);
    FreeFlags(sf); PrevFreeFlags(SizeFlagsAt(m, c));
    var m1 := Store(m, b, 4, WithFree(sf));
    HeaderStore(L, T, m, b, false, WithFree(sf), c);
    if n < L.pool {
      HeaderStore(L, T, m, b, false, WithFree(sf), n);
      HeaderBounds(m1, n);
      var v := WithPrevFree(SizeFlagsAt(m1, n));
      HeaderStore(L, T, m1, n, false, v, c);
      HeaderStore(L, T, Store(m1, n, 4, v), n, true, SizeAt(m, b), c);
    }
  }

  lemma InsertLinkReads(L: Layout, T: set<nat>, m: seq<byte>, b: nat, head: nat, c: nat)
    requires L.Valid() && Starts(L, T) && |m| == L.pool && b in T && c in T
    requires head == 0 || (L.base <= head && head - L.base in T && head - L.base != b)
    ensures var m' := InsertLinkMem(L, m, b, head);
            && SizeFlagsAt(m', c) == SizeFlagsAt(m, c) && PrevSizeAt(m', c) == PrevSizeAt(m, c)
            && NextFree(L, m', c) == (if c == b then head else NextFree(L, m, c))
            && PrevFree(L, m', c) == (if c == b then 0 else if head == L.Addr(c) then L.Addr(b) else PrevFree(L, m, c))
  {
    hide Load, Store, Pow256;
    var m1 := Store(m, b + HEADER + L.ptr, L.ptr, 0);
    LinkStore(L, T, m, b, true, 0, c);
    LinkStore(L, T, m1, b, false, head, c);
    if head != 0 {
      LinkStore(L, T, Store(m1, b + HEADER, L.ptr, head), head - L.base, true, L.Addr(b), c);
    }
  }

  ghost predicate Listed(lists: Lists, b: nat)
  {
    exists k, i :: 0 <= k < BIN_COUNT && 0 <= i < |lists[k]| && lists[k][i] == b
  }

  /** Lists only depend on the sizes and links of their blocks. */
  lemma LinkedFrame(L: Layout, T: set<nat>, m: seq<byte>, m': seq<byte>, heads: Heads, lists: Lists, X: set<nat>)
    requires Starts(L, T) && |m| == L.pool && |m'| == L.pool && Linked(L, T, m, heads, lists)
    requires forall b | b in X :: !Listed(lists, b)
    requires forall c | c in T && c !in X :: SizeAt(m', c) == SizeAt(m, c)
    requires forall c | c in T && c !in X ::
               NextFree(L, m', c) == NextFree(L, m, c) && PrevFree(L, m', c) == PrevFree(L, m, c)
    ensures Linked(L, T, m', heads, lists)
  {
    hide Load, InsertBin;
    forall k | 0 <= k < BIN_COUNT ensures ListOk(L, T, m', lists[k], k) {
      forall i | 0 <= i < |lists[k]| ensures NodeOk(L, T, m', lists[k], k, i) {
        assert NodeOk(L, T, m, lists[k], k, i);
      }
    }
  }

  lemma LinkedStarts(L: Layout, T: set<nat>, T': set<nat>, m: seq<byte>, heads: Heads, lists: Lists)
    requires Starts(L, T) && Starts(L, T') && |m| == L.pool && Linked(L, T, m, heads, lists)
    requires forall k, i | 0 <= k < BIN_COUNT && 0 <= i < |lists[k]| :: lists[k][i] in T'
    ensures Linked(L, T', m, heads, lists)
  {
    hide Load, InsertBin;
    forall k | 0 <= k < BIN_COUNT ensures ListOk(L, T', m, lists[k], k) {
      forall i | 0 <= i < |lists[k]| ensures NodeOk(L, T', m, lists[k], k, i) {
        assert NodeOk(L, T, m, lists[k], k, i);
      }
    }
  }

  lemma InsertIntoList(L: Layout, T: set<nat>, m: seq<byte>, l: seq<nat>, k: nat, b: nat)
    requires L.Valid() && Starts(L, T) && |m| == L.pool && b in T && b !in l && ListOk(L, T, m, l, k)
    requires InsertBin(SizeAt(m, b)) == k
    ensures InsertLinkMem.requires(L, m, b, Front(L, l))
    ensures ListOk(L, T, InsertLinkMem(L, m, b, Front(L, l)), [b] + l, k)
  {
    hide Load, Store, InsertBin, InsertLinkMem;
    var l', h := [b] + l, Front(L, l);
    assert |l| > 0 ==> NodeOk(L, T, m, l, k, 0);
    var m' := InsertLinkMem(L, m, b, h);
    forall j | 0 <= j < |l'| ensures NodeOk(L, T, m', l', k, j) {
      assert j > 0 ==> NodeOk(L, T, m, l, k, j - 1);
      InsertLinkReads(L, T, m, b, h, l'[j]);
    }
  }

  lemma InsertIntoOther(L: Layout, T: set<nat>, m: seq<byte>, l: seq<nat>, k: nat, b: nat, o: seq<nat>, k': nat)
    requires L.Valid() && Starts(L, T) && |m| == L.pool && b in T && b !in l && b !in o && ListOk(L, T, m, l, k)
    requires ListOk(L, T, m, o, k') && k' != k
    ensures InsertLinkMem.requires(L, m, b, Front(L, l))
    ensures ListOk(L, T, InsertLinkMem(L, m, b, Front(L, l)), o, k')
  {
    hide Load, Store, InsertBin, InsertLinkMem;
    var h := Front(L, l);
    assert |l| > 0 ==> NodeOk(L, T, m, l, k, 0);
    forall j | 0 <= j < |o| ensures NodeOk(L, T, InsertLinkMem(L, m, b, h), o, k', j) {
      assert NodeOk(L, T, m, o, k', j);
      InsertLinkReads(L, T, m, b, h, o[j]);
    }
  }

  /** Pushing an unlisted block on the list of its bin leaves well-formed lists. */
  lemma InsertLinked(L: Layout, T: set<nat>, m: seq<byte>, heads: Heads, lists: Lists, b: nat, k: nat)
    requires L.Valid() && Starts(L, T) && |m| == L.pool && b in T && Linked(L, T, m, heads, lists)
    requires k == InsertBin(SizeAt(m, b)) && !Listed(lists, b)
    ensures InsertLinkMem.requires(L, m, b, heads[k])
    ensures Linked(L, T, InsertLinkMem(L, m, b, heads[k]), heads[k := L.Addr(b)], lists[k := [b] + lists[k]])
    ensures OnlyLinks(L, lists[k := [b] + lists[k]], m, InsertLinkMem(L, m, b, heads[k]))
  {
    hide Load, Store, InsertBin, InsertLinkMem, NodeOk, InLinks, OnlyLinks;
    var lists', heads' := lists[k := [b] + lists[k]], heads[k := L.Addr(b)];
    assert forall k | 0 <= k < BIN_COUNT :: b !in lists[k];
    InsertIntoList(L, T, m, lists[k], k, b);
    forall k' | 0 <= k' < BIN_COUNT
      ensures ListOk(L, T, InsertLinkMem(L, m, b, heads[k]), lists'[k'], k') && heads'[k'] == Front(L, lists'[k'])
    {
      if k' != k { InsertIntoOther(L, T, m, lists[k], k, b, lists[k'], k'); }
    }
    InsertFrame(L, T, m, heads, lists, b, k);
  }

  lemma InsertFrame(L: Layout, T: set<nat>, m: seq<byte>, heads: Heads, lists: Lists, b: nat, k: nat)
    requires L.Valid() && Starts(L, T) && |m| == L.pool && b in T && k < BIN_COUNT
    requires ListOk(L, T, m, lists[k], k) && heads[k] == Front(L, lists[k])
    ensures InsertLinkMem.requires(L, m, b, heads[k])
    ensures OnlyLinks(L, lists[k := [b] + lists[k]], m, InsertLinkMem(L, m, b, heads[k]))
  {
    hide Load, InsertBin, InLinks;
    var lists' := lists[k := [b] + lists[k]];
    assert |lists[k]| > 0 ==> NodeOk(L, T, m, lists[k], k, 0);
    var m' := InsertLinkMem(L, m, b, heads[k]);
    forall x | 0 <= x < |m| && !InLinks(L, lists', x) ensures m'[x] == m[x] {
      if b + HEADER <= x < b + L.MinBlock() { InLinksAt(L, lists', k, 0, x); }
      if |lists[k]| > 0 && lists[k][0] + HEADER <= x < lists[k][0] + L.MinBlock() { InLinksAt(L, lists', k, 1, x); }
    }
  }

  // ----- The two-level bitmap

  type SecondLevel = s: seq<bv32> | |s| == FL_INDEX_COUNT witness seq(FL_INDEX_COUNT, _ => 0)

  /** A bit is set exactly when its list (second level) or its row (first level) is non-empty. */
  ghost predicate Mapped(fl: bv32, sl: SecondLevel, lists: Lists)
  {
    && fl < 0x10000
    && (forall f | 0 <= f < FL_INDEX_COUNT :: sl[f] < 0x10000 && (Bit(fl, f) <==> sl[f] != 0))
    && (forall f | FL_INDEX_COUNT <= f < 16 :: !Bit(fl, f))
    && (forall f, s | 0 <= f < FL_INDEX_COUNT && 0 <= s < SL_INDEX_COUNT ::
          Bit(sl[f], s) <==> lists[SL_INDEX_COUNT * f + s] != [])
  }

  lemma BinIndex(k: nat)
    requires k < BIN_COUNT
    ensures k / SL_INDEX_COUNT < FL_INDEX_COUNT && k % SL_INDEX_COUNT < SL_INDEX_COUNT
    ensures SL_INDEX_COUNT * (k / SL_INDEX_COUNT) + k % SL_INDEX_COUNT == k
  {
  }

  lemma SetMapped(fl: bv32, sl: SecondLevel, lists: Lists, k: nat, l: seq<nat>)
    requires Mapped(fl, sl, lists) && k < BIN_COUNT && l != []
    ensures var (f, s) := (k / SL_INDEX_COUNT, k % SL_INDEX_COUNT);
            Mapped(SetBit(fl, f), sl[f := SetBit(sl[f], s)], lists[k := l])
  {
    hide Bit, SetBit;
    BinIndex(k);
    SetBitBits(fl, k / SL_INDEX_COUNT);
    SetBitBits(sl[k / SL_INDEX_COUNT], k % SL_INDEX_COUNT);
  }

  lemma SameMapped(fl: bv32, sl: SecondLevel, lists: Lists, k: nat, l: seq<nat>)
    requires Mapped(fl, sl, lists) && k < BIN_COUNT && l != [] && lists[k] != []
    ensures Mapped(fl, sl, lists[k := l])
  {
    hide Bit;
  }

  lemma ClearMapped(fl: bv32, sl: SecondLevel, lists: Lists, k: nat)
    requires Mapped(fl, sl, lists) && k < BIN_COUNT
    ensures var (f, s) := (k / SL_INDEX_COUNT, k % SL_INDEX_COUNT);
            var row := ClearBit(sl[f], s);
            Mapped(if row == 0 then ClearBit(fl, f) else fl, sl[f := row], lists[k := []])
  {
    hide Bit, ClearBit;
    BinIndex(k);
    var f, s := k / SL_INDEX_COUNT, k % SL_INDEX_COUNT;
    ClearBitBits(fl, f);
    ClearBitBits(sl[f], s);
    ZeroMap(sl[f]); ZeroMap(ClearBit(sl[f], s));
  }
}
