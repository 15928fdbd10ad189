/** The NOR flash behind the page cache (drivers/storage/flash_device.hpp:59-116). Programming can only
    clear bits, so a write stores exactly the page only where the flash holds enough ones. A fault may make
    any program or erase operation fail without effect. */
module FlashDevice {

  type byte8 = bv8

  const ERASED: byte8 := 0xff

  /** What programming a page of flash with new data leaves there. */
  function Program(was: seq<byte8>, data: seq<byte8>): (r: seq<byte8>)
    requires |was| == |data|
    ensures |r| == |data|
  {
    seq(|data|, i requires 0 <= i < |data| => was[i] & data[i])
  }

  /** Programming v over a leaves v: v has no bit that a lacks. */
  ghost predicate Within(v: byte8, a: byte8) { a & v == v }

  /** The data asks for no bit to be set that the flash holds as zero. */
  ghost predicate Programmable(was: seq<byte8>, data: seq<byte8>)
    requires |was| == |data|
  {
    forall i | 0 <= i < |data| :: Within(data[i], was[i])
  }

  /** Programming stores exactly the data if and only if the data is programmable there. */
  lemma ProgramExact(was: seq<byte8>, data: seq<byte8>)
    requires |was| == |data|
    ensures Program(was, data) == data <==> Programmable(was, data)
  {
    if Program(was, data) == data {
      forall i | 0 <= i < |data| ensures Within(data[i], was[i]) {
        assert Program(was, data)[i] == data[i];
      }
    }
  }

  /** Whatever the data, each byte keeps the bits that both have: it is the greatest value within both. */
  lemma ProgramGreatest(was: seq<byte8>, data: seq<byte8>, i: nat, v: byte8)
    requires |was| == |data| && i < |data|
    ensures Within(Program(was, data)[i], was[i]) && Within(Program(was, data)[i], data[i])
    ensures Within(v, was[i]) && Within(v, data[i]) ==> Within(v, Program(was, data)[i])
  {
    Greatest(was[i], data[i], v);
  }

  lemma Greatest(a: byte8, b: byte8, v: byte8)
    ensures Within(a & b, a) && Within(a & b, b)
    ensures Within(v, a) && Within(v, b) ==> Within(v, a & b)
  {
  }

  /** Everything can be programmed onto erased flash. */
  lemma ErasedIsProgrammable(was: seq<byte8>, data: seq<byte8>)
    requires |was| == |data| && forall i | 0 <= i < |was| :: was[i] == ERASED
    ensures Programmable(was, data)
  {
  }

  /** Page sizes are powers of two, so that masking an offset divides it. */
  predicate PowerOfTwo(n: nat) { n == 1 || (n > 1 && n % 2 == 0 && PowerOfTwo(n / 2)) }

  datatype Geometry = Geometry(blockSize: nat, blockCount: nat, pageSize: nat) {
    predicate Valid() {
      0 < pageSize <= 256 && PowerOfTwo(pageSize) && blockSize % pageSize == 0
    }

    /** The page at offset o of block b exists. */
    predicate HasPage(b: nat, o: nat)
    {
      b < blockCount && o + pageSize <= blockSize
    }
  }

  /** o is where a page starts. */
  predicate Aligned(g: Geometry, o: nat) { g.pageSize > 0 && o % g.pageSize == 0 }

  /** The cells of the flash, block by block. */
  type Cells = seq<seq<byte8>>

  ghost predicate Shaped(g: Geometry, cells: Cells)
  {
    |cells| == g.blockCount && forall b | 0 <= b < |cells| :: |cells[b]| == g.blockSize
  }

  function PageOf(g: Geometry, cells: Cells, b: nat, o: nat): (p: seq<byte8>)
    requires Shaped(g, cells) && g.HasPage(b, o)
    ensures |p| == g.pageSize
  {
    cells[b][o..o + g.pageSize]
  }

  function WithPage(g: Geometry, cells: Cells, b: nat, o: nat, p: seq<byte8>): (r: Cells)
    requires Shaped(g, cells) && g.HasPage(b, o) && |p| == g.pageSize
    ensures Shaped(g, r)
  {
    cells[b := cells[b][..o] + p + cells[b][o + g.pageSize..]]
  }

  lemma WithPageReads(g: Geometry, cells: Cells, b: nat, o: nat, p: seq<byte8>, b': nat, o': nat)
    requires Shaped(g, cells) && g.HasPage(b, o) && |p| == g.pageSize && g.HasPage(b', o')
    requires b' != b || o' == o || o' + g.pageSize <= o || o + g.pageSize <= o'
    ensures PageOf(g, WithPage(g, cells, b, o, p), b', o')
            == if b' == b && o' == o then p else PageOf(g, cells, b', o')
  {
  }

  /** A page write: where, what the flash held there, and what it was given. */
  datatype Write = Write(b: nat, o: nat, before: seq<byte8>, data: seq<byte8>) {
    /** The flash stored what it was given. */
    ghost predicate Exact() { |before| == |data| && Programmable(before, data) }
  }

  class FlashDevice {
    const g: Geometry
    var cells: Cells

    ghost predicate Valid()
      reads this
    {
      g.Valid() && Shaped(g, cells)
    }

    /** How often a write or an erase has failed. */
    ghost var failures: nat
    /** The writes that have not failed. */
    ghost var writes: seq<Write>

    constructor (geometry: Geometry)
      requires geometry.Valid()
      ensures Valid() && g == geometry
      ensures forall b, x | 0 <= b < |cells| && 0 <= x < |cells[b]| :: cells[b][x] == ERASED
    {
      g := geometry;
      failures, writes := 0, [];
      cells := seq(geometry.blockCount, _ => seq(geometry.blockSize, _ => ERASED));
    }

    /** On failure the buffer keeps what it held. */
    method ReadPage(b: nat, o: nat, buf: seq<byte8>) returns (res: int, out: seq<byte8>)
      requires Valid() && |buf| == g.pageSize
      ensures res == if g.HasPage(b, o) then 0 else -1
      ensures out == if g.HasPage(b, o) then PageOf(g, cells, b, o) else buf
    {
      if !g.HasPage(b, o) {
        return -1, buf;
      }
      return 0, PageOf(g, cells, b, o);
    }

    method WritePage(b: nat, o: nat, data: seq<byte8>) returns (res: int)
      requires Valid() && |data| == g.pageSize
      modifies this
      ensures Valid() && failures == old(failures) + (if res == 0 then 0 else 1)
      ensures res != 0 ==> cells == old(cells) && writes == old(writes)
      ensures res == 0 ==> g.HasPage(b, o) && writes == old(writes) + [Write(b, o, PageOf(g, old(cells), b, o), data)]
      ensures res == 0 ==> cells == WithPage(g, old(cells), b, o, Program(PageOf(g, old(cells), b, o), data))
    {
      var fault: bool := *;
      if fault || !g.HasPage(b, o) {
        failures := failures + 1;
        return -1;
      }
      writes := writes + [Write(b, o, PageOf(g, cells, b, o), data)];
      cells := WithPage(g, cells, b, o, Program(PageOf(g, cells, b, o), data));
      res := 0;
    }

    method EraseBlock(b: nat) returns (res: int)
      requires Valid()
      modifies this
      ensures Valid()
      ensures failures == old(failures) + (if res == 0 then 0 else 1) && writes == old(writes)
      ensures res != 0 ==> cells == old(cells)
      ensures res == 0 ==> b < g.blockCount && cells == old(cells)[b := seq(g.blockSize, _ => ERASED)]
    {
      var fault: bool := *;
      if fault || b >= g.blockCount {
        failures := failures + 1;
        return -1;
      }
      cells := cells[b := seq(g.blockSize, _ => ERASED)];
      res := 0;
    }
  }
}
