/** The B-to-A firmware swap as a function of how many flash operations have completed
    (bootloader/boot_main.cpp:60-73, 89-152; kernel/core/firmware_header.hpp:8-26). */
module FirmwareSwap {
  import opened Arithmetic
  import opened ByteMemory

  type Word = w: int | 0 <= w < 0x1_0000_0000
  type Byte = byte
  type Flash = seq<Word>

  const ERASED: Word := 0xffff_ffff
  const MAGIC: Word := 0x4155_5241
  const UPDATE_PENDING: Word := 0x55aa_55aa
  const VALID_STATUS: Word := 0x1234_5678

  // Sizes in words: a flash page, the header, and the fields of the header.
  const PAGE: nat := 256
  const HEADER: nat := 32
  const SIZE_FIELD: nat := 2
  const STATUS_FIELD: nat := 3
  const SIGNATURE: nat := 4
  const SIGNATURE_END: nat := 20

  /** Whether a signature is right for a message: any predicate at all. */
  type Verifier = (seq<Word>, seq<Byte>) -> bool

  /** Where the two slots lie, in words. They are page aligned and do not overlap. */
  datatype Slots = Slots(a: nat, b: nat, pages: nat) {
    function Length(): nat { PAGE * pages }

    predicate Valid(f: Flash) {
      && pages > 0 && a % PAGE == 0 && b % PAGE == 0
      && a + Length() <= |f| && b + Length() <= |f| && (a + Length() <= b || b + Length() <= a)
      && 4 * |f| < 0x1_0000_0000
    }
  }

  /** The slots a device without a partition table uses: 96 KB each at 0x8000 and 0x20000. */
  const DEFAULT_SLOTS: Slots := Slots(0x8000 / 4, 0x2_0000 / 4, 96)

  lemma DefaultSlotsValid(f: Flash)
    requires 0x3_8000 / 4 <= |f| < 0x4000_0000
    ensures DEFAULT_SLOTS.Valid(f) && 4 * DEFAULT_SLOTS.Length() == 0x1_8000
  {
  }

  /** Byte i of a little-endian word. */
  function ByteAt(w: Word, i: nat): Byte
    requires i < 4
  {
    (if i == 0 then w else if i == 1 then w / 0x100 else if i == 2 then w / 0x1_0000 else w / 0x100_0000) % 0x100
  }

  function ImageSize(f: Flash, slot: nat): nat
    requires slot + HEADER <= |f|
  {
    f[slot + SIZE_FIELD]
  }

  predicate SizeOk(p: Slots, size: nat) { 0 < size <= 4 * p.Length() - 4 * HEADER }

  /** The bytes of the body of an image of the given size. */
  function Message(f: Flash, slot: nat, size: nat): seq<Byte>
    requires slot + HEADER + (size + 3) / 4 <= |f|
  {
    seq(size, j requires 0 <= j < size => ByteAt(f[slot + HEADER + j / 4], j % 4))
  }

  function SignatureOf(f: Flash, slot: nat): seq<Word>
    requires slot + HEADER <= |f|
  {
    f[slot + SIGNATURE..slot + SIGNATURE_END]
  }

  /** verify_firmware */
  predicate Verifies(p: Slots, sig: Verifier, f: Flash, slot: nat)
    requires p.Valid(f) && (slot == p.a || slot == p.b)
  {
    && f[slot] == MAGIC && SizeOk(p, ImageSize(f, slot))
    && sig(SignatureOf(f, slot), Message(f, slot, ImageSize(f, slot)))
  }

  predicate SwapNeeded(p: Slots, sig: Verifier, f: Flash)
    requires p.Valid(f)
  {
    Verifies(p, sig, f, p.b) && (!Verifies(p, sig, f, p.a) || f[p.b + STATUS_FIELD] == UPDATE_PENDING)
  }

  /** The words of the body, the last one perhaps only in part. */
  function BodyWords(f: Flash, p: Slots): (w: nat)
    requires p.Valid(f)
  {
    (ImageSize(f, p.b) + 3) / 4
  }

  /** The number of flash operations of a swap: page erases, body words, header words. */
  function Operations(p: Slots, f: Flash): nat
    requires p.Valid(f)
  {
    p.pages + BodyWords(f, p) + HEADER
  }

  function HeaderWord(f: Flash, p: Slots, i: nat): Word
    requires p.Valid(f) && i < HEADER
  {
    if i == STATUS_FIELD then VALID_STATUS else f[p.b + i]
  }

  /** Word w once the first k operations of the swap have completed. */
  function WordAfter(p: Slots, f: Flash, k: nat, w: nat): Word
    requires p.Valid(f) && SizeOk(p, ImageSize(f, p.b)) && w < |f|
  {
    if !(p.a <= w < p.a + p.Length()) then f[w]
    else
      var i, body := w - p.a, BodyWords(f, p);
      if k <= i / PAGE then f[w]
      else if i < HEADER then (if k > p.pages + body + i then HeaderWord(f, p, i) else ERASED)
      else if i < HEADER + body && k > p.pages + (i - HEADER) then f[p.b + i]
      else ERASED
  }

  /** The flash once the first k operations of the swap have completed: a crash then leaves it so. */
  function Partial(p: Slots, f: Flash, k: nat): (r: Flash)
    requires p.Valid(f) && SizeOk(p, ImageSize(f, p.b))
    ensures |r| == |f| && p.Valid(r)
  {
    seq(|f|, w requires 0 <= w < |f| => WordAfter(p, f, k, w))
  }

  /** One page erased. */
  function Erased(f: Flash, page: nat): (r: Flash)
    ensures |r| == |f|
  {
    seq(|f|, w requires 0 <= w < |f| => if page <= w < page + PAGE then ERASED else f[w])
  }

  /** The first page of slot B erased. */
  function WithoutB(p: Slots, f: Flash): (r: Flash)
    requires p.Valid(f)
    ensures |r| == |f| && p.Valid(r)
  {
    Erased(f, p.b)
  }

  lemma EraseStep(p: Slots, f: Flash, k: nat)
    requires p.Valid(f) && SizeOk(p, ImageSize(f, p.b)) && k < p.pages
    ensures Partial(p, f, k + 1) == Erased(Partial(p, f, k), p.a + PAGE * k)
  {
    var now, next := Erased(Partial(p, f, k), p.a + PAGE * k), Partial(p, f, k + 1);
    forall w | 0 <= w < |f| ensures next[w] == now[w] {
      if p.a <= w < p.a + p.Length() {
        assert p.a + PAGE * k <= w < p.a + PAGE * k + PAGE <==> (w - p.a) / PAGE == k;
      }
    }
  }

  lemma BodyStep(p: Slots, f: Flash, i: nat)
    requires p.Valid(f) && SizeOk(p, ImageSize(f, p.b)) && i < BodyWords(f, p)
    ensures p.a + HEADER + i < |f| && Partial(p, f, p.pages + i)[p.a + HEADER + i] == ERASED
    ensures Partial(p, f, p.pages + i + 1) == Partial(p, f, p.pages + i)[p.a + HEADER + i := f[p.b + HEADER + i]]
  {
    var x := p.a + HEADER + i;
    assert (HEADER + i) / PAGE < p.pages;
    var now, next := Partial(p, f, p.pages + i), Partial(p, f, p.pages + i + 1);
    assert now[x] == WordAfter(p, f, p.pages + i, x);
    forall w | 0 <= w < |f| ensures next[w] == now[x := f[p.b + HEADER + i]][w] {
      assert p.a <= w < p.a + p.Length() ==> (w - p.a) / PAGE < p.pages;
    }
  }

  lemma HeaderStep(p: Slots, f: Flash, i: nat)
    requires p.Valid(f) && SizeOk(p, ImageSize(f, p.b)) && i < HEADER
    ensures Partial(p, f, p.pages + BodyWords(f, p) + i)[p.a + i] == ERASED
    ensures Partial(p, f, p.pages + BodyWords(f, p) + i + 1)
         == Partial(p, f, p.pages + BodyWords(f, p) + i)[p.a + i := HeaderWord(f, p, i)]
  {
    var k, x := p.pages + BodyWords(f, p) + i, p.a + i;
    assert i / PAGE < p.pages;
    var now, next := Partial(p, f, k), Partial(p, f, k + 1);
    assert now[x] == WordAfter(p, f, k, x);
    forall w | 0 <= w < |f| ensures next[w] == now[x := HeaderWord(f, p, i)][w] {
      assert p.a <= w < p.a + p.Length() ==> (w - p.a) / PAGE < p.pages;
    }
  }

  // ----- What a slot holds

  ghost predicate SameSlot(p: Slots, f: Flash, f': Flash, slot: nat)
    requires p.Valid(f) && |f'| == |f| && (slot == p.a || slot == p.b)
  {
    f'[slot..slot + p.Length()] == f[slot..slot + p.Length()]
  }

  lemma SameSlotVerifies(p: Slots, sig: Verifier, f: Flash, f': Flash, slot: nat)
    requires p.Valid(f) && |f'| == |f| && p.Valid(f') && (slot == p.a || slot == p.b) && SameSlot(p, f, f', slot)
    ensures Verifies(p, sig, f', slot) == Verifies(p, sig, f, slot)
    ensures f'[slot + STATUS_FIELD] == f[slot + STATUS_FIELD] && ImageSize(f', slot) == ImageSize(f, slot)
  {
    hide ByteAt, Message, SameSlot, SignatureOf;
    SameHeader(p, f, f', slot);
    var end := slot + p.Length();
    var size := ImageSize(f, slot);
    if SizeOk(p, size) {
      SlotOf(p, f, f', slot);
      SubSlice(f, f', slot, end, slot + HEADER, slot + HEADER + (size + 3) / 4);
      MessageSame(f, slot, f', slot, size);
    }
  }

  lemma SlotOf(p: Slots, f: Flash, f': Flash, slot: nat)
    requires p.Valid(f) && |f'| == |f| && (slot == p.a || slot == p.b) && SameSlot(p, f, f', slot)
    ensures slot + p.Length() <= |f| && f'[slot..slot + p.Length()] == f[slot..slot + p.Length()]
  {
  }

  lemma SameHeader(p: Slots, f: Flash, f': Flash, slot: nat)
    requires p.Valid(f) && |f'| == |f| && p.Valid(f') && (slot == p.a || slot == p.b) && SameSlot(p, f, f', slot)
    ensures forall i | slot <= i < slot + HEADER :: f'[i] == f[i]
    ensures SignatureOf(f', slot) == SignatureOf(f, slot)
  {
    var end := slot + p.Length();
    SubSlice(f, f', slot, end, slot, slot + HEADER);
    assert forall i | slot <= i < slot + HEADER :: f'[i] == f'[slot..slot + HEADER][i - slot];
    SubSlice(f, f', slot, end, slot + SIGNATURE, slot + SIGNATURE_END);
  }

  lemma SubSlice(f: Flash, f': Flash, lo: nat, hi: nat, x: nat, y: nat)
    requires lo <= x <= y <= hi <= |f| && |f'| == |f| && f'[lo..hi] == f[lo..hi]
    ensures f'[x..y] == f[x..y]
  {
    forall i | 0 <= i < y - x ensures f'[x..y][i] == f[x..y][i] {
      assert f'[lo..hi][x - lo + i] == f[lo..hi][x - lo + i];
    }
  }

  ghost predicate SameBody(f: Flash, slot: nat, f': Flash, slot': nat, n: nat)
    requires slot + HEADER + n <= |f| && slot' + HEADER + n <= |f'|
  {
    f'[slot' + HEADER..slot' + HEADER + n] == f[slot + HEADER..slot + HEADER + n]
  }

  lemma MessageSame(f: Flash, slot: nat, f': Flash, slot': nat, size: nat)
    requires slot + HEADER + (size + 3) / 4 <= |f| && slot' + HEADER + (size + 3) / 4 <= |f'|
    requires SameBody(f, slot, f', slot', (size + 3) / 4)
    ensures Message(f', slot', size) == Message(f, slot, size)
  {
    hide ByteAt;
    forall j | 0 <= j < size ensures Message(f', slot', size)[j] == Message(f, slot, size)[j] {
      var n := (size + 3) / 4;
      assert j / 4 < n;
      assert f'[slot' + HEADER..slot' + HEADER + n][j / 4] == f[slot + HEADER..slot + HEADER + n][j / 4];
    }
  }

  // ----- Which bytes a message holds

  /** Up to four bytes of a message that are those of a word. */
  lemma WordLoads(w: Word, m: seq<Byte>, a: nat, n: nat)
    requires n <= 4 && a + n <= |m| && forall j | 0 <= j < n :: m[a + j] == ByteAt(w, j)
    ensures Load(m, a, n) == w % Pow256(n)
  {
    hide ByteAt;
    Powers();
    WordParts(w);
    assert n > 0 ==> m[a + 0] == ByteAt(w, 0);
    assert n > 1 ==> m[a + 1] == ByteAt(w, 1) && Load(m, a, n) == m[a] + 0x100 * Load(m, a + 1, n - 1);
    assert n > 2 ==> m[a + 2] == ByteAt(w, 2) && Load(m, a + 1, n - 1) == m[a + 1] + 0x100 * Load(m, a + 2, n - 2);
    assert n > 3 ==> m[a + 3] == ByteAt(w, 3) && Load(m, a + 2, n - 2) == m[a + 2] + 0x100 * Load(m, a + 3, n - 3);
  }

  lemma WordParts(w: Word)
    ensures ByteAt(w, 0) == w % 0x100 && ByteAt(w, 0) + 0x100 * ByteAt(w, 1) == w % 0x1_0000
    ensures ByteAt(w, 0) + 0x100 * ByteAt(w, 1) + 0x1_0000 * ByteAt(w, 2) == w % 0x100_0000
    ensures ByteAt(w, 0) + 0x100 * ByteAt(w, 1) + 0x1_0000 * ByteAt(w, 2) + 0x100_0000 * ByteAt(w, 3) == w
  {
    ModDigit(w, 0x100, 0x100);
    ModDigit(w, 0x1_0000, 0x100);
    ModDigit(w, 0x100_0000, 0x100);
  }

  /** How many bytes of word i an image of the given size covers. */
  function Covered(size: nat, i: nat): nat
    requires 4 * i < size
  {
    if 4 * i + 4 <= size then 4 else size - 4 * i
  }

  /** Every four bytes of the message, read little-endian, are the word of the body at that place; of the last word it
      holds the bytes that the size covers. */
  lemma MessageWord(f: Flash, slot: nat, size: nat, i: nat)
    requires slot + HEADER + (size + 3) / 4 <= |f| && 4 * i < size
    ensures |Message(f, slot, size)| == size && slot + HEADER + i < |f|
    ensures Load(Message(f, slot, size), 4 * i, Covered(size, i)) == f[slot + HEADER + i] % Pow256(Covered(size, i))
  {
    hide ByteAt;
    var m, n, w, a := Message(f, slot, size), Covered(size, i), f[slot + HEADER + i], 4 * i;
    forall j | 0 <= j < n ensures m[a + j] == ByteAt(w, j) {
      assert (a + j) / 4 == i && (a + j) % 4 == j;
    }
    WordLoads(w, m, a, n);
  }

  ghost predicate SameWord(f: Flash, slot: nat, f': Flash, slot': nat, size: nat, i: nat)
    requires 4 * i < size && slot + HEADER + (size + 3) / 4 <= |f| && slot' + HEADER + (size + 3) / 4 <= |f'|
  {
    f'[slot' + HEADER + i] % Pow256(Covered(size, i)) == f[slot + HEADER + i] % Pow256(Covered(size, i))
  }

  /** Two messages of one size are equal exactly when all their words are, the last one in the bytes covered. */
  lemma MessageIff(f: Flash, slot: nat, f': Flash, slot': nat, size: nat)
    requires slot + HEADER + (size + 3) / 4 <= |f| && slot' + HEADER + (size + 3) / 4 <= |f'|
    ensures Message(f', slot', size) == Message(f, slot, size) <==>
              forall i: nat | 4 * i < size :: SameWord(f, slot, f', slot', size, i)
  {
    hide ByteAt, Message;
    if Message(f', slot', size) == Message(f, slot, size) {
      forall i: nat | 4 * i < size ensures SameWord(f, slot, f', slot', size, i) {
        MessageWord(f, slot, size, i);
        MessageWord(f', slot', size, i);
      }
    }
    if forall i: nat | 4 * i < size :: SameWord(f, slot, f', slot', size, i) {
      MessageLength(f, slot, size);
      MessageLength(f', slot', size);
      forall j | 0 <= j < size ensures Message(f', slot', size)[j] == Message(f, slot, size)[j] {
        assert SameWord(f, slot, f', slot', size, j / 4);
        SameBytes(f, slot, f', slot', size, j);
      }
    }
  }

  lemma MessageLength(f: Flash, slot: nat, size: nat)
    requires slot + HEADER + (size + 3) / 4 <= |f|
    ensures |Message(f, slot, size)| == size
  {
  }

  lemma SameBytes(f: Flash, slot: nat, f': Flash, slot': nat, size: nat, j: nat)
    requires slot + HEADER + (size + 3) / 4 <= |f| && slot' + HEADER + (size + 3) / 4 <= |f'| && j < size
    requires SameWord(f, slot, f', slot', size, j / 4)
    ensures Message(f', slot', size)[j] == Message(f, slot, size)[j]
  {
    hide ByteAt;
    var i, n := j / 4, Covered(size, j / 4);
    ByteOfRest(f[slot + HEADER + i], f'[slot' + HEADER + i], n, j % 4);
  }

  lemma ByteOfRest(w: Word, w': Word, n: nat, j: nat)
    requires j < n <= 4 && w' % Pow256(n) == w % Pow256(n)
    ensures ByteAt(w', j) == ByteAt(w, j)
  {
    Powers();
    RestByte(w, n, j);
    RestByte(w', n, j);
  }

  lemma RestByte(w: Word, n: nat, j: nat)
    requires j < n <= 4
    ensures 0 <= w % Pow256(n) < 0x1_0000_0000 && ByteAt(w, j) == ByteAt(w % Pow256(n), j)
  {
    hide ByteAt;
    Powers();
    WordParts(w);
    var b0, b1, b2, b3 := ByteAt(w, 0), ByteAt(w, 1), ByteAt(w, 2), ByteAt(w, 3);
    if n == 1 {
      PartsUnique(w % Pow256(n), b0, 0, 0, 0);
    } else if n == 2 {
      PartsUnique(w % Pow256(n), b0, b1, 0, 0);
    } else if n == 3 {
      PartsUnique(w % Pow256(n), b0, b1, b2, 0);
    }
  }

  lemma PartsUnique(w: Word, b0: Byte, b1: Byte, b2: Byte, b3: Byte)
    requires w == b0 + 0x100 * b1 + 0x1_0000 * b2 + 0x100_0000 * b3
    ensures ByteAt(w, 0) == b0 && ByteAt(w, 1) == b1 && ByteAt(w, 2) == b2 && ByteAt(w, 3) == b3
  {
    assert w / 0x100 == b1 + 0x100 * b2 + 0x1_0000 * b3;
    assert w / 0x1_0000 == b2 + 0x100 * b3;
  }

  /** Slot A holds the size and the whole body, word for word, of the image that slot B held in f0. */
  ghost predicate HoldsBody(p: Slots, f0: Flash, f: Flash)
    requires p.Valid(f0) && p.Valid(f) && |f| == |f0| && SizeOk(p, ImageSize(f0, p.b))
  {
    && ImageSize(f, p.a) == ImageSize(f0, p.b)
    && SameBody(f0, p.b, f, p.a, BodyWords(f0, p))
    && Message(f, p.a, ImageSize(f0, p.b)) == Message(f0, p.b, ImageSize(f0, p.b))
  }

  /** The same, with the signature. */
  ghost predicate HoldsSigned(p: Slots, f0: Flash, f: Flash)
    requires p.Valid(f0) && p.Valid(f) && |f| == |f0| && SizeOk(p, ImageSize(f0, p.b))
  {
    HoldsBody(p, f0, f) && SignatureOf(f, p.a) == SignatureOf(f0, p.b)
  }

  ghost predicate HeaderIs(p: Slots, f0: Flash, f: Flash, i: nat)
    requires p.Valid(f0) && p.Valid(f) && i < HEADER
  {
    f[p.a + i] == HeaderWord(f0, p, i)
  }

  /** The same, with the rest of the header: slot A is the image, marked valid. */
  ghost predicate HoldsImage(p: Slots, f0: Flash, f: Flash)
    requires p.Valid(f0) && p.Valid(f) && |f| == |f0| && SizeOk(p, ImageSize(f0, p.b))
  {
    && HoldsSigned(p, f0, f)
    && forall i | 0 <= i < HEADER :: HeaderIs(p, f0, f, i)
  }

  // ----- Crash points

  lemma BIntact(p: Slots, f: Flash, k: nat)
    requires p.Valid(f) && SizeOk(p, ImageSize(f, p.b))
    ensures SameSlot(p, f, Partial(p, f, k), p.b)
  {
  }

  lemma StartIsOld(p: Slots, f: Flash)
    requires p.Valid(f) && SizeOk(p, ImageSize(f, p.b))
    ensures Partial(p, f, 0) == f
  {
  }

  lemma HeaderAfter(p: Slots, f: Flash, k: nat, i: nat)
    requires p.Valid(f) && SizeOk(p, ImageSize(f, p.b)) && k > 0 && i < HEADER
    ensures Partial(p, f, k)[p.a + i] == if k > p.pages + BodyWords(f, p) + i then HeaderWord(f, p, i) else ERASED
  {
    assert i / PAGE == 0;
  }

  lemma BodyAfter(p: Slots, f: Flash, k: nat, i: nat)
    requires p.Valid(f) && SizeOk(p, ImageSize(f, p.b)) && i < BodyWords(f, p) && k > p.pages + i
    ensures Partial(p, f, k)[p.a + HEADER + i] == f[p.b + HEADER + i]
  {
    assert HEADER + i < p.Length();
    assert (HEADER + i) / PAGE < p.pages;
    assert Partial(p, f, k)[p.a + HEADER + i] == WordAfter(p, f, k, p.a + HEADER + i);
  }

  /** Once its size field is written, slot A already holds the whole body. */
  lemma BodyBeforeHeader(p: Slots, f: Flash, k: nat)
    requires p.Valid(f) && SizeOk(p, ImageSize(f, p.b)) && k > p.pages + BodyWords(f, p) + SIZE_FIELD
    ensures HoldsBody(p, f, Partial(p, f, k))
  {
    hide ByteAt, Message, Partial;
    var f', size := Partial(p, f, k), ImageSize(f, p.b);
    HeaderAfter(p, f, k, SIZE_FIELD);
    var n := (size + 3) / 4;
    var now, was := f'[p.a + HEADER..p.a + HEADER + n], f[p.b + HEADER..p.b + HEADER + n];
    forall i | 0 <= i < n ensures now[i] == was[i] {
      BodyAfter(p, f, k, i);
    }
    MessageSame(f, p.b, f', p.a, size);
  }

  lemma ErasedSize(p: Slots, sig: Verifier, f: Flash)
    requires p.Valid(f) && f[p.a + SIZE_FIELD] == ERASED
    ensures !Verifies(p, sig, f, p.a)
  {
  }

  /** From the first erase until its size field is written, slot A does not verify. */
  lemma MidwayInvalid(p: Slots, sig: Verifier, f: Flash, k: nat)
    requires p.Valid(f) && SizeOk(p, ImageSize(f, p.b)) && 0 < k <= p.pages + BodyWords(f, p) + SIZE_FIELD
    ensures !Verifies(p, sig, Partial(p, f, k), p.a)
  {
    HeaderAfter(p, f, k, SIZE_FIELD);
    ErasedSize(p, sig, Partial(p, f, k));
  }

  /** At every crash point, slot A verifies only if it is as before the swap or holds B's size and whole body. */
  lemma NeverAMix(p: Slots, sig: Verifier, f: Flash, k: nat)
    requires p.Valid(f) && SizeOk(p, ImageSize(f, p.b)) && Verifies(p, sig, Partial(p, f, k), p.a)
    ensures Partial(p, f, k) == f || HoldsBody(p, f, Partial(p, f, k))
  {
    if k == 0 {
      StartIsOld(p, f);
    } else if k > p.pages + BodyWords(f, p) + SIZE_FIELD {
      BodyBeforeHeader(p, f, k);
    } else {
      MidwayInvalid(p, sig, f, k);
    }
  }

  /** After the last operation slot A is the image, and verifies exactly because B did. */
  lemma SwapCompletes(p: Slots, sig: Verifier, f: Flash)
    requires p.Valid(f) && Verifies(p, sig, f, p.b)
    ensures HoldsImage(p, f, Partial(p, f, Operations(p, f))) && Verifies(p, sig, Partial(p, f, Operations(p, f)), p.a)
  {
    var k := Operations(p, f);
    var f' := Partial(p, f, k);
    BodyBeforeHeader(p, f, k);
    forall i | 0 <= i < HEADER ensures HeaderIs(p, f, f', i) { HeaderAfter(p, f, k, i); }
    assert HeaderIs(p, f, f', 0) && HeaderIs(p, f, f', SIZE_FIELD);
    var now, was := SignatureOf(f', p.a), SignatureOf(f, p.b);
    forall i | 0 <= i < SIGNATURE_END - SIGNATURE ensures now[i] == was[i] {
      assert HeaderIs(p, f, f', SIGNATURE + i);
    }
  }
}
