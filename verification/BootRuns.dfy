/** Boots that power loss or a flash fault may cut short at any flash operation, and runs of such boots
    (bootloader/boot_main.cpp:89-152). */
module BootRuns {
  import opened FirmwareSwap

  // ----- One boot

  /** The flash k operations into the swap, slot B perhaps already given up because A verified. */
  ghost predicate AtStep(p: Slots, sig: Verifier, f: Flash, k: nat, h: Flash)
    requires p.Valid(f) && SizeOk(p, ImageSize(f, p.b))
  {
    var now := Partial(p, f, k);
    h == now || (Verifies(p, sig, now, p.a) && h == WithoutB(p, now))
  }

  /** A boot that starts from f may leave h behind: power may fail between any two flash operations, and a flash
      operation may itself fail, which ends the copying. */
  ghost predicate CrashPoint(p: Slots, sig: Verifier, f: Flash, h: Flash)
    requires p.Valid(f)
  {
    h == f || (SwapNeeded(p, sig, f) && exists k :: AtStep(p, sig, f, k, h))
  }

  /** What an undisturbed boot leaves. */
  function Completed(p: Slots, sig: Verifier, f: Flash): (r: Flash)
    requires p.Valid(f)
    ensures |r| == |f| && p.Valid(r)
  {
    if SwapNeeded(p, sig, f) then WithoutB(p, Partial(p, f, Operations(p, f))) else f
  }

  ghost predicate IsPartial(p: Slots, f: Flash, k: nat, h: Flash)
    requires p.Valid(f) && SizeOk(p, ImageSize(f, p.b))
  {
    h == Partial(p, f, k)
  }

  /** A boot whose flash operations succeed until power fails between two of them. */
  ghost predicate Interrupted(p: Slots, sig: Verifier, f: Flash, h: Flash)
    requires p.Valid(f)
  {
    h == f || h == Completed(p, sig, f) || (SwapNeeded(p, sig, f) && exists k :: IsPartial(p, f, k, h))
  }

  lemma AIntact(p: Slots, f: Flash)
    requires p.Valid(f)
    ensures SameSlot(p, f, WithoutB(p, f), p.a)
  {
  }

  lemma BGone(p: Slots, sig: Verifier, f: Flash)
    requires p.Valid(f)
    ensures WithoutB(p, f)[p.b] == ERASED && !Verifies(p, sig, WithoutB(p, f), p.b)
  {
    assert ERASED != MAGIC;
  }

  /** A boot never leaves the device without an image that verifies. */
  lemma CrashSafe(p: Slots, sig: Verifier, f: Flash, h: Flash)
    requires p.Valid(f) && CrashPoint(p, sig, f, h) && |h| == |f|
    requires Verifies(p, sig, f, p.a) || Verifies(p, sig, f, p.b)
    ensures Verifies(p, sig, h, p.a) || Verifies(p, sig, h, p.b)
  {
    hide SignatureOf, Message, Partial, WithoutB, SameSlot;
    if h != f {
      var k :| AtStep(p, sig, f, k, h);
      var now := Partial(p, f, k);
      if h == now {
        BIntact(p, f, k);
        SameSlotVerifies(p, sig, f, now, p.b);
      } else {
        AIntact(p, now);
        SameSlotVerifies(p, sig, now, h, p.a);
      }
    }
  }

  // ----- The images the slots hold

  /** The size of an image, the words of its body, and the bytes that are signed. */
  datatype Image = Image(size: nat, words: seq<Word>, body: seq<Byte>)

  ghost function ImageIn(p: Slots, f: Flash, slot: nat): Image
    requires p.Valid(f) && (slot == p.a || slot == p.b) && SizeOk(p, ImageSize(f, slot))
  {
    var size := ImageSize(f, slot);
    Image(size, f[slot + HEADER..slot + HEADER + (size + 3) / 4], Message(f, slot, size))
  }

  lemma SameSlotSize(p: Slots, f: Flash, f': Flash, slot: nat)
    requires p.Valid(f) && |f'| == |f| && (slot == p.a || slot == p.b) && SameSlot(p, f, f', slot)
    ensures ImageSize(f', slot) == ImageSize(f, slot)
  {
    var end := slot + p.Length();
    assert f'[slot..end][SIZE_FIELD] == f[slot..end][SIZE_FIELD];
  }

  lemma SameSlotImage(p: Slots, f: Flash, f': Flash, slot: nat)
    requires p.Valid(f) && |f'| == |f| && (slot == p.a || slot == p.b) && SameSlot(p, f, f', slot)
    requires SizeOk(p, ImageSize(f, slot))
    ensures ImageSize(f', slot) == ImageSize(f, slot) && ImageIn(p, f', slot) == ImageIn(p, f, slot)
  {
    hide ByteAt, Message, ImageSize;
    var size, end := ImageSize(f, slot), slot + p.Length();
    SameSlotSize(p, f, f', slot);
    SubSlice(f, f', slot, end, slot + HEADER, slot + HEADER + (size + 3) / 4);
    MessageSame(f, slot, f', slot, size);
  }

  /** Slot A, when it verifies, holds one of the two images of f0, and slot B only its own. */
  ghost predicate KnownImages(p: Slots, sig: Verifier, f0: Flash, f: Flash)
    requires p.Valid(f0) && p.Valid(f)
  {
    && (Verifies(p, sig, f, p.b) ==>
          SizeOk(p, ImageSize(f0, p.b)) && ImageIn(p, f, p.b) == ImageIn(p, f0, p.b))
    && (Verifies(p, sig, f, p.a) ==>
          || (SizeOk(p, ImageSize(f0, p.a)) && ImageIn(p, f, p.a) == ImageIn(p, f0, p.a))
          || (SizeOk(p, ImageSize(f0, p.b)) && ImageIn(p, f, p.a) == ImageIn(p, f0, p.b)))
  }

  lemma KnownAtStep(p: Slots, sig: Verifier, f0: Flash, f: Flash, k: nat)
    requires p.Valid(f0) && p.Valid(f) && |f| == |f0|
    requires KnownImages(p, sig, f0, f) && SwapNeeded(p, sig, f)
    ensures KnownImages(p, sig, f0, Partial(p, f, k))
  {
    var now := Partial(p, f, k);
    hide Partial, SameSlot, ImageIn, SignatureOf;
    BIntact(p, f, k);
    SameSlotVerifies(p, sig, f, now, p.b);
    SameSlotImage(p, f, now, p.b);
    if Verifies(p, sig, now, p.a) {
      NeverAMix(p, sig, f, k);
      BodyIsImage(p, f, now);
    }
  }

  lemma BodyIsImage(p: Slots, f: Flash, h: Flash)
    requires p.Valid(f) && p.Valid(h) && |f| == |h| && SizeOk(p, ImageSize(f, p.b))
    ensures HoldsBody(p, f, h) ==> ImageIn(p, h, p.a) == ImageIn(p, f, p.b)
  {
  }

  lemma KnownWithoutB(p: Slots, sig: Verifier, f0: Flash, f: Flash)
    requires p.Valid(f0) && p.Valid(f) && |f| == |f0| && KnownImages(p, sig, f0, f)
    ensures KnownImages(p, sig, f0, WithoutB(p, f))
  {
    var h := WithoutB(p, f);
    hide WithoutB, SameSlot, ImageIn, SignatureOf;
    BGone(p, sig, f);
    AIntact(p, f);
    SameSlotVerifies(p, sig, f, h, p.a);
    if Verifies(p, sig, f, p.a) { SameSlotImage(p, f, h, p.a); }
  }

  lemma KnownKept(p: Slots, sig: Verifier, f0: Flash, f: Flash, h: Flash)
    requires p.Valid(f0) && p.Valid(f) && |f| == |f0| && |h| == |f| && p.Valid(h)
    requires KnownImages(p, sig, f0, f) && CrashPoint(p, sig, f, h)
    ensures KnownImages(p, sig, f0, h)
  {
    hide KnownImages, Partial, WithoutB;
    if h != f {
      var k :| AtStep(p, sig, f, k, h);
      KnownAtStep(p, sig, f0, f, k);
      if h != Partial(p, f, k) { KnownWithoutB(p, sig, f0, Partial(p, f, k)); }
    }
  }

  // ----- Runs of boots

  /** Boot after boot, each cut short or not. */
  ghost predicate Boots(p: Slots, sig: Verifier, fs: seq<Flash>)
  {
    && |fs| > 0 && (forall i | 0 <= i < |fs| :: p.Valid(fs[i]) && |fs[i]| == |fs[0]|)
    && forall i | 0 < i < |fs| :: CrashPoint(p, sig, fs[i - 1], fs[i])
  }

  /** In every run of boots: something verifies throughout if it did at first, and slot A never verifies with
      anything but one of the two whole images there were at first. */
  lemma {:induction false} RunSafe(p: Slots, sig: Verifier, fs: seq<Flash>, n: nat)
    requires Boots(p, sig, fs) && n < |fs|
    ensures (Verifies(p, sig, fs[0], p.a) || Verifies(p, sig, fs[0], p.b)) ==>
              Verifies(p, sig, fs[n], p.a) || Verifies(p, sig, fs[n], p.b)
    ensures KnownImages(p, sig, fs[0], fs[n])
  {
    if n > 0 {
      hide KnownImages, Verifies, CrashPoint;
      RunSafe(p, sig, fs, n - 1);
      KnownKept(p, sig, fs[0], fs[n - 1], fs[n]);
      if Verifies(p, sig, fs[0], p.a) || Verifies(p, sig, fs[0], p.b) {
        CrashSafe(p, sig, fs[n - 1], fs[n]);
      }
    }
  }

  // ----- Runs in which the flash works

  /** Boot after boot, each interrupted at some point, with no flash operation failing. */
  ghost predicate Interruptions(p: Slots, sig: Verifier, fs: seq<Flash>)
  {
    && |fs| > 0 && (forall i | 0 <= i < |fs| :: p.Valid(fs[i]) && |fs[i]| == |fs[0]|)
    && forall i | 0 < i < |fs| :: Interrupted(p, sig, fs[i - 1], fs[i])
  }

  /** The image of f0's slot B is still there, or is in slot A with B given up. */
  ghost predicate Underway(p: Slots, sig: Verifier, f0: Flash, f: Flash)
    requires p.Valid(f0) && p.Valid(f) && |f| == |f0| && SizeOk(p, ImageSize(f0, p.b))
  {
    SameSlot(p, f0, f, p.b) || (HoldsImage(p, f0, f) && Verifies(p, sig, f, p.a) && f[p.b] == ERASED)
  }

  lemma HoldsSame(p: Slots, f0: Flash, f1: Flash, f: Flash)
    requires p.Valid(f0) && p.Valid(f1) && p.Valid(f) && |f| == |f0| == |f1| && SizeOk(p, ImageSize(f0, p.b))
    requires SameSlot(p, f0, f1, p.b)
    ensures ImageSize(f1, p.b) == ImageSize(f0, p.b)
    ensures HoldsBody(p, f1, f) ==> HoldsBody(p, f0, f)
    ensures HoldsImage(p, f1, f) ==> HoldsImage(p, f0, f)
  {
    hide ByteAt, Message;
    SameSlotImage(p, f0, f1, p.b);
    var end := p.b + p.Length();
    SubSlice(f0, f1, p.b, end, p.b + SIGNATURE, p.b + SIGNATURE_END);
    if HoldsImage(p, f1, f) {
      forall i | 0 <= i < HEADER ensures HeaderIs(p, f0, f, i) {
        assert HeaderIs(p, f1, f, i);
        assert f1[p.b..end][i] == f0[p.b..end][i];
      }
    }
  }

  /** Erasing slot B leaves slot A's image as it is. */
  lemma HoldsWithoutB(p: Slots, sig: Verifier, f0: Flash, f: Flash)
    requires p.Valid(f0) && p.Valid(f) && |f| == |f0| && SizeOk(p, ImageSize(f0, p.b))
    requires HoldsImage(p, f0, f) && Verifies(p, sig, f, p.a)
    ensures HoldsImage(p, f0, WithoutB(p, f)) && Verifies(p, sig, WithoutB(p, f), p.a)
  {
    hide ByteAt, Message;
    var h := WithoutB(p, f);
    AIntact(p, f);
    SameSlotVerifies(p, sig, f, h, p.a);
    SameSlotImage(p, f, h, p.a);
    forall i | 0 <= i < HEADER ensures HeaderIs(p, f0, h, i) { assert HeaderIs(p, f0, f, i); }
    assert SignatureOf(h, p.a) == SignatureOf(f, p.a);
  }

  lemma CompletedHolds(p: Slots, sig: Verifier, f0: Flash, f: Flash)
    requires p.Valid(f0) && p.Valid(f) && |f| == |f0| && Verifies(p, sig, f0, p.b)
    requires SameSlot(p, f0, f, p.b) && SwapNeeded(p, sig, f)
    ensures HoldsImage(p, f0, Completed(p, sig, f)) && Verifies(p, sig, Completed(p, sig, f), p.a)
    ensures Completed(p, sig, f)[p.b] == ERASED
  {
    hide ByteAt, Message, SignatureOf, HoldsImage, SameSlot;
    SwapCompletes(p, sig, f);
    HoldsSame(p, f0, f, Partial(p, f, Operations(p, f)));
    HoldsWithoutB(p, sig, f0, Partial(p, f, Operations(p, f)));
    BGone(p, sig, Partial(p, f, Operations(p, f)));
  }

  lemma SameSlotTrans(p: Slots, f0: Flash, f1: Flash, f2: Flash, slot: nat)
    requires p.Valid(f0) && p.Valid(f1) && |f1| == |f0| == |f2| && (slot == p.a || slot == p.b)
    requires SameSlot(p, f0, f1, slot) && SameSlot(p, f1, f2, slot)
    ensures SameSlot(p, f0, f2, slot)
  {
  }

  ghost predicate Pending(p: Slots, sig: Verifier, f: Flash)
    requires p.Valid(f)
  {
    Verifies(p, sig, f, p.b) && f[p.b + STATUS_FIELD] == UPDATE_PENDING
  }

  lemma UnderwayKept(p: Slots, sig: Verifier, f0: Flash, f: Flash, h: Flash)
    requires p.Valid(f0) && p.Valid(f) && |f| == |f0| == |h| && p.Valid(h) && Pending(p, sig, f0)
    requires Underway(p, sig, f0, f) && Interrupted(p, sig, f, h)
    ensures Underway(p, sig, f0, h)
  {
    hide ByteAt, Message, SignatureOf, HoldsImage, Partial, WithoutB, SameSlot;
    if SameSlot(p, f0, f, p.b) {
      SameSlotVerifies(p, sig, f0, f, p.b);
      if h == Completed(p, sig, f) {
        CompletedHolds(p, sig, f0, f);
      } else if h != f {
        var k :| IsPartial(p, f, k, h);
        BIntact(p, f, k);
        SameSlotTrans(p, f0, f, h, p.b);
      }
    }
  }

  /** However often the boots of a pending update are interrupted, one that is not ends with slot A holding the
      update whole, header included. */
  lemma {:induction false} UpdateArrives(p: Slots, sig: Verifier, fs: seq<Flash>, n: nat)
    requires Interruptions(p, sig, fs) && n < |fs| && Pending(p, sig, fs[0])
    ensures Underway(p, sig, fs[0], fs[n])
    ensures HoldsImage(p, fs[0], Completed(p, sig, fs[n])) && Verifies(p, sig, Completed(p, sig, fs[n]), p.a)
  {
    hide ByteAt, Message, SignatureOf, HoldsImage, Partial, WithoutB, SameSlot;
    if n > 0 {
      UpdateArrives(p, sig, fs, n - 1);
      UnderwayKept(p, sig, fs[0], fs[n - 1], fs[n]);
    } else {
      SameSlotRefl(p, fs[0], p.b);
    }
    if SameSlot(p, fs[0], fs[n], p.b) {
      SameSlotVerifies(p, sig, fs[0], fs[n], p.b);
      CompletedHolds(p, sig, fs[0], fs[n]);
    }
  }

  lemma SameSlotRefl(p: Slots, f: Flash, slot: nat)
    requires p.Valid(f) && (slot == p.a || slot == p.b)
    ensures SameSlot(p, f, f, slot)
  {
  }

  // ----- Recovery: slot A does not verify and slot B does, whether or not an update is pending

  const SIGNATURE_WORDS: nat := SIGNATURE_END - SIGNATURE

  /** A signature of which only the first n words have been programmed. */
  function HalfWritten(s: seq<Word>, n: nat): (r: seq<Word>)
    requires |s| == SIGNATURE_WORDS && n <= |s|
    ensures |r| == |s|
  {
    s[..n] + seq(|s| - n, i => ERASED)
  }

  function WordsWritten(p: Slots, f: Flash, k: nat): (n: nat)
    requires p.Valid(f)
    ensures n <= SIGNATURE_WORDS
  {
    var start := p.pages + BodyWords(f, p) + SIGNATURE;
    if k <= start then 0 else if k - start >= SIGNATURE_WORDS then SIGNATURE_WORDS else k - start
  }

  lemma HalfWrittenAt(s: seq<Word>, n: nat, i: nat)
    requires |s| == SIGNATURE_WORDS && n <= |s| && i < |s|
    ensures HalfWritten(s, n)[i] == if i < n then s[i] else ERASED
  {
  }

  lemma SignatureAt(f: Flash, slot: nat, i: nat)
    requires slot + HEADER <= |f| && i < SIGNATURE_WORDS
    ensures |SignatureOf(f, slot)| == SIGNATURE_WORDS && SignatureOf(f, slot)[i] == f[slot + SIGNATURE + i]
  {
  }

  lemma SignatureAfter(p: Slots, f: Flash, k: nat)
    requires p.Valid(f) && SizeOk(p, ImageSize(f, p.b)) && k > 0
    ensures SignatureOf(Partial(p, f, k), p.a) == HalfWritten(SignatureOf(f, p.b), WordsWritten(p, f, k))
  {
    hide Partial, HalfWritten, SignatureOf;
    var n := WordsWritten(p, f, k);
    SignatureAt(f, p.b, 0);
    SignatureAt(Partial(p, f, k), p.a, 0);
    var now, goal := SignatureOf(Partial(p, f, k), p.a), HalfWritten(SignatureOf(f, p.b), n);
    forall i | 0 <= i < SIGNATURE_WORDS ensures now[i] == goal[i] {
      HeaderAfter(p, f, k, SIGNATURE + i);
      SignatureAt(f, p.b, i);
      SignatureAt(Partial(p, f, k), p.a, i);
      HalfWrittenAt(SignatureOf(f, p.b), n, i);
    }
  }

  /** No half-written signature of B's image verifies, unless it happens to be the whole one. */
  ghost predicate Robust(p: Slots, sig: Verifier, f: Flash)
    requires p.Valid(f) && SizeOk(p, ImageSize(f, p.b))
  {
    forall n | 0 <= n < SIGNATURE_WORDS ::
      sig(HalfWritten(SignatureOf(f, p.b), n), ImageIn(p, f, p.b).body) ==>
        HalfWritten(SignatureOf(f, p.b), n) == SignatureOf(f, p.b)
  }

  /** Robust when slot A verifies k operations into the swap: the signature is whole. */
  lemma RobustSignature(p: Slots, sig: Verifier, f: Flash, k: nat)
    requires p.Valid(f) && SizeOk(p, ImageSize(f, p.b)) && Robust(p, sig, f)
    requires k > 0 && Verifies(p, sig, Partial(p, f, k), p.a)
    ensures HoldsSigned(p, f, Partial(p, f, k))
  {
    hide Partial, ByteAt, Message;
    if k <= p.pages + BodyWords(f, p) + SIZE_FIELD {
      MidwayInvalid(p, sig, f, k);
    } else {
      BodyBeforeHeader(p, f, k);
      SignatureAfter(p, f, k);
      assert HalfWritten(SignatureOf(f, p.b), SIGNATURE_WORDS) == SignatureOf(f, p.b);
    }
  }

  /** B is intact and A, if it verifies, already holds B's image; or B has been given up for A. */
  ghost predicate Recovering(p: Slots, sig: Verifier, f0: Flash, f: Flash)
    requires p.Valid(f0) && p.Valid(f) && |f| == |f0| && SizeOk(p, ImageSize(f0, p.b))
  {
    || (SameSlot(p, f0, f, p.b)
        && (Verifies(p, sig, f, p.a) ==>
              HoldsBody(p, f0, f) && (Robust(p, sig, f0) ==> HoldsSigned(p, f0, f))))
    || (HoldsImage(p, f0, f) && Verifies(p, sig, f, p.a) && f[p.b] == ERASED)
  }

  lemma RobustSame(p: Slots, sig: Verifier, f0: Flash, f: Flash)
    requires p.Valid(f0) && p.Valid(f) && |f| == |f0| && SizeOk(p, ImageSize(f0, p.b))
    requires SameSlot(p, f0, f, p.b) && Robust(p, sig, f0)
    ensures ImageSize(f, p.b) == ImageSize(f0, p.b) && Robust(p, sig, f)
    ensures SignatureOf(f, p.b) == SignatureOf(f0, p.b)
  {
    hide ByteAt, Message;
    SameSlotImage(p, f0, f, p.b);
    SubSlice(f0, f, p.b, p.b + p.Length(), p.b + SIGNATURE, p.b + SIGNATURE_END);
    assert SignatureOf(f, p.b) == SignatureOf(f0, p.b) && ImageIn(p, f, p.b) == ImageIn(p, f0, p.b);
    forall n | 0 <= n < SIGNATURE_WORDS && sig(HalfWritten(SignatureOf(f, p.b), n), ImageIn(p, f, p.b).body)
      ensures HalfWritten(SignatureOf(f, p.b), n) == SignatureOf(f, p.b)
    {
      assert sig(HalfWritten(SignatureOf(f0, p.b), n), ImageIn(p, f0, p.b).body);
    }
  }

  lemma RecoveringAtStep(p: Slots, sig: Verifier, f0: Flash, f: Flash, k: nat)
    requires p.Valid(f0) && p.Valid(f) && |f| == |f0| && Verifies(p, sig, f0, p.b) && SwapNeeded(p, sig, f)
    requires Recovering(p, sig, f0, f) && SameSlot(p, f0, f, p.b)
    ensures Recovering(p, sig, f0, Partial(p, f, k))
  {
    hide ByteAt, Message, SignatureOf, HoldsImage, Partial, SameSlot, Robust, HoldsBody, ImageIn;
    if k == 0 {
      StartIsOld(p, f);
    } else {
      var h := Partial(p, f, k);
      BIntact(p, f, k);
      SameSlotTrans(p, f0, f, h, p.b);
      if Verifies(p, sig, h, p.a) {
        if k <= p.pages + BodyWords(f, p) + SIZE_FIELD { MidwayInvalid(p, sig, f, k); }
        BodyBeforeHeader(p, f, k);
        HoldsSame(p, f0, f, h);
        if Robust(p, sig, f0) {
          RobustSame(p, sig, f0, f);
          RobustSignature(p, sig, f, k);
        }
      }
    }
  }

  lemma RecoveringKept(p: Slots, sig: Verifier, f0: Flash, f: Flash, h: Flash)
    requires p.Valid(f0) && p.Valid(f) && |f| == |f0| == |h| && p.Valid(h) && Verifies(p, sig, f0, p.b)
    requires Recovering(p, sig, f0, f) && Interrupted(p, sig, f, h)
    ensures Recovering(p, sig, f0, h)
  {
    hide ByteAt, Message, SignatureOf, HoldsImage, Partial, WithoutB, SameSlot, Robust, HoldsBody, HoldsSigned, ImageIn;
    if h != f && SameSlot(p, f0, f, p.b) {
      if h == Completed(p, sig, f) {
        CompletedHolds(p, sig, f0, f);
      } else {
        var k :| IsPartial(p, f, k, h);
        RecoveringAtStep(p, sig, f0, f, k);
      }
    }
  }

  /** However often a recovery is interrupted, a boot that is not ends with slot A verifying with B's size and
      body, and with B's signature too if no half-written signature verifies. */
  lemma {:induction false} RecoveryArrives(p: Slots, sig: Verifier, fs: seq<Flash>, n: nat)
    requires Interruptions(p, sig, fs) && n < |fs|
    requires !Verifies(p, sig, fs[0], p.a) && Verifies(p, sig, fs[0], p.b)
    ensures Recovering(p, sig, fs[0], fs[n])
    ensures Verifies(p, sig, Completed(p, sig, fs[n]), p.a) && HoldsBody(p, fs[0], Completed(p, sig, fs[n]))
    ensures Robust(p, sig, fs[0]) ==> HoldsSigned(p, fs[0], Completed(p, sig, fs[n]))
  {
    hide ByteAt, Message, SignatureOf, Partial, WithoutB, SameSlot, Robust, HoldsBody, ImageIn;
    if n > 0 {
      RecoveryArrives(p, sig, fs, n - 1);
      RecoveringKept(p, sig, fs[0], fs[n - 1], fs[n]);
    } else {
      SameSlotRefl(p, fs[0], p.b);
    }
    if SameSlot(p, fs[0], fs[n], p.b) {
      SameSlotVerifies(p, sig, fs[0], fs[n], p.b);
      if SwapNeeded(p, sig, fs[n]) { CompletedHolds(p, sig, fs[0], fs[n]); }
    }
  }

  /** Otherwise one interruption can leave slot A with a half-written signature for good. */
  lemma SignatureLost(p: Slots, sig: Verifier, f: Flash) returns (h: Flash)
    requires p.Valid(f) && !Verifies(p, sig, f, p.a) && Verifies(p, sig, f, p.b)
    requires f[p.b + STATUS_FIELD] != UPDATE_PENDING && !Robust(p, sig, f)
    ensures |h| == |f| && Interrupted(p, sig, f, h) && p.Valid(h)
    ensures Completed(p, sig, h) == h && SignatureOf(h, p.a) != SignatureOf(f, p.b)
  {
    hide Partial, ByteAt, Message, SameSlot, HalfWritten;
    var n :| 0 <= n < SIGNATURE_WORDS && sig(HalfWritten(SignatureOf(f, p.b), n), ImageIn(p, f, p.b).body)
             && HalfWritten(SignatureOf(f, p.b), n) != SignatureOf(f, p.b);
    var k := p.pages + BodyWords(f, p) + SIGNATURE + n;
    h := Partial(p, f, k);
    assert IsPartial(p, f, k, h);
    HalfVerifies(p, sig, f, k);
    BIntact(p, f, k);
    SameSlotVerifies(p, sig, f, h, p.b);
  }

  /** With its size field written, slot A verifies as soon as its half-written signature does. */
  lemma HalfVerifies(p: Slots, sig: Verifier, f: Flash, k: nat)
    requires p.Valid(f) && SizeOk(p, ImageSize(f, p.b)) && f[p.b] == MAGIC
    requires k > p.pages + BodyWords(f, p) + SIZE_FIELD
    requires sig(HalfWritten(SignatureOf(f, p.b), WordsWritten(p, f, k)), ImageIn(p, f, p.b).body)
    ensures Verifies(p, sig, Partial(p, f, k), p.a)
    ensures SignatureOf(Partial(p, f, k), p.a) == HalfWritten(SignatureOf(f, p.b), WordsWritten(p, f, k))
  {
    hide Partial, ByteAt, Message, HalfWritten, SignatureOf;
    SignatureAfter(p, f, k);
    BodyBeforeHeader(p, f, k);
    HeaderAfter(p, f, k, 0);
  }

  ghost predicate SignatureSure(p: Slots, sig: Verifier, f: Flash)
    requires p.Valid(f) && SizeOk(p, ImageSize(f, p.b))
  {
    forall fs: seq<Flash> | Interruptions(p, sig, fs) && fs[0] == f ::
      HoldsSigned(p, f, Completed(p, sig, fs[|fs| - 1]))
  }

  /** Slot A is sure to end with B's signature exactly when an update is pending or no half-written one verifies. */
  lemma SignatureSureIff(p: Slots, sig: Verifier, f: Flash)
    requires p.Valid(f) && !Verifies(p, sig, f, p.a) && Verifies(p, sig, f, p.b)
    ensures SignatureSure(p, sig, f) <==> Pending(p, sig, f) || Robust(p, sig, f)
  {
    hide ByteAt, Message, SignatureOf, Partial, WithoutB, SameSlot, Robust, HoldsBody, ImageIn;
    if Pending(p, sig, f) || Robust(p, sig, f) {
      forall fs: seq<Flash> | Interruptions(p, sig, fs) && fs[0] == f
        ensures HoldsSigned(p, f, Completed(p, sig, fs[|fs| - 1]))
      {
        if Pending(p, sig, f) {
          UpdateArrives(p, sig, fs, |fs| - 1);
        } else {
          RecoveryArrives(p, sig, fs, |fs| - 1);
        }
      }
    } else {
      var h := SignatureLost(p, sig, f);
      assert Interruptions(p, sig, [f, h]);
    }
  }

  // ----- The verifier of development builds

  /** ed25519_verify as shipped: every byte of the signature is 0xED. */
  predicate DevVerify(s: seq<Word>, message: seq<Byte>)
  {
    forall i, j | 0 <= i < |s| && 0 <= j < 4 :: ByteAt(s[i], j) == 0xed
  }

  /** A half-written signature ends in an erased word, which this verifier does not accept, so that recovery is sure
      to bring B's signature. */
  lemma DevSignatureSure(p: Slots, f: Flash)
    requires p.Valid(f) && !Verifies(p, DevVerify, f, p.a) && Verifies(p, DevVerify, f, p.b)
    ensures SignatureSure(p, DevVerify, f)
  {
    hide Verifies, SignatureSure, Robust;
    BSizeOk(p, f);
    DevRobust(p, f);
    SignatureSureIff(p, DevVerify, f);
  }

  lemma BSizeOk(p: Slots, f: Flash)
    requires p.Valid(f) && Verifies(p, DevVerify, f, p.b)
    ensures SizeOk(p, ImageSize(f, p.b))
  {
  }

  lemma DevRobust(p: Slots, f: Flash)
    requires p.Valid(f) && SizeOk(p, ImageSize(f, p.b))
    ensures Robust(p, DevVerify, f)
  {
    forall n | 0 <= n < SIGNATURE_WORDS
      ensures !DevVerify(HalfWritten(SignatureOf(f, p.b), n), ImageIn(p, f, p.b).body)
    {
      var s := HalfWritten(SignatureOf(f, p.b), n);
      assert s[SIGNATURE_WORDS - 1] == ERASED && ByteAt(ERASED, 0) == 0xff;
    }
  }
}
