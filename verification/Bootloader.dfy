/** The bootloader's flash operations and its boot decision (bootloader/boot_main.cpp:22-37, 77-154). */
module Bootloader {
  import opened FirmwareSwap
  import opened BootRuns

  /** Everything in a history from position n on is a crash point of a boot that began with f. */
  ghost predicate CrashPoints(p: Slots, sig: Verifier, f: Flash, history: seq<Flash>, n: nat)
    requires p.Valid(f)
  {
    forall i | n <= i < |history| :: CrashPoint(p, sig, f, history[i])
  }

  /** The same for a boot in which no flash operation fails. */
  ghost predicate InterruptPoints(p: Slots, sig: Verifier, f: Flash, history: seq<Flash>, n: nat)
    requires p.Valid(f)
  {
    forall i | n <= i < |history| :: Interrupted(p, sig, f, history[i])
  }

  /** The flash is k operations into the swap of f, as is all of its history since n up to some step. */
  ghost predicate Swapping(p: Slots, sig: Verifier, f: Flash, history: seq<Flash>, n: nat, words: Flash, k: nat)
  {
    && p.Valid(f) && SwapNeeded(p, sig, f) && n <= |history| && words == Partial(p, f, k)
    && CrashPoints(p, sig, f, history, n) && InterruptPoints(p, sig, f, history, n)
  }

  function StepAfter(p: Slots, f: Flash, k: nat, words: Flash): (j: nat)
    requires p.Valid(f) && SizeOk(p, ImageSize(f, p.b))
  {
    if words == Partial(p, f, k + 1) then k + 1 else k
  }

  /** An operation that moves the flash to the next step of the swap, or leaves it, keeps to the crash points. */
  lemma Advance(p: Slots, sig: Verifier, f: Flash, history: seq<Flash>, n: nat, k: nat, words: Flash)
    requires p.Valid(f) && SizeOk(p, ImageSize(f, p.b))
    requires Swapping(p, sig, f, history, n, Partial(p, f, k), k)
    requires words == Partial(p, f, k) || words == Partial(p, f, k + 1)
    ensures Swapping(p, sig, f, history + [words], n, words, StepAfter(p, f, k, words))
  {
    hide Partial, Completed, SignatureOf, Message;
    var j := StepAfter(p, f, k, words);
    assert AtStep(p, sig, f, j, words) && IsPartial(p, f, j, words);
  }

  class Bootloader {
    const slots: Slots
    const sig: Verifier
    /** The flash. */
    var words: Flash
    /** What the flash has held after each operation: where power may fail. */
    ghost var history: seq<Flash>
    /** How many flash operations have failed. */
    ghost var faults: nat

    constructor (slots: Slots, sig: Verifier, words: Flash)
      requires slots.Valid(words)
      ensures this.slots == slots && this.sig == sig && this.words == words && history == [] && faults == 0
    {
      this.slots, this.sig, this.words, history, faults := slots, sig, words, [], 0;
    }

    /** flash::erase_page: on a timeout the page may or may not have been erased. */
    method ErasePage(address: nat) returns (ok: bool)
      modifies this
      ensures words == Erased(old(words), address - address % PAGE) || (!ok && words == old(words))
      ensures history == old(history) + [words] && faults == old(faults) + if ok then 0 else 1
    {
      var done: bool := *;
      ok := *;
      if ok || done {
        words := Erased(words, address - address % PAGE);
      }
      history := history + [words];
      faults := faults + if ok then 0 else 1;
    }

    /** flash::write_word: only an erased word takes the value given; on a timeout it may or may not have. */
    method WriteWord(address: nat, data: Word) returns (ok: bool)
      requires address < |words|
      modifies this
      ensures |words| == |old(words)|
      ensures old(words)[address] == ERASED ==>
                words == old(words)[address := data] || (!ok && words == old(words))
      ensures history == old(history) + [words] && faults == old(faults) + if ok then 0 else 1
    {
      var done: bool := *;
      ok := *;
      if ok || done {
        var stored: Word := *;
        if words[address] == ERASED { stored := data; }
        words := words[address := stored];
      }
      history := history + [words];
      faults := faults + if ok then 0 else 1;
    }

    /** Step 1 of the swap: erase slot A, its header first. */
    method EraseA(ghost f: Flash, ghost n: nat) returns (ok: bool, ghost k: nat)
      requires Swapping(slots, sig, f, history, n, words, 0)
      modifies this
      ensures Swapping(slots, sig, f, history, n, words, k) && (ok ==> k == slots.pages)
      ensures old(history) <= history && faults == old(faults) + if ok then 0 else 1
    {
      hide Partial, CrashPoints, InterruptPoints, Verifies;
      k, ok := 0, true;
      var page := 0;
      while page < slots.pages && ok
        invariant old(history) <= history && faults == old(faults) + if ok then 0 else 1
        invariant page <= slots.pages && Swapping(slots, sig, f, history, n, words, k) && (ok ==> k == page)
      {
        BValid(slots, sig, f);
        EraseStep(slots, f, page);
        ghost var past := history;
        assert (slots.a + PAGE * page) % PAGE == 0;
        ok := ErasePage(slots.a + PAGE * page);
        Advance(slots, sig, f, past, n, k, words);
        k := StepAfter(slots, f, k, words);
        page := page + 1;
      }
    }

    /** Step 2: copy the body. */
    method CopyBody(ghost f: Flash, ghost n: nat) returns (ok: bool, ghost k: nat)
      requires Swapping(slots, sig, f, history, n, words, slots.pages)
      modifies this
      ensures Swapping(slots, sig, f, history, n, words, k) && (ok ==> k == slots.pages + BodyWords(f, slots))
      ensures old(history) <= history && faults == old(faults) + if ok then 0 else 1
    {
      hide Partial, CrashPoints, InterruptPoints, Verifies;
      k, ok := slots.pages, true;
      BValid(slots, sig, f);
      BSame(slots, f, k);
      var size := words[slots.b + SIZE_FIELD];
      var wordsToCopy := size / 4;
      if size % 4 != 0 { wordsToCopy := wordsToCopy + 1; }
      var i := 0;
      while i < wordsToCopy && ok
        invariant old(history) <= history && faults == old(faults) + if ok then 0 else 1
        invariant i <= wordsToCopy && Swapping(slots, sig, f, history, n, words, k) && (ok ==> k == slots.pages + i)
      {
        BodyStep(slots, f, i);
        BSame(slots, f, k);
        ghost var past := history;
        ok := WriteWord(slots.a + HEADER + i, words[slots.b + HEADER + i]);
        Advance(slots, sig, f, past, n, k, words);
        k := StepAfter(slots, f, k, words);
        i := i + 1;
      }
    }

    /** Step 3: write the header last, marked valid. */
    method CopyHeader(ghost f: Flash, ghost n: nat) returns (ok: bool, ghost k: nat)
      requires slots.Valid(f) && Swapping(slots, sig, f, history, n, words, slots.pages + BodyWords(f, slots))
      modifies this
      ensures Swapping(slots, sig, f, history, n, words, k) && (ok ==> k == Operations(slots, f))
      ensures old(history) <= history && faults == old(faults) + if ok then 0 else 1
    {
      hide Partial, CrashPoints, InterruptPoints, Verifies;
      k, ok := slots.pages + BodyWords(f, slots), true;
      BValid(slots, sig, f);
      var i := 0;
      while i < HEADER && ok
        invariant old(history) <= history && faults == old(faults) + if ok then 0 else 1
        invariant i <= HEADER && Swapping(slots, sig, f, history, n, words, k)
        invariant ok ==> k == slots.pages + BodyWords(f, slots) + i
      {
        HeaderStep(slots, f, i);
        BSame(slots, f, k);
        ghost var past := history;
        var word := words[slots.b + i];
        if i == STATUS_FIELD { word := VALID_STATUS; }
        ok := WriteWord(slots.a + i, word);
        Advance(slots, sig, f, past, n, k, words);
        k := StepAfter(slots, f, k, words);
        i := i + 1;
      }
    }

    /** The boot decision, with the swap: the answer is whether slot A is booted. */
    method Boot() returns (bootA: bool)
      requires slots.Valid(words)
      modifies this
      ensures slots.Valid(words) && bootA == Verifies(slots, sig, words, slots.a)
      ensures old(history) <= history && CrashPoints(slots, sig, old(words), history, |old(history)|)
      ensures CrashPoint(slots, sig, old(words), words)
      ensures faults == old(faults) ==> words == Completed(slots, sig, old(words))
      ensures faults == old(faults) ==> InterruptPoints(slots, sig, old(words), history, |old(history)|)
    {
      hide Partial, SignatureOf, Message, Erased;
      bootA := Verifies(slots, sig, words, slots.a);
      var bValid := Verifies(slots, sig, words, slots.b);
      if bValid && (!bootA || words[slots.b + STATUS_FIELD] == UPDATE_PENDING) {
        ghost var f, n, k := words, |history|, 0;
        StartIsOld(slots, f);
        var size := words[slots.b + SIZE_FIELD];
        var flashOk := 0 < size <= 4 * slots.Length() - 4 * HEADER;
        if flashOk { flashOk, k := EraseA(f, n); }
        if flashOk { flashOk, k := CopyBody(f, n); }
        if flashOk { flashOk, k := CopyHeader(f, n); }
        assert AtStep(slots, sig, f, k, words);
        bootA := Verifies(slots, sig, words, slots.a);
        if bootA {
          ghost var past, now := history, words;
          var erased := ErasePage(slots.b);
          GiveUpB(slots, sig, f, past, n, k, now, words);
        }
        if flashOk { SwapCompletes(slots, sig, f); }
      }
    }
  }

  /** Giving slot B up, once slot A verifies, is a crash point too and keeps slot A. */
  lemma GiveUpB(p: Slots, sig: Verifier, f: Flash, history: seq<Flash>, n: nat, k: nat, now: Flash, words: Flash)
    requires Swapping(p, sig, f, history, n, now, k) && p.Valid(now) && Verifies(p, sig, now, p.a)
    requires words == now || words == WithoutB(p, now)
    ensures p.Valid(words) && Verifies(p, sig, words, p.a)
    ensures CrashPoint(p, sig, f, words) && CrashPoints(p, sig, f, history + [words], n)
    ensures k == Operations(p, f) ==> InterruptPoints(p, sig, f, history + [words], n)
  {
    hide Partial, SignatureOf, Message, Erased;
    assert AtStep(p, sig, f, k, words);
    assert words == now ==> IsPartial(p, f, k, words);
    AIntact(p, now);
    SameSlotVerifies(p, sig, now, WithoutB(p, now), p.a);
  }

  lemma BValid(p: Slots, sig: Verifier, f: Flash)
    requires p.Valid(f) && SwapNeeded(p, sig, f)
    ensures SizeOk(p, ImageSize(f, p.b))
  {
  }

  /** The swap reads slot B as it was when it began. */
  lemma BSame(p: Slots, f: Flash, k: nat)
    requires p.Valid(f) && SizeOk(p, ImageSize(f, p.b))
    ensures forall w | p.b <= w < p.b + p.Length() :: Partial(p, f, k)[w] == f[w]
  {
  }
}
