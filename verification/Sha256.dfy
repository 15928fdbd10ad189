/** The streaming SHA-256 of utils/hmac_sha256.hpp:28-173. */
module Sha256 {
  import opened Sha256Spec

  /** The part of a message that does not fill a block. */
  function Tail(m: Bytes): (r: Bytes)
    ensures |r| == |m| % BLOCK
  {
    m[|m| - |m| % BLOCK..]
  }

  function Whole(m: Bytes): (r: Bytes)
    ensures |r| % BLOCK == 0
  {
    m[..|m| - |m| % BLOCK]
  }

  lemma Empty(s: State)
    ensures Tail([]) == [] && Whole([]) == [] && Blocks(s, []) == s
  {
  }

  /** Some bytes more, which do not go beyond the block begun. */
  lemma Grow(s: State, m: Bytes, c: Bytes)
    requires |Tail(m)| + |c| <= BLOCK && |c| > 0
    ensures |Tail(m)| + |c| < BLOCK ==> Tail(m + c) == Tail(m) + c && Whole(m + c) == Whole(m)
    ensures |Tail(m)| + |c| == BLOCK ==>
              Tail(m + c) == [] && Blocks(s, Whole(m + c)) == Compress(Blocks(s, Whole(m)), Tail(m) + c)
  {
    hide Compress, Blocks;
    var r := |m| % BLOCK;
    assert |m + c| == (|m| - r) + (r + |c|);
    if r + |c| < BLOCK {
      assert |m + c| % BLOCK == r + |c|;
    } else {
      assert |m + c| % BLOCK == 0;
      BlocksAppend(s, Whole(m), Tail(m) + c);
      assert Whole(m + c) == Whole(m) + (Tail(m) + c);
    }
  }

  /** The last block of a message whose tail leaves room for the length. */
  lemma PadOne(s: State, m: Bytes)
    requires |Tail(m)| < 56
    ensures Blocks(s, Padded(m)) ==
              Compress(Blocks(s, Whole(m)), Tail(m) + [0x80] + Zeros(55 - |Tail(m)|) + LengthField(|m|))
  {
    hide Compress, Blocks, LengthField;
    var block := Tail(m) + [0x80] + Zeros(55 - |Tail(m)|) + LengthField(|m|);
    BlocksAppend(s, Whole(m), block);
    assert Padded(m) == Whole(m) + block;
  }

  /** The last two blocks of any other message. */
  lemma PadTwo(s: State, m: Bytes)
    requires |Tail(m)| >= 56
    ensures Blocks(s, Padded(m)) ==
              Compress(Compress(Blocks(s, Whole(m)), Tail(m) + [0x80] + Zeros(63 - |Tail(m)|)),
                       Zeros(56) + LengthField(|m|))
  {
    hide Compress, Blocks, LengthField;
    var first, last := Tail(m) + [0x80] + Zeros(63 - |Tail(m)|), Zeros(56) + LengthField(|m|);
    BlocksAppend(s, Whole(m), first);
    BlocksAppend(s, Whole(m) + first, last);
    assert Padded(m) == Whole(m) + first + last;
  }

  /** One turn of the round loop: the eight variables move on by one. */
  method RoundStep(v: State, k: Word, w: Word) returns (r: State)
    ensures r == Round(v, k, w)
  {
    hide Plus, BigSigma0, BigSigma1, Ch, Maj;
    var a, b, c, d := v.a, v.b, v.c, v.d;
    var e, f, g, h := v.e, v.f, v.g, v.h;
    var t1 := Plus(Plus(Plus(Plus(h, BigSigma1(e)), Ch(e, f, g)), k), w);
    var t2 := Plus(BigSigma0(a), Maj(a, b, c));
    h := g;
    g := f;
    f := e;
    e := Plus(d, t1);
    d := c;
    c := b;
    b := a;
    a := Plus(t1, t2);
    r := State(a, b, c, d, e, f, g, h);
  }

  /** The working variables added to the hash value, word by word. */
  method AddStep(s: State, v: State) returns (r: State)
    ensures r == Sum(s, v)
  {
    hide Plus;
    r := s.(a := Plus(s.a, v.a));
    r := r.(b := Plus(r.b, v.b));
    r := r.(c := Plus(r.c, v.c));
    r := r.(d := Plus(r.d, v.d));
    r := r.(e := Plus(r.e, v.e));
    r := r.(f := Plus(r.f, v.f));
    r := r.(g := Plus(r.g, v.g));
    r := r.(h := Plus(r.h, v.h));
  }

  method NextWord(w2: Word, w7: Word, w15: Word, w16: Word) returns (r: Word)
    ensures r == ScheduleNext(w2, w7, w15, w16)
  {
    hide Plus, SmallSigma0, SmallSigma1;
    r := SmallSigma1(w2);
    r := Plus(r, w7);
    r := Plus(r, SmallSigma0(w15));
    r := Plus(r, w16);
  }

  /** Four bytes of the block as a word, the first one highest. */
  method LoadWord(b0: Byte, b1: Byte, b2: Byte, b3: Byte, ghost block: Bytes, ghost i: nat) returns (r: Word)
    requires |block| == BLOCK && i < 16
    requires b0 == block[4 * i] && b1 == block[4 * i + 1] && b2 == block[4 * i + 2] && b3 == block[4 * i + 3]
    ensures r == BlockWord(block, i)
  {
    r := (b0 as Word << 24) | (b1 as Word << 16) | (b2 as Word << 8) | (b3 as Word);
  }

  class Sha256 {
    var state: State
    const buf: array<Byte>
    var bitCount: nat
    var bufUsed: nat
    /** What has been hashed since Init. */
    ghost var message: Bytes

    /** The whole blocks of m are in the state, the rest in the buffer. */
    ghost predicate Absorbed(m: Bytes)
      reads this, buf
    {
      && buf.Length == BLOCK && bufUsed == |Tail(m)| && buf[..bufUsed] == Tail(m)
      && state == Blocks(INITIAL, Whole(m))
    }

    ghost predicate Valid()
      reads this, buf
    {
      Absorbed(message) && bitCount == 8 * |message| % MOD64
    }

    constructor ()
      ensures Valid() && message == [] && fresh(buf)
    {
      hide Blocks, Whole, Tail;
      Empty(INITIAL);
      buf := new Byte[BLOCK](_ => 0);
      state, bitCount, bufUsed, message := INITIAL, 0, 0, [];
    }

    method Init()
      requires buf.Length == BLOCK
      modifies this
      ensures Valid() && message == []
    {
      hide Blocks, Whole, Tail;
      Empty(INITIAL);
      state, bitCount, bufUsed, message := INITIAL, 0, 0, [];
    }

    method Update(data: Bytes)
      requires Valid()
      modifies this, buf
      ensures Valid() && message == old(message) + data
    {
      hide Blocks, Whole, Tail;
      bitCount := (bitCount + 8 * |data| % MOD64) % MOD64;
      var pos := 0;
      assert message + data[..pos] == message;
      while pos < |data|
        invariant pos <= |data| && Absorbed(message + data[..pos])
        invariant message == old(message) && bitCount == (old(bitCount) + 8 * |data| % MOD64) % MOD64
      {
        var space := BLOCK - bufUsed;
        var copy := if |data| - pos < space then |data| - pos else space;
        Absorb(message + data[..pos], data[pos..pos + copy]);
        assert message + data[..pos] + data[pos..pos + copy] == message + data[..pos + copy];
        pos := pos + copy;
      }
      assert data[..pos] == data;
      message := message + data;
      AddLengths(|old(message)|, |data|);
    }

    /** One turn of the update loop: a chunk for the buffer, which is processed when it is full. */
    method Absorb(ghost m: Bytes, chunk: Bytes)
      requires Absorbed(m) && 0 < |chunk| <= BLOCK - bufUsed
      modifies this`state, this`bufUsed, buf
      ensures Absorbed(m + chunk)
    {
      hide Compress, Blocks;
      Grow(INITIAL, m, chunk);
      Put(chunk);
      if bufUsed == BLOCK {
        assert buf[..] == buf[..bufUsed];
        ProcessBlock();
        bufUsed := 0;
      }
    }

    /** memcpy to the end of the buffer. */
    method Put(chunk: Bytes)
      requires buf.Length == BLOCK && bufUsed + |chunk| <= BLOCK
      modifies this`bufUsed, buf
      ensures bufUsed == old(bufUsed) + |chunk| && buf[..bufUsed] == old(buf[..bufUsed]) + chunk
    {
      forall i | 0 <= i < |chunk| { buf[bufUsed + i] := chunk[i]; }
      bufUsed := bufUsed + |chunk|;
      assert buf[..bufUsed] == old(buf[..bufUsed]) + chunk;
    }

    method ProcessBlock()
      requires buf.Length == BLOCK
      modifies this`state
      ensures state == Compress(old(state), buf[..])
    {
      hide BlockWord, ScheduleNext, Constant, Round, Sum, Plus;
      ghost var block := buf[..];
      var w := Expand();
      var v := state;
      var i := 0;
      while i < 64
        invariant i <= 64 && v == Rounds(state, block, i) && state == old(state)
        invariant forall t | 0 <= t < 64 :: w[t] == Schedule(block, t)
      {
        v := RoundStep(v, Constant(i), w[i]);
        i := i + 1;
      }
      state := AddStep(state, v);
    }

    /** The message schedule. */
    method Expand() returns (w: array<Word>)
      requires buf.Length == BLOCK
      ensures fresh(w) && w.Length == 64 && forall t | 0 <= t < 64 :: w[t] == Schedule(buf[..], t)
    {
      hide BlockWord, ScheduleNext;
      w := new Word[64];
      for i := 0 to 16
        invariant forall t | 0 <= t < i :: w[t] == Schedule(buf[..], t)
      {
        w[i] := LoadWord(buf[i * 4], buf[i * 4 + 1], buf[i * 4 + 2], buf[i * 4 + 3], buf[..], i);
      }
      for i := 16 to 64
        invariant forall t | 0 <= t < i :: w[t] == Schedule(buf[..], t)
      {
        w[i] := NextWord(w[i - 2], w[i - 7], w[i - 15], w[i - 16]);
      }
    }

    /** The padding, and the blocks it ends. */
    method Pad()
      requires Valid()
      modifies this`state, this`bufUsed, buf
      ensures state == Blocks(INITIAL, Padded(message))
    {
      hide Compress, Blocks, LengthField, Tail, Whole, Padded;
      Put([0x80]);
      if bufUsed > 56 {
        PadTwo(INITIAL, message);
        Put(Zeros(BLOCK - bufUsed));
        assert buf[..] == buf[..bufUsed];
        ProcessBlock();
        bufUsed := 0;
        Put(Zeros(56));
        assert buf[..56] == Zeros(56);
      } else {
        PadOne(INITIAL, message);
        Put(Zeros(56 - bufUsed));
      }
      PutLength();
      ProcessBlock();
    }

    /** The digest of everything since Init, however it was split over updates; the context is then wiped. */
    method Finish() returns (digest: Bytes)
      requires Valid()
      modifies this, buf
      ensures digest == Sha256Spec.Sha256(old(message))
      ensures state == State(0, 0, 0, 0, 0, 0, 0, 0) && bitCount == 0 && bufUsed == 0 && buf[..] == Zeros(BLOCK)
    {
      hide Compress, Blocks, LengthField, Padded;
      Pad();
      digest := [];
      for i := 0 to 8
        invariant digest == Output(state, i)
        invariant state == Blocks(INITIAL, Padded(message)) && message == old(message)
      {
        digest := digest + WordBytes(WordOf(state, i));
      }
      state, bitCount, bufUsed := State(0, 0, 0, 0, 0, 0, 0, 0), 0, 0;
      forall i | 0 <= i < BLOCK { buf[i] := 0; }
    }

    /** The length field at the end of the block. */
    method PutLength()
      requires buf.Length == BLOCK && bufUsed == 56 && bitCount == 8 * |message| % MOD64
      modifies buf
      ensures buf[..] == old(buf[..56]) + LengthField(|message|)
    {
      hide NthByte;
      var i := 7;
      while i >= 0
        invariant -1 <= i <= 7 && buf[..56] == old(buf[..56])
        invariant forall j | 0 <= j < 7 - i :: buf[56 + j] == LengthField(|message|)[j]
      {
        buf[56 + (7 - i)] := NthByte(bitCount, i);
        i := i - 1;
      }
    }
  }

  lemma AddLengths(m: nat, n: nat)
    ensures (8 * m % MOD64 + 8 * n % MOD64) % MOD64 == 8 * (m + n) % MOD64
  {
    var x, y := 8 * m, 8 * n;
    var r, q := x % MOD64 + y % MOD64, x / MOD64 + y / MOD64;
    if r < MOD64 {
      Remainder64(q, r);
      Remainder64(0, r);
    } else {
      Remainder64(q + 1, r - MOD64);
      Remainder64(1, r - MOD64);
    }
  }

  lemma Remainder64(q: nat, r: nat)
    requires r < MOD64
    ensures (MOD64 * q + r) % MOD64 == r
  {
  }
}
