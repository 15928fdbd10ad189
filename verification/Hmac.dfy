/** HMAC-SHA256 (utils/hmac_sha256.hpp:178-257) against section 2 of RFC 2104. */
module Hmac {
  import opened Sha256Spec
  import Sha256

  const IPAD: Byte := 0x36
  const OPAD: Byte := 0x5c

  /** A key brought to the length of a block: hashed if it is longer, then filled with zeros. */
  function KeyBlock(key: Bytes): (r: Bytes)
    ensures |r| == BLOCK
  {
    if |key| > BLOCK then Sha256Spec.Sha256(key) + Zeros(BLOCK - DIGEST) else key + Zeros(BLOCK - |key|)
  }

  function XorByte(b: Byte, x: Byte): Byte { b ^ x }

  function Xor(s: Bytes, x: Byte): (r: Bytes)
    ensures |r| == |s|
  {
    seq(|s|, i requires 0 <= i < |s| => XorByte(s[i], x))
  }

  /** RFC 2104: H(K xor opad, H(K xor ipad, text)). */
  function Hmac(key: Bytes, text: Bytes): (r: Bytes)
    ensures |r| == DIGEST
  {
    Sha256Spec.Sha256(Xor(KeyBlock(key), OPAD) + Sha256Spec.Sha256(Xor(KeyBlock(key), IPAD) + text))
  }

  method PadKey(key: Bytes) returns (kPad: Bytes)
    ensures kPad == KeyBlock(key)
  {
    hide Sha256Spec.Sha256, Blocks;
    if |key| > BLOCK {
      var kh := new Sha256.Sha256();
      kh.Update(key);
      assert kh.message == key;
      kPad := kh.Finish();
      kPad := kPad + Zeros(BLOCK - DIGEST);
    } else {
      kPad := key + Zeros(BLOCK - |key|);
    }
  }

  lemma XorNothing(x: Byte)
    ensures Xor([], x) == []
  {
  }

  lemma XorNext(s: Bytes, b: Byte, x: Byte)
    ensures Xor(s + [b], x) == Xor(s, x) + [XorByte(b, x)]
  {
    hide XorByte;
  }

  method XorPads(kPad: Bytes) returns (iPad: Bytes, outer: Bytes)
    requires |kPad| == BLOCK
    ensures iPad == Xor(kPad, IPAD) && outer == Xor(kPad, OPAD)
  {
    hide Xor;
    iPad, outer := [], [];
    XorNothing(IPAD);
    XorNothing(OPAD);
    for i := 0 to BLOCK
      invariant iPad == Xor(kPad[..i], IPAD) && outer == Xor(kPad[..i], OPAD)
    {
      assert kPad[..i + 1] == kPad[..i] + [kPad[i]];
      XorNext(kPad[..i], kPad[i], IPAD);
      XorNext(kPad[..i], kPad[i], OPAD);
      iPad := iPad + [XorByte(kPad[i], IPAD)];
      outer := outer + [XorByte(kPad[i], OPAD)];
    }
    assert kPad[..BLOCK] == kPad;
  }

  class HmacSha256 {
    const inner: Sha256.Sha256
    var oPad: Bytes
    ghost var key: Bytes
    ghost var text: Bytes

    ghost predicate Valid()
      reads this, inner, inner.buf
    {
      inner.Valid() && inner.message == Xor(KeyBlock(key), IPAD) + text && oPad == Xor(KeyBlock(key), OPAD)
    }

    /** Prepares a context for a key of any length. */
    constructor (key: Bytes)
      ensures Valid() && this.key == key && text == [] && fresh(inner) && fresh(inner.buf)
    {
      hide Sha256Spec.Sha256, Blocks, KeyBlock, Xor;
      var kPad := PadKey(key);
      var iPad, outer := XorPads(kPad);
      oPad := outer;
      inner := new Sha256.Sha256();
      this.key, text := key, [];
      new;
      Start(iPad);
    }

    /** Starts the inner hash. */
    method Start(iPad: Bytes)
      requires inner.Valid() && inner.message == [] && text == []
      requires iPad == Xor(KeyBlock(key), IPAD) && oPad == Xor(KeyBlock(key), OPAD)
      modifies inner, inner.buf
      ensures Valid()
    {
      hide Sha256Spec.Sha256, Blocks, KeyBlock, Xor, Sha256.Tail, Sha256.Whole;
      inner.Update(iPad);
      assert inner.message == iPad + text;
    }

    method Update(data: Bytes)
      requires Valid()
      modifies this, inner, inner.buf
      ensures Valid() && key == old(key) && text == old(text) + data
    {
      hide Sha256Spec.Sha256, Blocks, Xor;
      inner.Update(data);
      text := text + data;
      assert inner.message == Xor(KeyBlock(key), IPAD) + text;
    }

    /** The RFC 2104 value for the key and all the data since; the context is then wiped. */
    method Finish() returns (digest: Bytes)
      requires Valid()
      modifies this, inner, inner.buf
      ensures digest == Hmac(old(key), old(text))
      ensures oPad == Zeros(BLOCK)
    {
      hide Sha256Spec.Sha256, Blocks, Xor, KeyBlock, Sha256.Tail, Sha256.Whole;
      var innerDigest := inner.Finish();
      var outer := new Sha256.Sha256();
      outer.Update(oPad);
      outer.Update(innerDigest);
      assert outer.message == oPad + innerDigest;
      digest := outer.Finish();
      oPad := Zeros(BLOCK);
    }
  }

  /** HmacSha256::compute */
  method Compute(key: Bytes, msg: Bytes) returns (digest: Bytes)
    ensures digest == Hmac(key, msg)
  {
    hide Hmac, Sha256Spec.Sha256, Blocks, Xor, KeyBlock, Sha256.Tail, Sha256.Whole;
    var ctx := new HmacSha256(key);
    ctx.Update(msg);
    assert ctx.text == msg;
    digest := ctx.Finish();
  }

  /** HmacSha256::constant_time_eq: no early exit, and still exactly equality. */
  method ConstantTimeEq(a: Bytes, b: Bytes, length: nat) returns (equal: bool)
    requires length <= |a| && length <= |b|
    ensures equal <==> a[..length] == b[..length]
  {
    var diff: Byte := 0;
    for i := 0 to length
      invariant diff == 0 <==> a[..i] == b[..i]
    {
      Differs(diff, a[i], b[i]);
      assert a[..i + 1] == a[..i] + [a[i]] && b[..i + 1] == b[..i] + [b[i]];
      diff := diff | (a[i] ^ b[i]);
    }
    return diff == 0;
  }

  lemma Differs(d: Byte, x: Byte, y: Byte)
    ensures d | (x ^ y) == 0 <==> d == 0 && x == y
  {
  }
}
