/** The SoftBus: key slots, beacons sent and beacons received (net/distributed_bus.hpp:27-44, 143-209, 275-378). */
module SoftBus {
  import opened Arithmetic
  import opened ByteMemory
  import opened CString
  import opened JsonParser
  import opened KeyedTable
  import opened Sha256Spec
  import opened BeaconText
  import opened BeaconRoundTrip
  import opened Hmac
  import RateLimiter
  import ReplayTable

  function AsBytes(s: string): (r: Bytes)
    ensures |r| == |s|
  {
    seq(|s|, i requires 0 <= i < |s| => (s[i] as int % 256) as Byte)
  }

  /** A number as four bytes, most significant first. */
  function SeqBytes(n: Uint32): Bytes {
    [NthByte(n, 3), NthByte(n, 2), NthByte(n, 1), NthByte(n, 0)]
  }

  /** What a beacon's digest is of: the device id and the number. */
  function Challenge(id: string, n: Uint32): Bytes {
    AsBytes(Truncated(id, ReplayTable.ID_LENGTH)) + SeqBytes(n)
  }

  // ----- What the digest covers

  /** The string that bytes stand for. */
  function AsString(bs: Bytes): string
  {
    seq(|bs|, i requires 0 <= i < |bs| => bs[i] as char)
  }

  lemma AsciiRoundTrip(s: string)
    requires forall i | 0 <= i < |s| :: s[i] as int < 128
    ensures AsString(AsBytes(s)) == s
  {
    forall i | 0 <= i < |s| ensures AsString(AsBytes(s))[i] == s[i] { CharByte(s[i]); }
  }

  lemma CharByte(c: char)
    requires c as int < 128
    ensures (c as int % 256) as Byte as char == c
  {
    ByteOf(c as int);
  }

  lemma SeqBytesValue(n: Uint32)
    ensures |SeqBytes(n)| == 4 && BigEndian(SeqBytes(n)) == n
  {
    hide NthByte, BigEndian, BigEndianBytes, Pow256;
    BigEndianAt(n, 4, 0);
    BigEndianAt(n, 4, 1);
    BigEndianAt(n, 4, 2);
    BigEndianAt(n, 4, 3);
    assert SeqBytes(n) == BigEndianBytes(n, 4);
    BigEndianValue(n, 4);
    Powers();
  }

  /** The id and the number can be read back out of the bytes hashed: the last four are the number, most significant
      byte first, and those before it the id. */
  lemma ChallengeReads(id: string, n: Uint32)
    requires ValidId(id)
    ensures var c := Challenge(id, n);
            && |c| == |id| + 4 && AsString(c[..|c| - 4]) == id && BigEndian(c[|c| - 4..]) == n
  {
    hide SeqBytes, AsBytes, AsString;
    var c := Challenge(id, n);
    SeqBytesValue(n);
    AsciiRoundTrip(id);
    assert c[..|c| - 4] == AsBytes(id) && c[|c| - 4..] == SeqBytes(n);
  }

  /** So different ids or numbers are hashed as different bytes. */
  lemma ChallengeInjective(id: string, n: Uint32, id': string, n': Uint32)
    requires ValidId(id) && ValidId(id') && Challenge(id, n) == Challenge(id', n')
    ensures id == id' && n == n'
  {
    hide Challenge;
    ChallengeReads(id, n);
    ChallengeReads(id', n');
  }

  /** The digest field is that of the id and the number, under the key. */
  predicate Authentic(key: Bytes, f: Fields) {
    HexDecode(f.auth, DIGEST) == Some(Hmac.Hmac(key, Challenge(f.id, f.seqNum)))
  }

  /** A digest that passes for two beacons is one of two different texts, unless they are one beacon: resending it with
      another number or under another name needs a collision. */
  lemma AuthenticOnce(key: Bytes, f: Fields, f': Fields)
    requires ValidId(f.id) && ValidId(f'.id) && f.auth == f'.auth && Authentic(key, f) && Authentic(key, f')
    ensures || (f.id == f'.id && f.seqNum == f'.seqNum)
            || (var c, c' := Challenge(f.id, f.seqNum), Challenge(f'.id, f'.seqNum);
                c != c' && Hmac.Hmac(key, c) == Hmac.Hmac(key, c'))
  {
    hide Challenge, Hmac.Hmac, HexDecode;
    if Challenge(f.id, f.seqNum) == Challenge(f'.id, f'.seqNum) {
      ChallengeInjective(f.id, f.seqNum, f'.id, f'.seqNum);
    }
  }

  /** A beacon under a key reads back as sent and is authentic under the same key. */
  lemma BeaconAuthentic(key: Bytes, id: string, n: Uint32)
    requires ValidId(id) && id != "seq" && id != "auth"
    ensures var digest := Hmac.Hmac(key, Challenge(id, n));
            var f := Fields(id, CAP, n, HexEncode(digest));
            Parse(Text(id, n, digest)) == Some(f) && Authentic(key, f)
  {
    hide Parse, Text, Hmac.Hmac, HexDecode, HexEncode, Challenge;
    var digest := Hmac.Hmac(key, Challenge(id, n));
    BeaconRoundTrip.BeaconRoundTrip(id, n, digest);
    HexRoundTrip(digest, "");
    assert HexEncode(digest) + "" == HexEncode(digest);
  }

  /** In particular a beacon of any device, since devices name themselves by 8 hexadecimal digits. */
  lemma DeviceBeacon(key: Bytes, uid: Uint32, n: Uint32)
    ensures var digest := Hmac.Hmac(key, Challenge(DeviceId(uid), n));
            var f := Fields(DeviceId(uid), CAP, n, HexEncode(digest));
            && Truncated(Text(DeviceId(uid), n, digest), PAYLOAD) == Text(DeviceId(uid), n, digest)
            && Parse(Text(DeviceId(uid), n, digest)) == Some(f) && Authentic(key, f)
  {
    hide Parse, Text, Hmac.Hmac, HexDecode, HexEncode, Challenge, DeviceId;
    DeviceIdValid(uid);
    BeaconAuthentic(key, DeviceId(uid), n);
    PayloadFits(DeviceId(uid), n, Hmac.Hmac(key, Challenge(DeviceId(uid), n)));
  }

  datatype KeySlot = KeySlot(key: Bytes, version: Uint32, valid: bool)

  class SoftBus {
    const deviceId: string
    const limiter: RateLimiter.RateLimiter
    const replay: ReplayTable.ReplayTable
    var keySlots: seq<KeySlot>
    var activeSlot: nat
    var beaconSeq: Uint32

    ghost predicate Valid()
      reads this, limiter, limiter.entries, replay, replay.entries
    {
      && |keySlots| == 2 && activeSlot < 2 && limiter.Valid() && replay.Valid()
      && limiter.entries as object != replay.entries as object
    }

    constructor (uid: Uint32)
      ensures Valid() && deviceId == DeviceId(uid) && !keySlots[activeSlot].valid && beaconSeq == 1
      ensures limiter.buckets == map[] && replay.devices == map[]
    {
      deviceId := DeviceId(uid);
      limiter := new RateLimiter.RateLimiter();
      replay := new ReplayTable.ReplayTable();
      keySlots := [KeySlot(Zeros(32), 0, false), KeySlot(Zeros(32), 0, false)];
      activeSlot, beaconSeq := 0, 1;
    }

    /** The new key goes to the slot not in use, which then becomes the active one; the old key stays in the other. */
    method SetKey(key: Bytes, version: Uint32)
      requires Valid()
      modifies this
      ensures Valid() && keySlots[activeSlot] == KeySlot(key, version, true)
      ensures activeSlot != old(activeSlot) && keySlots[old(activeSlot)] == old(keySlots[activeSlot])
      ensures beaconSeq == old(beaconSeq)
    {
      var slot := if activeSlot == 0 then 1 else 0;
      keySlots := keySlots[slot := KeySlot(key, version, true)];
      activeSlot := slot;
    }

    method VerifyHmac(challenge: string, hmacHex: string, n: Uint32) returns (ok: bool)
      requires Valid()
      ensures ok <==>
                keySlots[activeSlot].valid && Authentic(keySlots[activeSlot].key, Fields(challenge, "", n, hmacHex))
    {
      hide Hmac.Hmac, HexDecode, Challenge;
      var slot := keySlots[activeSlot];
      if !slot.valid { return false; }
      var computed := Digest(slot.key, challenge, n);
      var received := DecodeHex(hmacHex);
      if received.None? { return false; }
      ok := ConstantTimeEq(computed, received.value, DIGEST);
      assert computed[..DIGEST] == computed && received.value[..DIGEST] == received.value;
    }

    /** The digest of a device id and a number, hashed in two pieces. */
    method Digest(key: Bytes, challenge: string, n: Uint32) returns (digest: Bytes)
      ensures digest == Hmac.Hmac(key, Challenge(challenge, n))
    {
      hide Hmac.Hmac, NthByte, AsBytes, Truncated, Xor, KeyBlock, Blocks;
      var ctx := new HmacSha256(key);
      ctx.Update(AsBytes(Truncated(challenge, ReplayTable.ID_LENGTH)));
      ctx.Update(SeqBytes(n));
      assert ctx.text == Challenge(challenge, n);
      digest := ctx.Finish();
    }

    /** The next beacon, or none while there is no key. */
    method Broadcast() returns (payload: Option<string>)
      requires Valid()
      modifies this`beaconSeq
      ensures Valid() && payload.Some? == keySlots[activeSlot].valid
      ensures beaconSeq == if payload.Some? then Add32(old(beaconSeq), 1) else old(beaconSeq)
      ensures payload.Some? ==>
                payload.value == Truncated(Text(deviceId, old(beaconSeq),
                  Hmac.Hmac(keySlots[activeSlot].key, Challenge(deviceId, old(beaconSeq)))), PAYLOAD)
    {
      hide Hmac.Hmac, Print, Challenge, HexEncode, Decimal;
      var slot := keySlots[activeSlot];
      if !slot.valid { return None; }
      var n := beaconSeq;
      beaconSeq := Add32(beaconSeq, 1);
      var computed := Digest(slot.key, deviceId, n);
      var hex := EncodeHex(computed);
      payload := Some(Truncated(Print(deviceId, Decimal(n), hex), PAYLOAD));
    }

    /** A packet that passes the rate limit, reads as a beacon, is authentic and is not a replay is accepted. */
    method Receive(packet: string, ip: string, now: Uint32) returns (accepted: Option<Fields>)
      requires Valid()
      modifies limiter, limiter.entries, replay, replay.entries
      ensures Valid()
      ensures accepted.Some? ==> Parse(packet) == accepted
      ensures accepted.Some? <==>
                && packet != "" && RateLimiter.Passes(old(limiter.buckets), Truncated(ip, RateLimiter.IP_LENGTH), now)
                && Parse(packet).Some? && Genuine(Parse(packet).value)
                && ReplayTable.Accepts(old(replay.devices), Parse(packet).value.id, Parse(packet).value.seqNum, now)
      ensures replay.devices ==
                if accepted.Some? then
                  ReplayTable.After(old(replay.devices), Parse(packet).value.id, Parse(packet).value.seqNum, now)
                else old(replay.devices)
      ensures limiter.buckets ==
                if packet == "" then old(limiter.buckets)
                else RateLimiter.After(old(limiter.buckets), Truncated(ip, RateLimiter.IP_LENGTH), now)
    {
      hide Parse, RateLimiter.Passes, RateLimiter.After, ReplayTable.Accepts, HexDecode, Hmac.Hmac;
      if packet == "" { return None; }
      var pass := limiter.Pass(ip, now);
      if !pass { return None; }
      var fields := ParsePacket(packet);
      if fields.None? { return None; }
      var f := fields.value;
      ParsedId(packet);
      var genuine := VerifyHmac(f.id, f.auth, f.seqNum);
      if !genuine { return None; }
      var isNew := replay.CheckAndUpdate(f.id, f.seqNum, now);
      if !isNew { return None; }
      accepted := fields;
    }

    ghost predicate Genuine(f: Fields)
      requires |keySlots| == 2 && activeSlot < 2
      reads this
    {
      keySlots[activeSlot].valid && Authentic(keySlots[activeSlot].key, f)
    }
  }

  /** The number field, digit by digit. */
  method ParseDigits(s: string) returns (n: Uint32)
    ensures n == ParseNumber(s)
  {
    n := 0;
    var i := 0;
    while i < |s| && IsDigit(s[i])
      invariant i <= DigitCount(s) && n == DigitsValue(s[..i])
    {
      PrefixDigits(s, i);
      n := (n * 10 + (s[i] as int - '0' as int)) % MOD32;
      i := i + 1;
    }
  }

  /** The parsing steps of the listener, in its order. */
  method ParsePacket(packet: string) returns (r: Option<Fields>)
    ensures r == Parse(packet)
  {
    hide GetString, GetRawValue;
    var parser := new JsonParser(packet);
    var event := parser.GetStringValue("event", 32);
    if event != Some("beacon") { return None; }
    var id := parser.GetStringValue("device_id", 32);
    if id.None? || !ValidId(id.value) { return None; }
    var cap := parser.GetRaw("cap", 64);
    if cap.None? || !ValidCap(cap.value) { return None; }
    var auth := parser.GetStringValue("auth", 65);
    if auth.None? { return None; }
    var number := parser.GetStringValue("seq", 12);
    if number.None? { return None; }
    var n := ParseDigits(number.value);
    r := Some(Fields(id.value, cap.value, n, auth.value));
  }

  /** A 64-digit digest, if every digit is one. */
  method DecodeHex(s: string) returns (r: Option<Bytes>)
    ensures r == HexDecode(s, DIGEST)
  {
    hide Nibble, MakeByte;
    var received := [];
    for i := 0 to DIGEST
      invariant HexDecode(s, i) == Some(received)
    {
      var hi, lo := Nibble(CharAt(s, 2 * i)), Nibble(CharAt(s, 2 * i + 1));
      if hi < 0 || lo < 0 {
        HexDecodeFails(s, i + 1, DIGEST);
        return None;
      }
      received := received + [MakeByte(hi, lo)];
    }
    r := Some(received);
  }

  method EncodeHex(d: Bytes) returns (s: string)
    ensures s == HexEncode(d)
  {
    hide High, Low;
    s := "";
    for i := 0 to |d|
      invariant s == HexEncode(d[..i])
    {
      assert d[..i + 1][..i] == d[..i];
      s := s + [HEX[High(d[i])], HEX[Low(d[i])]];
    }
    assert d[..|d|] == d;
  }

  lemma ParsedId(packet: string)
    requires Parse(packet).Some?
    ensures Truncated(Parse(packet).value.id, ReplayTable.ID_LENGTH) == Parse(packet).value.id
  {
  }

  lemma {:induction false} HexDecodeFails(s: string, i: nat, n: nat)
    requires i <= n && HexDecode(s, i).None?
    ensures HexDecode(s, n).None?
  {
    if i < n { HexDecodeFails(s, i, n - 1); }
  }

  lemma PrefixDigits(s: string, i: nat)
    requires i < |s| && IsDigit(s[i]) && i <= DigitCount(s)
    ensures i + 1 <= DigitCount(s) && s[..i + 1][..i] == s[..i] && AllDigits(s[..i]) && AllDigits(s[..i + 1])
  {
    hide DigitCount;
    var d := DigitCount(s);
    assert forall k | 0 <= k < d :: s[..d][k] == s[k];
    assert i < d;
  }
}
