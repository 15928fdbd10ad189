/** The text of a beacon and what a receiver reads out of it
    (net/distributed_bus.hpp:143-209, 240, 292-317, 354-371). */
module BeaconText {
  import opened Arithmetic
  import opened JsonParser
  import opened JsonPlain
  import opened KeyedTable
  import opened Sha256Spec

  // ----- Hexadecimal

  const HEX: string := "0123456789abcdef"

  function High(b: Byte): (n: nat)
    ensures n < 16
  {
    ((b >> 4) & 0x0f) as nat
  }

  function Low(b: Byte): (n: nat)
    ensures n < 16
  {
    (b & 0x0f) as nat
  }

  function HexEncode(d: Bytes): (s: string)
    ensures |s| == 2 * |d|
  {
    if d == [] then "" else HexEncode(d[..|d| - 1]) + [HEX[High(d[|d| - 1])], HEX[Low(d[|d| - 1])]]
  }

  /** hex_nibble, -1 for no digit. */
  function Nibble(c: char): (n: int)
    ensures -1 <= n < 16
  {
    if '0' <= c <= '9' then c as int - '0' as int
    else if 'a' <= c <= 'f' then c as int - 'a' as int + 10
    else if 'A' <= c <= 'F' then c as int - 'A' as int + 10
    else -1
  }

  /** A character of a zero-filled buffer. */
  function CharAt(s: string, i: nat): char {
    if i < |s| then s[i] else '\0'
  }

  function MakeByte(hi: nat, lo: nat): Byte
    requires hi < 16 && lo < 16
  {
    (hi as Byte << 4) | (lo as Byte)
  }

  /** The first n bytes that a hexadecimal text stands for, if all its digits are digits. */
  function HexDecode(s: string, n: nat): (r: Option<Bytes>)
    ensures r.Some? ==> |r.value| == n
  {
    if n == 0 then Some([])
    else
      var front := HexDecode(s, n - 1);
      var hi, lo := Nibble(CharAt(s, 2 * n - 2)), Nibble(CharAt(s, 2 * n - 1));
      if front.None? || hi < 0 || lo < 0 then None else Some(front.value + [MakeByte(hi, lo)])
  }

  lemma NibbleDigit(n: nat)
    requires n < 16
    ensures Nibble(HEX[n]) == n
  {
  }

  lemma NibblesMake(b: Byte)
    ensures (((b >> 4) & 0x0f) << 4) | (b & 0x0f) == b
  {
  }

  lemma ByteOfNat(x: Byte)
    ensures (x as nat) as Byte == x
  {
  }

  lemma MakeByteParts(b: Byte)
    ensures MakeByte(High(b), Low(b)) == b
  {
    NibblesMake(b);
    ByteOfNat((b >> 4) & 0x0f);
    ByteOfNat(b & 0x0f);
  }

  /** The last byte is decoded from the last two digits. */
  lemma HexLast(front: Bytes, last: Byte, s: string)
    requires HexDecode(s, |front|) == Some(front)
    requires Nibble(CharAt(s, 2 * |front|)) == High(last) && Nibble(CharAt(s, 2 * |front| + 1)) == Low(last)
    ensures HexDecode(s, |front| + 1) == Some(front + [last])
  {
    hide High, Low, MakeByte, Nibble, CharAt;
    MakeByteParts(last);
    var n := |front| + 1;
    assert 2 * n - 2 == 2 * |front| && 2 * n - 1 == 2 * |front| + 1;
  }

  /** Decoding what was encoded, whatever follows it. */
  lemma {:induction false} HexRoundTrip(d: Bytes, more: string)
    ensures HexDecode(HexEncode(d) + more, |d|) == Some(d)
  {
    hide High, Low, HexDecode, Nibble;
    if d == [] {
      HexNothing(HexEncode(d) + more);
    } else {
      var front, last := d[..|d| - 1], d[|d| - 1];
      var digits := [HEX[High(last)], HEX[Low(last)]];
      HexRoundTrip(front, digits + more);
      assert HexEncode(front) + (digits + more) == HexEncode(d) + more;
      var s, n := HexEncode(d) + more, |front|;
      assert s[2 * n] == HEX[High(last)] && s[2 * n + 1] == HEX[Low(last)];
      NibbleDigit(High(last));
      NibbleDigit(Low(last));
      HexLast(front, last, s);
      assert d == front + [last];
    }
  }

  lemma HexNothing(s: string)
    ensures HexDecode(s, 0) == Some([])
  {
  }

  // ----- Decimal

  function Decimal(n: nat): (s: string)
    ensures s != ""
  {
    if n < 10 then [HEX[n]] else Decimal(n / 10) + [HEX[n % 10]]
  }

  predicate IsDigit(c: char) { '0' <= c <= '9' }

  ghost predicate AllDigits(s: string) { forall i | 0 <= i < |s| :: IsDigit(s[i]) }

  /** The number that digits stand for, in 32-bit arithmetic. */
  function DigitsValue(s: string): (n: Uint32)
    requires AllDigits(s)
  {
    if s == "" then 0
    else (DigitsValue(s[..|s| - 1]) * 10 + (s[|s| - 1] as int - '0' as int)) % MOD32
  }

  /** The digits at the front of a string. */
  function DigitCount(s: string): (n: nat)
    ensures n <= |s| && AllDigits(s[..n]) && (n < |s| ==> !IsDigit(s[n]))
  {
    if s == "" || !IsDigit(s[0]) then 0
    else
      var n := DigitCount(s[1..]);
      assert s[..1 + n] == [s[0]] + s[1..][..n];
      1 + n
  }

  function ParseNumber(s: string): Uint32 { DigitsValue(s[..DigitCount(s)]) }

  lemma DigitChar(n: nat)
    requires n < 10
    ensures IsDigit(HEX[n]) && HEX[n] as int - '0' as int == n
  {
  }

  lemma AppendDigit(s: string, d: nat)
    requires AllDigits(s) && d < 10
    ensures AllDigits(s + [HEX[d]]) && DigitsValue(s + [HEX[d]]) == (DigitsValue(s) * 10 + d) % MOD32
  {
    DigitChar(d);
    assert (s + [HEX[d]])[..|s + [HEX[d]]| - 1] == s;
  }

  /** What %lu prints, the receiver's digit loop reads back. */
  lemma {:induction false} DecimalRoundTrip(n: Uint32)
    ensures AllDigits(Decimal(n)) && DigitsValue(Decimal(n)) == n
    decreases n
  {
    hide DigitsValue, AllDigits;
    if n < 10 {
      EmptyDigits();
      AppendDigit("", n);
      assert "" + [HEX[n]] == Decimal(n);
    } else {
      DecimalRoundTrip(n / 10);
      AppendDigit(Decimal(n / 10), n % 10);
    }
  }

  lemma EmptyDigits()
    ensures AllDigits("") && DigitsValue("") == 0
  {
  }

  lemma DigitsAll(s: string)
    requires AllDigits(s)
    ensures DigitCount(s) == |s| && s[..DigitCount(s)] == s
  {
  }

  /** A number below ten to the k has at most k digits. */
  lemma {:induction false} DecimalLength(n: nat, k: nat, bound: nat)
    requires k > 0 && bound == Power10(k) && n < bound
    ensures |Decimal(n)| <= k
    decreases k
  {
    if n >= 10 {
      DecimalLength(n / 10, k - 1, Power10(k - 1));
    }
  }

  function Power10(k: nat): nat { if k == 0 then 1 else 10 * Power10(k - 1) }

  lemma DecimalFits(n: Uint32)
    ensures |Decimal(n)| <= 10
  {
    DecimalLength(n, 10, 10_000_000_000);
  }

  // ----- What digits stand for

  /** The number that digits of a base stand for, the most significant first. */
  function NumberIn(base: nat, s: string): int
  {
    if s == "" then 0 else base * NumberIn(base, s[..|s| - 1]) + Nibble(s[|s| - 1])
  }

  lemma NumberAppend(base: nat, s: string, d: nat)
    requires d < 16
    ensures NumberIn(base, s + [HEX[d]]) == base * NumberIn(base, s) + d
  {
    hide Nibble;
    NibbleDigit(d);
    assert (s + [HEX[d]])[..|s|] == s;
  }

  lemma ByteValue(b: Byte)
    ensures b as nat == 16 * High(b) + Low(b)
  {
  }

  /** A text of hexadecimal digits, read in base 16, is the number its bytes stand for. */
  lemma {:induction false} HexValue(d: Bytes)
    ensures NumberIn(16, HexEncode(d)) == BigEndian(d)
  {
    hide High, Low, NumberIn;
    if d == [] {
      NoDigits(16);
    } else {
      var front, last := d[..|d| - 1], d[|d| - 1];
      HexValue(front);
      var s, digits := HexEncode(front), [HEX[High(last)], HEX[Low(last)]];
      assert s + digits == s + [HEX[High(last)]] + [HEX[Low(last)]];
      NumberAppend(16, s, High(last));
      NumberAppend(16, s + [HEX[High(last)]], Low(last));
      ByteValue(last);
    }
  }

  lemma NoDigits(base: nat)
    ensures NumberIn(base, "") == 0
  {
  }

  /** What is printed in decimal, read in base 10, is the number. */
  lemma {:induction false} DecimalIs(n: nat)
    ensures NumberIn(10, Decimal(n)) == n
  {
    hide NumberIn;
    NoDigits(10);
    if n < 10 {
      NumberAppend(10, "", n);
      assert "" + [HEX[n]] == [HEX[n]];
    } else {
      DecimalIs(n / 10);
      NumberAppend(10, Decimal(n / 10), n % 10);
    }
  }

  /** The digit loop reads that number, modulo 2^32. */
  lemma {:induction false} DigitsNumber(s: string)
    requires AllDigits(s)
    ensures NumberIn(10, s) >= 0 && DigitsValue(s) == NumberIn(10, s) % MOD32
  {
    if s != "" {
      var front := s[..|s| - 1];
      DigitsNumber(front);
      assert IsDigit(s[|s| - 1]);
      ModStep(NumberIn(10, front), 10, s[|s| - 1] as int - '0' as int, MOD32);
    }
  }

  // ----- Device ids and capabilities

  predicate IdChar(c: char) { 'a' <= c <= 'z' || 'A' <= c <= 'Z' || '0' <= c <= '9' || c == '_' || c == '-' }

  predicate CapChar(c: char) { 'a' <= c <= 'z' || c == '_' || c == ',' || c == '[' || c == ']' || c == '"' }

  predicate ValidId(id: string) { 0 < |id| < 32 && forall i | 0 <= i < |id| :: IdChar(id[i]) }

  predicate ValidCap(cap: string) { 0 < |cap| < 64 && forall i | 0 <= i < |cap| :: CapChar(cap[i]) }

  /** The last n hexadecimal digits of a number. */
  function HexDigits(uid: nat, n: nat): (s: string)
    ensures |s| == n
  {
    if n == 0 then "" else HexDigits(uid / 16, n - 1) + [HEX[uid % 16]]
  }

  /** The id a device gives itself. */
  function DeviceId(uid: Uint32): string { "device_" + HexDigits(uid, 8) }

  function Power16(n: nat): (r: nat)
    ensures r > 0
  {
    if n == 0 then 1 else 16 * Power16(n - 1)
  }

  lemma {:induction false} HexDigitsNumber(uid: nat, n: nat)
    requires uid < Power16(n)
    ensures NumberIn(16, HexDigits(uid, n)) == uid
  {
    hide NumberIn;
    if n == 0 {
      NoDigits(16);
    } else {
      HexDigitsNumber(uid / 16, n - 1);
      NumberAppend(16, HexDigits(uid / 16, n - 1), uid % 16);
    }
  }

  /** A device's id tells the number it was made from. */
  lemma DeviceIdReads(uid: Uint32)
    ensures |DeviceId(uid)| == 15 && NumberIn(16, DeviceId(uid)[7..]) == uid
  {
    assert Power16(4) == 0x1_0000 && Power16(8) == MOD32;
    assert DeviceId(uid)[7..] == HexDigits(uid, 8);
    HexDigitsNumber(uid, 8);
  }

  lemma {:induction false} HexDigitsValid(uid: nat, n: nat)
    ensures forall i | 0 <= i < n :: IdChar(HexDigits(uid, n)[i])
  {
    if n > 0 { HexDigitsValid(uid / 16, n - 1); }
  }

  lemma DeviceIdValid(uid: Uint32)
    ensures ValidId(DeviceId(uid)) && |DeviceId(uid)| == 15
  {
    HexDigitsValid(uid, 8);
  }

  // ----- The text

  const CAP: string := "[\"display\",\"touch\"]"

  const PAYLOAD: nat := 255

  /** The text that broadcast_beacon prints. */
  function Print(id: string, number: string, auth: string): string {
    "{\"event\":\"beacon\",\"device_id\":\"" + id
    + "\",\"cap\":[\"display\",\"touch\"],\"seq\":\"" + number + "\",\"auth\":\"" + auth + "\"}"
  }

  function Text(id: string, n: Uint32, digest: Bytes): string {
    Print(id, Decimal(n), HexEncode(digest))
  }

  function Chunks(id: string, number: string, auth: string): (cs: seq<string>)
    ensures |cs| == 23
  {
    ["{", "event", ":", "beacon", ",", "device_id", ":", id, ",", "cap", ":[", "display", ",", "touch", "],",
     "seq", ":", number, ",", "auth", ":", auth, "}"]
  }

  datatype Fields = Fields(id: string, cap: string, seqNum: Uint32, auth: string)

  /** What the listener reads out of a packet, if it reads as a beacon. */
  function Parse(json: string): Option<Fields> {
    var event, id := GetString(json, "event", 32), GetString(json, "device_id", 32);
    var cap := GetRawValue(json, "cap", 64);
    var auth, number := GetString(json, "auth", 65), GetString(json, "seq", 12);
    if event == Some("beacon") && id.Some? && ValidId(id.value) && cap.Some? && ValidCap(cap.value)
       && auth.Some? && number.Some?
    then Some(Fields(id.value, cap.value, ParseNumber(number.value), auth.value))
    else None
  }

  // ----- The text as chunks

  lemma {:induction false} JoinAppend(a: seq<string>, b: seq<string>)
    requires a != [] && b != []
    ensures Join(a + b) == Join(a) + QUOTE + Join(b)
  {
    if |a| == 1 {
      assert (a + b)[1..] == b;
    } else {
      assert (a + b)[1..] == a[1..] + b;
      JoinAppend(a[1..], b);
    }
  }

  const HEAD: seq<string> := ["{", "event", ":", "beacon", ",", "device_id", ":"]
  const MIDDLE: seq<string> := [",", "cap", ":[", "display", ",", "touch", "],", "seq", ":"]
  const LAST: seq<string> := [",", "auth", ":"]

  /** One chunk more in front. */
  lemma Prepend(c: string, cs: seq<string>, all: seq<string>, s: string, t: string)
    requires cs != [] && all == [c] + cs && Join(cs) == s && t == c + QUOTE + s
    ensures Join(all) == t
  {
    assert all[1..] == cs;
  }

  lemma EventJoin()
    ensures Join(["{", "event", ":", "beacon"]) == "{\"event\":\"beacon"
  {
    hide Join;
    JoinOne("beacon");
    Prepend(":", ["beacon"], [":", "beacon"], "beacon", ":\"beacon");
    Prepend("event", [":", "beacon"], ["event", ":", "beacon"], ":\"beacon", "event\":\"beacon");
    Prepend("{", ["event", ":", "beacon"], ["{", "event", ":", "beacon"], "event\":\"beacon", "{\"event\":\"beacon");
  }

  lemma IdJoin()
    ensures Join([",", "device_id", ":"]) == ",\"device_id\":"
  {
    hide Join;
    JoinOne(":");
    Prepend("device_id", [":"], ["device_id", ":"], ":", "device_id\":");
    Prepend(",", ["device_id", ":"], [",", "device_id", ":"], "device_id\":", ",\"device_id\":");
  }

  lemma HeadJoin()
    ensures Join(HEAD) == "{\"event\":\"beacon\",\"device_id\":"
  {
    hide Join;
    EventJoin();
    IdJoin();
    JoinAppend(["{", "event", ":", "beacon"], [",", "device_id", ":"]);
    assert HEAD == ["{", "event", ":", "beacon"] + [",", "device_id", ":"];
  }

  lemma CapJoin()
    ensures Join([",", "cap", ":[", "display"]) == ",\"cap\":[\"display"
  {
    hide Join;
    JoinOne("display");
    Prepend(":[", ["display"], [":[", "display"], "display", ":[\"display");
    Prepend("cap", [":[", "display"], ["cap", ":[", "display"], ":[\"display", "cap\":[\"display");
    Prepend(",", ["cap", ":[", "display"], [",", "cap", ":[", "display"], "cap\":[\"display", ",\"cap\":[\"display");
  }

  lemma TouchJoin()
    ensures Join([",", "touch", "],", "seq", ":"]) == ",\"touch\"],\"seq\":"
  {
    hide Join;
    JoinOne(":");
    Prepend("seq", [":"], ["seq", ":"], ":", "seq\":");
    Prepend("],", ["seq", ":"], ["],", "seq", ":"], "seq\":", "],\"seq\":");
    Prepend("touch", ["],", "seq", ":"], ["touch", "],", "seq", ":"], "],\"seq\":", "touch\"],\"seq\":");
    Prepend(",", ["touch", "],", "seq", ":"], [",", "touch", "],", "seq", ":"], "touch\"],\"seq\":",
            ",\"touch\"],\"seq\":");
  }

  lemma MiddleJoin()
    ensures Join(MIDDLE) == ",\"cap\":[\"display\",\"touch\"],\"seq\":"
  {
    hide Join;
    CapJoin();
    TouchJoin();
    JoinAppend([",", "cap", ":[", "display"], [",", "touch", "],", "seq", ":"]);
    assert MIDDLE == [",", "cap", ":[", "display"] + [",", "touch", "],", "seq", ":"];
  }

  lemma AuthJoin()
    ensures Join(LAST) == ",\"auth\":"
  {
    assert LAST[1..][1..] == [":"];
  }

  /** The chunks from the id on, and what they join to. */
  lemma TailJoin(id: string, number: string, auth: string)
    ensures Join([id] + (MIDDLE + ([number] + (LAST + ([auth] + ["}"])))))
         == id + QUOTE + (Join(MIDDLE) + QUOTE + (number + QUOTE + (Join(LAST) + QUOTE + (auth + QUOTE + "}"))))
  {
    hide Join;
    JoinOne(id);
    JoinOne(number);
    JoinOne(auth);
    JoinOne("}");
    JoinAppend([auth], ["}"]);
    JoinAppend(LAST, [auth] + ["}"]);
    JoinAppend([number], LAST + ([auth] + ["}"]));
    JoinAppend(MIDDLE, [number] + (LAST + ([auth] + ["}"])));
    JoinAppend([id], MIDDLE + ([number] + (LAST + ([auth] + ["}"]))));
  }

  lemma Reassociate(h: string, id: string, m: string, number: string, a: string, auth: string)
    ensures h + QUOTE + (id + QUOTE + (m + QUOTE + (number + QUOTE + (a + QUOTE + (auth + QUOTE + "}")))))
         == (h + QUOTE) + id + (QUOTE + m + QUOTE) + number + (QUOTE + a + QUOTE) + auth + (QUOTE + "}")
  {
  }

  lemma ChunksAre(id: string, number: string, auth: string)
    ensures Chunks(id, number, auth) == HEAD + ([id] + (MIDDLE + ([number] + (LAST + ([auth] + ["}"])))))
  {
  }

  lemma TextJoin(id: string, n: Uint32, digest: Bytes)
    ensures Text(id, n, digest) == Join(Chunks(id, Decimal(n), HexEncode(digest)))
  {
    hide Join, Decimal, HexEncode, Chunks;
    var number, auth := Decimal(n), HexEncode(digest);
    TailJoin(id, number, auth);
    ChunksAre(id, number, auth);
    JoinAppend(HEAD, [id] + (MIDDLE + ([number] + (LAST + ([auth] + ["}"])))));
    Reassociate(Join(HEAD), id, Join(MIDDLE), number, Join(LAST), auth);
    Literals();
  }

  lemma Literals()
    ensures Join(HEAD) + QUOTE == "{\"event\":\"beacon\",\"device_id\":\""
    ensures QUOTE + Join(MIDDLE) + QUOTE == "\",\"cap\":[\"display\",\"touch\"],\"seq\":\""
    ensures QUOTE + Join(LAST) + QUOTE == "\",\"auth\":\"" && QUOTE + "}" == "\"}"
  {
    hide Join;
    HeadJoin();
    MiddleJoin();
    AuthJoin();
  }

  lemma JoinOne(c: string)
    ensures Join([c]) == c
  {
  }
}
