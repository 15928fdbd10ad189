/** Every beacon reads back as what was sent (net/distributed_bus.hpp:143-209, 292-317, 354-371). */
module BeaconRoundTrip {
  import opened CString
  import opened JsonParser
  import opened JsonPlain
  import opened KeyedTable
  import opened Sha256Spec
  import opened BeaconText

  /** Text that can stand between quotes and holds no colon. */
  predicate Bare(s: string) { Plain(s) && ':' !in s }

  lemma IdBare(id: string)
    requires ValidId(id)
    ensures Bare(id)
  {
  }

  lemma DigitsBare(s: string)
    requires AllDigits(s)
    ensures Bare(s)
  {
    forall c | c in s ensures IsDigit(c) {
      var i :| 0 <= i < |s| && s[i] == c;
      assert IsDigit(s[i]);
    }
  }

  lemma HexCharBare(n: nat)
    requires n < 16
    ensures HEX[n] != '"' && HEX[n] != '\\' && HEX[n] != ':'
  {
  }

  lemma {:induction false} HexBare(d: Bytes)
    ensures Bare(HexEncode(d))
  {
    hide High, Low;
    if d != [] {
      HexBare(d[..|d| - 1]);
      HexCharBare(High(d[|d| - 1]));
      HexCharBare(Low(d[|d| - 1]));
    }
  }

  lemma ChunksPlainly(id: string, number: string, auth: string)
    requires Bare(id) && Bare(number) && Bare(auth)
    ensures AllPlain(Chunks(id, number, auth))
  {
    hide Plain;
    LiteralsPlain();
    assert Plain(id) && Plain(number) && Plain(auth);
  }

  lemma LiteralsPlain()
    ensures Plain("{") && Plain("event") && Plain(":") && Plain("beacon") && Plain(",") && Plain("device_id")
    ensures Plain("cap") && Plain(":[") && Plain("display") && Plain("touch") && Plain("],") && Plain("seq")
    ensures Plain("auth") && Plain("}")
  {
  }

  lemma EventValue(id: string, number: string, auth: string)
    ensures PlainValue(Chunks(id, number, auth), "event") == Some("beacon")
  {
    hide PlainValue;
    PlainValueAt(Chunks(id, number, auth), "event", 1, 2);
  }

  lemma IdValue(id: string, number: string, auth: string)
    ensures PlainValue(Chunks(id, number, auth), "device_id") == Some(id)
  {
    hide PlainValue;
    PlainValueAt(Chunks(id, number, auth), "device_id", 5, 6);
  }

  /** The number is read back, unless the id is the key itself: then it is the first capability. */
  lemma NumberValue(id: string, number: string, auth: string)
    requires Bare(id)
    ensures PlainValue(Chunks(id, number, auth), "seq") == Some(if id == "seq" then "display" else number)
  {
    hide PlainValue;
    if id == "seq" {
      PlainValueAt(Chunks(id, number, auth), "seq", 7, 10);
    } else {
      PlainValueAt(Chunks(id, number, auth), "seq", 15, 16);
    }
  }

  lemma AuthValue(id: string, number: string, auth: string)
    requires Bare(id) && AllDigits(number)
    ensures PlainValue(Chunks(id, number, auth), "auth") == Some(if id == "auth" then "display" else auth)
  {
    hide PlainValue;
    if id == "auth" {
      PlainValueAt(Chunks(id, number, auth), "auth", 7, 10);
    } else {
      assert number != "" ==> IsDigit(number[0]);
      PlainValueAt(Chunks(id, number, auth), "auth", 19, 20);
    }
  }

  /** Where the capability key is: an id of that name is found first, which changes nothing. */
  function CapKey(id: string): nat { if id == "cap" then 7 else 9 }

  lemma CapColon(id: string, number: string, auth: string)
    requires Bare(id) && Bare(number) && Bare(auth)
    ensures FindColon(Join(Chunks(id, number, auth)), "cap") == Some(Join(Chunks(id, number, auth)[10..]))
  {
    hide Join, FindChar, FindSub, KeyChunks;
    var cs, i := Chunks(id, number, auth), CapKey(id);
    ChunksPlainly(id, number, auth);
    KeyAt(cs, "cap", i);
    FindKey(cs, "cap");
    SkipPlainQuote(Join(cs[i..]));
    assert cs[i..][10 - i..] == cs[10..];
    FindColonChunk(cs[i..], 10 - i);
  }

  /** The capability array and what follows it. */
  lemma CapText(id: string, number: string, auth: string) returns (rest: string)
    ensures Join(Chunks(id, number, auth)[10..]) == ":" + CAP + rest
  {
    hide Join;
    var cs := Chunks(id, number, auth);
    var front, back := [":[", "display", ",", "touch"], cs[14..];
    JoinAppend(front, back);
    assert cs[10..] == front + back;
    CapFront();
    rest := JoinHead(cs[14..]);
    assert CAP == "[\"display\",\"touch" + QUOTE + "]";
  }

  lemma CapFront()
    ensures Join([":[", "display", ",", "touch"]) == ":[\"display\",\"touch"
  {
    assert [":[", "display", ",", "touch"][1..][1..][1..] == ["touch"];
  }

  lemma JoinHead(cs: seq<string>) returns (rest: string)
    requires cs != [] && cs[0] == "],"
    ensures Join(cs) == "]" + rest
  {
    rest := Join(cs)[1..];
    assert Join(cs)[0] == ']';
  }

  lemma CapRaw(rest: string)
    ensures SkipBlanks(CAP + rest) == CAP + rest && RawValue(CAP + rest) == Some(CAP)
  {
    var v, inner := CAP + rest, "\"display\",\"touch\"";
    assert v[1..] == inner + ("]" + rest);
    SkipPlain(inner, "]" + rest, ']');
    assert v[..|CAP|] == CAP;
  }

  lemma CapValue(id: string, number: string, auth: string)
    requires Bare(id) && Bare(number) && Bare(auth)
    ensures GetRawValue(Join(Chunks(id, number, auth)), "cap", 64) == Some(CAP) && ValidCap(CAP)
  {
    hide Join, FindColon, SkipBlanks, RawValue;
    CapColon(id, number, auth);
    var rest := CapText(id, number, auth);
    assert (":" + CAP + rest)[1..] == CAP + rest;
    CapRaw(rest);
  }

  // ----- The round trip

  /** The string fields of any beacon. */
  lemma ReadFields(id: string, number: string, auth: string)
    requires ValidId(id) && AllDigits(number) && |number| <= 11 && Bare(auth) && |auth| == 64
    ensures var json := Join(Chunks(id, number, auth));
            && GetString(json, "event", 32) == Some("beacon") && GetString(json, "device_id", 32) == Some(id)
            && GetString(json, "seq", 12) == Some(if id == "seq" then "display" else number)
            && GetString(json, "auth", 65) == Some(if id == "auth" then "display" else auth)
  {
    var cs := Chunks(id, number, auth);
    IdBare(id);
    DigitsBare(number);
    ChunksPlainly(id, number, auth);
    hide Join, GetString, PlainValue, Chunks, AllDigits, Bare, AllPlain;
    GetStringPlain(cs, "event", 32);
    GetStringPlain(cs, "device_id", 32);
    GetStringPlain(cs, "auth", 65);
    GetStringPlain(cs, "seq", 12);
    EventValue(id, number, auth);
    IdValue(id, number, auth);
    NumberValue(id, number, auth);
    AuthValue(id, number, auth);
  }

  /** What a receiver reads out of any beacon, for any device id that passes validation. */
  lemma ParsedText(id: string, n: Uint32, digest: Bytes)
    requires ValidId(id) && |digest| == DIGEST
    ensures Parse(Text(id, n, digest)) ==
              Some(Fields(id, CAP, if id == "seq" then 0 else n, if id == "auth" then "display" else HexEncode(digest)))
  {
    hide Join, HexEncode, Decimal, GetString, GetRawValue, Chunks, ValidId, ValidCap, DigitsValue, AllDigits;
    hide DigitCount, Bare, Text;
    var number, auth := Decimal(n), HexEncode(digest);
    IdBare(id);
    DecimalRoundTrip(n);
    DecimalFits(n);
    DigitsBare(number);
    HexBare(digest);
    TextJoin(id, n, digest);
    ReadFields(id, number, auth);
    CapValue(id, number, auth);
    DigitsAll(number);
    NotANumber();
  }

  lemma NotANumber()
    ensures ParseNumber("display") == 0
  {
  }

  /** A beacon reads back as it was sent exactly when the id is not one of the keys that follow it in the text. */
  lemma BeaconRoundTrip(id: string, n: Uint32, digest: Bytes)
    requires ValidId(id) && |digest| == DIGEST
    ensures (Parse(Text(id, n, digest)) == Some(Fields(id, CAP, n, HexEncode(digest)))) <==>
              (id != "seq" || n == 0) && id != "auth"
  {
    hide Parse, Text;
    ParsedText(id, n, digest);
    assert |HexEncode(digest)| == 64;
  }

  /** The payload buffer holds every beacon whole. */
  lemma PayloadFits(id: string, n: Uint32, digest: Bytes)
    requires ValidId(id) && |digest| == DIGEST
    ensures Truncated(Text(id, n, digest), PAYLOAD) == Text(id, n, digest)
  {
    DecimalFits(n);
  }
}
