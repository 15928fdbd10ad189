/** Strings with escape sequences, and what the extractor makes of them (utils/json_parser.hpp:11-22, 46-99). */
module JsonEscapes {
  import opened JsonParser
  import opened JsonPlain

  /** A string as a JSON writer prints it between quotes. */
  function Escape(s: string): string
  {
    if s == "" then "" else EscapeChar(s[0]) + Escape(s[1..])
  }

  function EscapeChar(c: char): (r: string)
    ensures 1 <= |r| <= 2 && r[|r| - 1] == c
  {
    if c == '"' || c == '\\' then ['\\', c] else [c]
  }

  /** Unescaping what was escaped. */
  lemma {:induction false} EscapeRoundTrip(s: string)
    ensures Unescape(Escape(s)) == s
  {
    if s != "" {
      EscapeRoundTrip(s[1..]);
      var e, t := EscapeChar(s[0]), Escape(s[1..]);
      assert (e + t)[|e|..] == t;
      assert s == [s[0]] + s[1..];
    }
  }

  /** The first quote outside escape sequences is the one that ends the string. */
  lemma {:induction false} EndOfString(s: string, rest: string)
    ensures FindChar(Escape(s) + QUOTE + rest, '"') == Some(QUOTE + rest)
  {
    if s == "" {
      assert Escape(s) + QUOTE + rest == QUOTE + rest;
    } else {
      EndOfString(s[1..], rest);
      var e, t := EscapeChar(s[0]), Escape(s[1..]) + QUOTE + rest;
      assert Escape(s) + QUOTE + rest == e + t;
      assert (e + t)[|e|..] == t;
    }
  }

  lemma QuotedEscape(s: string, rest: string)
    ensures Quoted(QUOTE + Escape(s) + QUOTE + rest) == Some(Escape(s))
  {
    hide FindChar, Escape;
    var e := Escape(s);
    var text := QUOTE + e + QUOTE + rest;
    QuoteFirst(text);
    assert text[1..] == e + QUOTE + rest;
    EndOfString(s, rest);
    assert text[1..|text| - |QUOTE + rest|] == e;
  }

  lemma QuoteFirst(text: string)
    requires text != "" && text[0] == '"'
    ensures FindChar(text, '"') == Some(text)
  {
  }

  /** The first colon after a key without one is the one behind it. */
  lemma {:induction false} ColonAfter(s: string, rest: string)
    requires ':' !in s && '\\' !in s
    ensures FindChar(s + ":" + rest, ':') == Some(":" + rest)
  {
    if s == "" {
      assert s + ":" + rest == ":" + rest;
    } else {
      assert s[0] in s && ':' !in s[1..] && '\\' !in s[1..];
      ColonAfter(s[1..], rest);
      assert (s + ":" + rest)[1..] == s[1..] + ":" + rest;
    }
  }

  /** A string field reads back as it was before it was escaped, whatever it is, if it fits the buffer. */
  lemma FieldRoundTrip(key: string, s: string, rest: string, maxLen: nat)
    requires Plain(key) && ':' !in key && |key| <= KEY_LENGTH && |Escape(s)| < maxLen
    ensures GetString(QUOTE + key + QUOTE + ":" + QUOTE + Escape(s) + QUOTE + rest, key, maxLen) == Some(s)
  {
    hide FindChar, FindSub, Escape, Unescape, Quoted;
    var name, value := QUOTE + key + QUOTE, QUOTE + Escape(s) + QUOTE + rest;
    var json := QUOTE + key + QUOTE + ":" + QUOTE + Escape(s) + QUOTE + rest;
    assert json == name + ":" + value;
    FoundFirst(json, name);
    assert ':' !in name && '\\' !in name;
    ColonAfter(name, value);
    QuotedBehindColon(value);
    QuotedEscape(s, rest);
    EscapeRoundTrip(s);
  }

  lemma FoundFirst(s: string, sub: string)
    requires sub <= s && sub != ""
    ensures FindSub(s, sub) == Some(s)
  {
  }

  lemma QuotedBehindColon(value: string)
    requires value != "" && value[0] == '"'
    ensures Quoted(":" + value) == Quoted(value)
  {
    assert (":" + value)[1..] == value;
  }
}
