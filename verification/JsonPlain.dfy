/** What the JSON extractor finds in a text without escape sequences. Such a text is the chunks between its quotes,
    joined by quotes; keys and quoted values are whole chunks. */
module JsonPlain {
  import opened CString
  import opened JsonParser

  const QUOTE: string := "\""

  /** Neither quotes nor backslashes. */
  predicate Plain(s: string) { '"' !in s && '\\' !in s }

  ghost predicate AllPlain(cs: seq<string>) { forall i | 0 <= i < |cs| :: Plain(cs[i]) }

  function Join(cs: seq<string>): string
    requires cs != []
  {
    if |cs| == 1 then cs[0] else cs[0] + QUOTE + Join(cs[1..])
  }

  /** The chunks of a text. */
  function Split(s: string): (cs: seq<string>)
    ensures cs != []
  {
    if s == "" then [""]
    else
      var cs := Split(s[1..]);
      if s[0] == '"' then [""] + cs else [[s[0]] + cs[0]] + cs[1..]
  }

  /** Every text without a backslash is its chunks joined, and they are plain. */
  lemma {:induction false} SplitJoin(s: string)
    requires '\\' !in s
    ensures Join(Split(s)) == s && AllPlain(Split(s))
  {
    if s != "" {
      var cs := Split(s[1..]);
      SplitJoin(s[1..]);
      assert s[0] in s && s == [s[0]] + s[1..];
      if s[0] == '"' {
        assert ([""] + cs)[1..] == cs;
      } else {
        assert Split(s)[1..] == cs[1..];
        assert |cs| > 1 ==> [s[0]] + (cs[0] + QUOTE + Join(cs[1..])) == [s[0]] + cs[0] + QUOTE + Join(cs[1..]);
        assert Plain(cs[0]) && Plain([s[0]] + cs[0]);
      }
    }
  }

  /** The chunks from the first that is the key, with a quote on either side, on. */
  function KeyChunks(cs: seq<string>, key: string): (r: Option<seq<string>>)
    ensures r.Some? ==> 2 <= |r.value| < |cs|
  {
    if |cs| < 3 then None
    else if cs[1] == key then Some(cs[1..])
    else KeyChunks(cs[1..], key)
  }

  /** The chunks after the first with a colon. */
  function ValueChunks(cs: seq<string>): (r: Option<seq<string>>)
    ensures r.Some? ==> 0 < |r.value| < |cs|
  {
    if |cs| < 2 then None
    else if ':' in cs[0] then Some(cs[1..])
    else ValueChunks(cs[1..])
  }

  // ----- Searching over plain text

  lemma {:induction false} SkipToQuote(c: string, rest: string, sub: string)
    requires Plain(c) && sub != "" && sub[0] == '"'
    ensures FindSub(c + rest, sub) == FindSub(rest, sub)
  {
    if c == "" {
      assert c + rest == rest;
    } else {
      assert (c + rest)[1..] == c[1..] + rest;
      assert c[0] in c;
      SkipToQuote(c[1..], rest, sub);
    }
  }

  lemma {:induction false} SkipPlain(c: string, rest: string, x: char)
    requires '\\' !in c && x !in c
    ensures FindChar(c + rest, x) == FindChar(rest, x)
  {
    if c == "" {
      assert c + rest == rest;
    } else {
      assert (c + rest)[1..] == c[1..] + rest;
      assert c[0] in c;
      SkipPlain(c[1..], rest, x);
    }
  }

  /** In a plain chunk a character is found where it first occurs. */
  lemma {:induction false} FindInChunk(c: string, rest: string, x: char) returns (tail: string)
    requires Plain(c) && x in c
    ensures FindChar(c + rest, x) == Some(tail + rest) && Plain(tail) && |tail| <= |c|
  {
    assert (c + rest)[1..] == c[1..] + rest;
    assert c[0] in c;
    if c[0] == x {
      tail := c;
    } else {
      tail := FindInChunk(c[1..], rest, x);
    }
  }

  /** A quoted key is a prefix of quoted text exactly when it is the first chunk of it. */
  lemma {:induction false} QuotedPrefix(key: string, c: string, rest: string)
    requires Plain(key) && Plain(c)
    ensures key + QUOTE <= c + QUOTE + rest <==> key == c
    ensures !(key + QUOTE <= c)
  {
    if key == "" || c == "" {
      assert c != "" ==> c[0] in c;
      assert key != "" ==> key[0] in key;
      assert key == "" && c == "" ==> c + QUOTE + rest == key + QUOTE + rest;
      assert (c + QUOTE + rest)[0] == if c == "" then '"' else c[0];
      assert (key + QUOTE)[0] == if key == "" then '"' else key[0];
    } else {
      QuotedPrefix(key[1..], c[1..], rest);
      assert key + QUOTE == [key[0]] + (key[1..] + QUOTE);
      assert c + QUOTE + rest == [c[0]] + (c[1..] + QUOTE + rest);
      assert c == [c[0]] + c[1..];
      PrefixTail(key[0], key[1..] + QUOTE, c[0], c[1..] + QUOTE + rest);
      PrefixTail(key[0], key[1..] + QUOTE, c[0], c[1..]);
      assert key == c <==> key[0] == c[0] && key[1..] == c[1..] by { assert key == [key[0]] + key[1..]; }
    }
  }

  lemma PrefixTail(x: char, a: string, y: char, b: string)
    ensures [x] + a <= [y] + b <==> x == y && a <= b
  {
    if [x] + a <= [y] + b {
      assert ([x] + a)[0] == ([y] + b)[0];
      assert ([x] + a)[1..] == a && ([y] + b)[1..] == b;
      assert ([y] + b)[..|[x] + a|] == [x] + a;
      assert b[..|a|] == ([y] + b)[1..1 + |a|];
    }
    if x == y && a <= b {
      assert ([y] + b)[..|[x] + a|] == [y] + b[..|a|];
    }
  }

  // ----- The extractor on joined chunks

  lemma {:induction false} FindKey(cs: seq<string>, key: string)
    requires cs != [] && AllPlain(cs) && Plain(key)
    ensures FindSub(Join(cs), QUOTE + key + QUOTE) ==
              match KeyChunks(cs, key) case None => None case Some(ks) => Some(QUOTE + Join(ks))
  {
    var sub := QUOTE + key + QUOTE;
    if |cs| == 1 {
      SkipToQuote(cs[0], "", sub);
      assert cs[0] + "" == cs[0];
    } else {
      var rest := Join(cs[1..]);
      assert Join(cs) == cs[0] + (QUOTE + rest);
      SkipToQuote(cs[0], QUOTE + rest, sub);
      FindKey(cs[1..], key);
      assert (QUOTE + rest)[1..] == rest;
      assert sub == ['"'] + (key + QUOTE);
      PrefixTail('"', key + QUOTE, '"', rest);
      if |cs| == 2 {
        QuotedPrefix(key, rest, "");
      } else {
        QuotedPrefix(key, cs[1], Join(cs[2..]));
        assert cs[1..][1..] == cs[2..];
        assert rest == cs[1] + QUOTE + Join(cs[2..]);
      }
    }
  }

  /** The next quote after the next colon. */
  function QuoteAfterColon(s: string): Option<string> {
    match FindChar(s, ':') case None => None case Some(c) => FindChar(c, '"')
  }

  lemma {:induction false} FindValue(cs: seq<string>)
    requires cs != [] && AllPlain(cs)
    ensures QuoteAfterColon(Join(cs)) ==
              match ValueChunks(cs) case None => None case Some(vs) => Some(QUOTE + Join(vs))
  {
    var rest := if |cs| == 1 then "" else QUOTE + Join(cs[1..]);
    assert Join(cs) == cs[0] + rest;
    if ':' in cs[0] {
      var tail := FindInChunk(cs[0], rest, ':');
      SkipPlain(tail, rest, '"');
    } else {
      SkipPlain(cs[0], rest, ':');
      if |cs| > 1 {
        assert rest[1..] == Join(cs[1..]);
        FindValue(cs[1..]);
      }
    }
  }

  /** The first colon, when it starts a chunk. */
  lemma {:induction false} FindColonChunk(cs: seq<string>, j: nat)
    requires AllPlain(cs) && j < |cs| && cs[j] != "" && cs[j][0] == ':'
    requires forall k | 0 <= k < j :: ':' !in cs[k]
    ensures FindChar(Join(cs), ':') == Some(Join(cs[j..]))
  {
    if j == 0 {
      assert cs[0..] == cs;
      assert Join(cs)[0] == cs[0][0];
    } else {
      var rest := QUOTE + Join(cs[1..]);
      assert Join(cs) == cs[0] + rest;
      SkipPlain(cs[0], rest, ':');
      assert rest[1..] == Join(cs[1..]);
      FindColonChunk(cs[1..], j - 1);
      assert cs[1..][j - 1..] == cs[j..];
    }
  }

  lemma {:induction false} UnescapePlain(s: string)
    requires Plain(s)
    ensures Unescape(s) == s
  {
    if s != "" {
      assert s[0] in s;
      UnescapePlain(s[1..]);
    }
  }

  lemma {:induction false} ChunksPlain(cs: seq<string>, key: string)
    requires AllPlain(cs)
    ensures KeyChunks(cs, key).Some? ==> AllPlain(KeyChunks(cs, key).value)
    ensures ValueChunks(cs).Some? ==> AllPlain(ValueChunks(cs).value)
  {
    if |cs| > 0 {
      ChunksPlain(cs[1..], key);
    }
  }

  /** The value of a string field of plain text: the chunk after the first colon after the first chunk that is the
      key, if a quote closes it. */
  function PlainValue(cs: seq<string>, key: string): Option<string> {
    match KeyChunks(cs, key)
    case None => None
    case Some(ks) =>
      match ValueChunks(ks)
      case None => None
      case Some(vs) => if |vs| < 2 then None else Some(vs[0])
  }

  /** Where the chunks of a key are. */
  lemma {:induction false} KeyAt(cs: seq<string>, key: string, i: nat)
    requires 1 <= i < |cs| - 1 && cs[i] == key && forall k | 1 <= k < i :: cs[k] != key
    ensures KeyChunks(cs, key) == Some(cs[i..])
  {
    if i > 1 {
      KeyAt(cs[1..], key, i - 1);
      assert cs[1..][i - 1..] == cs[i..];
    }
  }

  lemma {:induction false} ValueAt(cs: seq<string>, j: nat)
    requires j < |cs| - 1 && ':' in cs[j] && forall k | 0 <= k < j :: ':' !in cs[k]
    ensures ValueChunks(cs) == Some(cs[j + 1..])
  {
    if j > 0 {
      ValueAt(cs[1..], j - 1);
      assert cs[1..][j..] == cs[j + 1..];
    }
  }

  /** A string field whose key is chunk i and whose colon is in chunk j. */
  lemma PlainValueAt(cs: seq<string>, key: string, i: nat, j: nat)
    requires 1 <= i <= j < |cs| - 2 && cs[i] == key && ':' in cs[j]
    requires forall k | 1 <= k < i :: cs[k] != key
    requires forall k | i <= k < j :: ':' !in cs[k]
    ensures PlainValue(cs, key) == Some(cs[j + 1])
  {
    KeyAt(cs, key, i);
    ValueAt(cs[i..], j - i);
  }

  lemma {:induction false} QuotedPlain(vs: seq<string>)
    requires vs != [] && AllPlain(vs)
    ensures FindChar(Join(vs), '"') == if |vs| == 1 then None else Some(QUOTE + Join(vs[1..]))
    ensures |vs| > 1 ==> |Join(vs)| == |vs[0]| + |QUOTE + Join(vs[1..])| && Join(vs)[..|vs[0]|] == vs[0]
  {
    var rest := if |vs| == 1 then "" else QUOTE + Join(vs[1..]);
    assert Join(vs) == vs[0] + rest;
    SkipPlain(vs[0], rest, '"');
  }

  lemma ColonPlain(cs: seq<string>, key: string)
    requires cs != [] && AllPlain(cs) && Plain(key) && |key| <= KEY_LENGTH
    ensures match FindColon(Join(cs), key)
            case None => PlainValue(cs, key) == None
            case Some(c) => Quoted(c) == PlainValue(cs, key)
  {
    hide FindChar, FindSub, Join, AllPlain, KeyChunks, ValueChunks;
    FindKey(cs, key);
    ChunksPlain(cs, key);
    if KeyChunks(cs, key).Some? {
      var ks := KeyChunks(cs, key).value;
      SkipPlainQuote(Join(ks));
      FindValue(ks);
      ChunksPlain(ks, key);
      if ValueChunks(ks).Some? {
        var vs := ValueChunks(ks).value;
        QuotedPlain(vs);
        assert (QUOTE + Join(vs))[1..] == Join(vs);
        if |vs| > 1 { assert (QUOTE + Join(vs))[1..1 + |vs[0]|] == Join(vs)[..|vs[0]|]; }
      }
    }
  }

  lemma SkipPlainQuote(s: string)
    ensures FindChar(QUOTE + s, ':') == FindChar(s, ':')
  {
    assert (QUOTE + s)[1..] == s;
  }

  /** On every text without escape sequences, a string field is its plain value, cut to the caller's buffer. */
  lemma GetStringPlain(cs: seq<string>, key: string, maxLen: nat)
    requires cs != [] && AllPlain(cs) && Plain(key) && |key| <= KEY_LENGTH && maxLen > 0
    ensures GetString(Join(cs), key, maxLen) ==
              match PlainValue(cs, key) case None => None case Some(v) => Some(Truncated(v, maxLen - 1))
  {
    hide Join, FindColon, Quoted;
    ColonPlain(cs, key);
    ChunksPlain(cs, key);
    if PlainValue(cs, key).Some? {
      ChunksPlain(KeyChunks(cs, key).value, key);
      UnescapePlain(Truncated(PlainValue(cs, key).value, maxLen - 1));
    }
  }

  // ----- Raw values

  /** The first place of a character, or -1. */
  function IndexOf(s: string, c: char): (r: int)
    ensures -1 <= r < |s| && (r >= 0 ==> s[r] == c && c !in s[..r]) && (r < 0 ==> c !in s)
  {
    if s == "" then -1
    else if s[0] == c then 0
    else
      var r := IndexOf(s[1..], c);
      assert r >= 0 ==> s[..r + 1] == [s[0]] + s[1..][..r];
      assert s == [s[0]] + s[1..];
      if r < 0 then -1 else r + 1
  }

  /** Without escape sequences a character is found at its first place. */
  lemma {:induction false} FindCharPlain(s: string, c: char)
    requires '\\' !in s
    ensures FindChar(s, c) == if c in s then Some(s[IndexOf(s, c)..]) else None
  {
    if s != "" {
      assert s[0] in s && s == [s[0]] + s[1..];
      if s[0] != c { FindCharPlain(s[1..], c); }
    }
  }

  /** A value up to the first place of its end: the closing bracket of an array, included; else a comma, or, if there
      is none, the closing brace. */
  function UpToEnd(v: string): Option<string>
    requires v != ""
  {
    var isArray := v[0] == '[';
    var k := IndexOf(v[1..], if isArray then ']' else ',');
    var n := if k >= 0 then k else IndexOf(v[1..], '}');
    if n < 0 then None else Some(v[..n + 1 + if isArray then 1 else 0])
  }

  lemma RawValuePlain(v: string)
    requires v != "" && '\\' !in v
    ensures RawValue(v) == UpToEnd(v)
  {
    hide FindChar, IndexOf;
    var rest := v[1..];
    assert '\\' !in rest;
    FindCharPlain(rest, if v[0] == '[' then ']' else ',');
    FindCharPlain(rest, '}');
  }

  lemma {:induction false} JoinUnescaped(cs: seq<string>)
    requires cs != [] && AllPlain(cs)
    ensures '\\' !in Join(cs)
  {
    if |cs| > 1 { JoinUnescaped(cs[1..]); }
  }

  lemma {:induction false} BlanksUnescaped(s: string)
    requires '\\' !in s
    ensures '\\' !in SkipBlanks(s)
  {
    if s != "" && (s[0] == ' ' || s[0] == '\t') {
      assert '\\' !in s[1..];
      BlanksUnescaped(s[1..]);
    }
  }

  /** The raw value of a field of plain text: what follows the first colon after the key, without leading blanks. */
  function PlainRaw(cs: seq<string>, key: string): Option<string>
  {
    match KeyChunks(cs, key)
    case None => None
    case Some(ks) =>
      var text := Join(ks);
      if ':' !in text then None
      else
        var v := SkipBlanks(text[IndexOf(text, ':') + 1..]);
        if v == "" then None else UpToEnd(v)
  }

  /** What follows the first colon of a text without escape sequences. */
  lemma AfterColon(text: string)
    requires '\\' !in text && ':' in text
    ensures FindChar(text, ':').Some? && FindChar(text, ':').value != ""
    ensures FindChar(text, ':').value[1..] == text[IndexOf(text, ':') + 1..]
    ensures '\\' !in SkipBlanks(text[IndexOf(text, ':') + 1..])
  {
    hide FindChar, SkipBlanks, IndexOf;
    FindCharPlain(text, ':');
    var k := IndexOf(text, ':');
    assert text[k..][1..] == text[k + 1..];
    assert '\\' !in text[k + 1..];
    BlanksUnescaped(text[k + 1..]);
  }

  lemma NoColon(text: string)
    requires '\\' !in text && ':' !in text
    ensures FindChar(text, ':') == None
  {
    hide FindChar;
    FindCharPlain(text, ':');
  }

  /** On every text without escape sequences, a raw field is its plain raw value, cut to the caller's buffer. */
  lemma GetRawPlain(cs: seq<string>, key: string, maxLen: nat)
    requires cs != [] && AllPlain(cs) && Plain(key) && |key| <= KEY_LENGTH && maxLen > 0
    ensures GetRawValue(Join(cs), key, maxLen) ==
              match PlainRaw(cs, key) case None => None case Some(v) => Some(Truncated(v, maxLen - 1))
  {
    hide FindChar, FindSub, Join, AllPlain, KeyChunks, UpToEnd, RawValue, SkipBlanks, IndexOf, Plain;
    FindKey(cs, key);
    ChunksPlain(cs, key);
    if KeyChunks(cs, key).Some? {
      var text := Join(KeyChunks(cs, key).value);
      SkipPlainQuote(text);
      JoinUnescaped(KeyChunks(cs, key).value);
      if ':' in text {
        AfterColon(text);
        var v := SkipBlanks(text[IndexOf(text, ':') + 1..]);
        if v != "" { RawValuePlain(v); }
      } else {
        NoColon(text);
      }
    }
  }
}
