/** The SoftBus's JSON field extractor (utils/json_parser.hpp:6-150). A C pointer into the text is the rest of the
    text from there on; a null pointer is None. */
module JsonParser {
  import opened CString

  datatype Option<T> = None | Some(value: T)

  /** find_char, which steps over escape sequences. */
  function FindChar(s: string, c: char): (r: Option<string>)
    ensures r.Some? ==> 0 < |r.value| <= |s|
  {
    if s == "" then None
    else if s[0] == '\\' && |s| > 1 then FindChar(s[2..], c)
    else if s[0] == c then Some(s)
    else FindChar(s[1..], c)
  }

  /** find_substr. */
  function FindSub(s: string, sub: string): (r: Option<string>)
    ensures r.Some? ==> |r.value| <= |s|
  {
    if sub == "" then Some(s)
    else if s == "" then None
    else if sub <= s then Some(s)
    else FindSub(s[1..], sub)
  }

  /** Every escape sequence replaced by the character escaped. */
  function Unescape(s: string): (r: string)
    ensures |r| <= |s|
  {
    if s == "" then ""
    else if s[0] == '\\' && |s| > 1 then [s[1]] + Unescape(s[2..])
    else [s[0]] + Unescape(s[1..])
  }

  const KEY_LENGTH: nat := 29

  /** The key between quotes; a key longer than the buffer allows is cut short. */
  function SearchKey(key: string): string {
    "\"" + Truncated(key, KEY_LENGTH) + "\""
  }

  /** Where the first colon after the key is. */
  function FindColon(json: string, key: string): (r: Option<string>)
    ensures r.Some? ==> 0 < |r.value| <= |json|
  {
    match FindSub(json, SearchKey(key))
    case None => None
    case Some(k) => FindChar(k, ':')
  }

  /** The text between the next two quotes. */
  function Quoted(s: string): Option<string> {
    match FindChar(s, '"')
    case None => None
    case Some(open) =>
      match FindChar(open[1..], '"')
      case None => None
      case Some(close) => Some(open[1..|open| - |close|])
  }

  function GetString(json: string, key: string, maxLen: int): Option<string> {
    if maxLen <= 0 then None
    else
      match FindColon(json, key)
      case None => None
      case Some(c) =>
        match Quoted(c)
        case None => None
        case Some(v) => Some(Unescape(Truncated(v, maxLen - 1)))
  }

  function SkipBlanks(s: string): (r: string)
    ensures |r| <= |s|
  {
    if s != "" && (s[0] == ' ' || s[0] == '\t') then SkipBlanks(s[1..]) else s
  }

  /** The raw text of a value: an array up to its bracket, else up to the comma or the end of the object. */
  function RawValue(v: string): Option<string>
    requires v != ""
  {
    var end := if v[0] == '[' then ']' else ',';
    match FindChar(v[1..], end)
    case Some(e) => Some(v[..|v| - |e| + if end == ']' then 1 else 0])
    case None =>
      match FindChar(v[1..], '}')
      case Some(e) => Some(v[..|v| - |e| + if end == ']' then 1 else 0])
      case None => None
  }

  function GetRawValue(json: string, key: string, maxLen: int): Option<string> {
    if maxLen <= 0 then None
    else
      match FindColon(json, key)
      case None => None
      case Some(c) =>
        var v := SkipBlanks(c[1..]);
        if v == "" then None
        else
          match RawValue(v)
          case None => None
          case Some(r) => Some(Truncated(r, maxLen - 1))
  }

  /** A position in a text, or -1 for a null pointer, as the rest of the text. */
  function Pointer(s: string, r: int): Option<string>
    requires -1 <= r <= |s|
  {
    if r < 0 then None else Some(s[r..])
  }

  class JsonParser {
    const raw: string

    constructor (raw: string)
      ensures this.raw == raw
    {
      this.raw := raw;
    }

    method FindCharAt(from: nat, c: char) returns (r: int)
      requires from <= |raw|
      ensures -1 <= r < |raw| && (r >= 0 ==> from <= r) && Pointer(raw, r) == FindChar(raw[from..], c)
    {
      var p := from;
      while p < |raw|
        invariant from <= p <= |raw| && FindChar(raw[p..], c) == FindChar(raw[from..], c)
      {
        assert raw[p..][1..] == raw[p + 1..];
        if raw[p] == '\\' && p + 1 < |raw| {
          assert raw[p..][2..] == raw[p + 2..];
          p := p + 2;
        } else if raw[p] == c {
          return p;
        } else {
          p := p + 1;
        }
      }
      return -1;
    }

    method FindSubAt(sub: string) returns (r: int)
      ensures -1 <= r <= |raw| && Pointer(raw, r) == FindSub(raw, sub)
    {
      if sub == "" { return 0; }
      var p := 0;
      while p < |raw|
        invariant p <= |raw| && FindSub(raw[p..], sub) == FindSub(raw, sub)
      {
        assert raw[p..][1..] == raw[p + 1..];
        var here := MatchesAt(p, sub);
        if here { return p; }
        p := p + 1;
      }
      return -1;
    }

    /** The inner loop of find_substr. */
    method MatchesAt(p: nat, sub: string) returns (here: bool)
      requires p <= |raw|
      ensures here <==> sub <= raw[p..]
    {
      var n := 0;
      while p + n < |raw| && n < |sub| && raw[p + n] == sub[n]
        invariant n <= |sub| && p + n <= |raw| && forall i | 0 <= i < n :: raw[p..][i] == sub[i]
      {
        n := n + 1;
      }
      return n == |sub|;
    }

    method FindColonAt(key: string) returns (r: int)
      ensures -1 <= r < |raw| && Pointer(raw, r) == FindColon(raw, key)
    {
      var k := FindSubAt(SearchKey(key));
      if k < 0 { return -1; }
      r := FindCharAt(k, ':');
    }

    method GetStringValue(key: string, maxLen: int) returns (r: Option<string>)
      ensures r == GetString(raw, key, maxLen)
    {
      hide FindColon, FindChar, Quoted, Unescape;
      if maxLen <= 0 { return None; }
      var colon := FindColonAt(key);
      if colon < 0 { return None; }
      var value := QuotedAt(colon);
      if value.None? { return None; }
      var start, n := value.value.0, value.value.1;
      if n >= maxLen { n := maxLen - 1; }
      assert raw[start..start + n] == Truncated(raw[start..start + value.value.1], maxLen - 1);
      var out := CopyUnescaped(start, n, maxLen);
      r := Some(out);
    }

    /** Where the next quoted text starts, and its length. */
    method QuotedAt(from: nat) returns (r: Option<(nat, nat)>)
      requires from <= |raw|
      ensures r.None? <==> Quoted(raw[from..]).None?
      ensures r.Some? ==> r.value.0 + r.value.1 <= |raw|
      ensures r.Some? ==> Quoted(raw[from..]) == Some(raw[r.value.0..r.value.0 + r.value.1])
    {
      hide FindChar;
      var open := FindCharAt(from, '"');
      if open < 0 { return None; }
      assert raw[open..][1..] == raw[open + 1..];
      var close := FindCharAt(open + 1, '"');
      if close < 0 { return None; }
      Between(raw, from, open, close);
      r := Some((open + 1, close - (open + 1)));
    }

    /** The copy loop: an escape sequence cut off by the limit keeps its backslash. */
    method CopyUnescaped(start: nat, n: nat, maxLen: int) returns (out: string)
      requires start + n <= |raw| && n < maxLen
      ensures out == Unescape(raw[start..start + n])
    {
      hide Unescape;
      ghost var v := raw[start..start + n];
      out := "";
      var j := 0;
      assert v[j..] == v && out + Unescape(v[j..]) == Unescape(v);
      while j < n
        invariant j <= n && |out| <= j && out + Unescape(v[j..]) == Unescape(v)
      {
        UnescapeStep(v, j);
        ghost var before := out;
        if raw[start + j] == '\\' && j + 1 < n {
          j := j + 1;
        }
        if |out| < maxLen - 1 {
          out := out + [raw[start + j]];
        }
        assert raw[start + j] == v[j];
        assert before + ([v[j]] + Unescape(v[j + 1..])) == out + Unescape(v[j + 1..]);
        j := j + 1;
      }
      UnescapeEmpty();
      assert v[j..] == "";
    }

    method GetRaw(key: string, maxLen: int) returns (r: Option<string>)
      ensures r == GetRawValue(raw, key, maxLen)
    {
      hide FindColon;
      if maxLen <= 0 { return None; }
      var colon := FindColonAt(key);
      if colon < 0 { return None; }
      assert raw[colon..][1..] == raw[colon + 1..];
      var start := colon + 1;
      while start < |raw| && (raw[start] == ' ' || raw[start] == '\t')
        invariant colon < start <= |raw| && SkipBlanks(raw[start..]) == SkipBlanks(raw[colon + 1..])
      {
        assert raw[start..][1..] == raw[start + 1..];
        start := start + 1;
      }
      if start == |raw| { return None; }
      var raws := RawAt(start);
      if raws.None? { return None; }
      r := Some(Truncated(raws.value, maxLen - 1));
    }

    method RawAt(start: nat) returns (r: Option<string>)
      requires start < |raw|
      ensures r == RawValue(raw[start..])
    {
      hide FindChar;
      ghost var v := raw[start..];
      assert v[1..] == raw[start + 1..];
      var endChar := if raw[start] == '[' then ']' else ',';
      var end := FindCharAt(start + 1, endChar);
      if end < 0 { end := FindCharAt(start + 1, '}'); }
      if end < 0 { return None; }
      assert |v| - |raw[end..]| == end - start;
      if endChar == ']' { end := end + 1; }
      Slice(raw, start, start, end);
      r := Some(raw[start..end]);
    }
  }

  /** The text between two quotes, by positions. */
  lemma Between(s: string, from: nat, open: nat, close: nat)
    requires from <= open < close < |s|
    requires FindChar(s[from..], '"') == Some(s[open..]) && FindChar(s[open + 1..], '"') == Some(s[close..])
    ensures Quoted(s[from..]) == Some(s[open + 1..close])
  {
    hide FindChar;
    assert s[open..][1..] == s[open + 1..];
    Slice(s, open, open + 1, close);
  }

  lemma UnescapeEmpty()
    ensures Unescape("") == ""
  {
  }

  lemma UnescapeStep(v: string, j: nat)
    requires j < |v|
    ensures Unescape(v[j..]) ==
              if v[j] == '\\' && j + 1 < |v| then [v[j + 1]] + Unescape(v[j + 2..]) else [v[j]] + Unescape(v[j + 1..])
  {
    assert v[j..][1..] == v[j + 1..];
    if j + 1 < |v| { assert v[j..][2..] == v[j + 2..]; }
  }

  lemma Slice(s: string, from: nat, lo: nat, hi: nat)
    requires from <= lo <= hi <= |s|
    ensures s[from..][lo - from..hi - from] == s[lo..hi]
  {
  }
}
