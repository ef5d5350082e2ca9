/**
 * `JSON.stringify` of an object whose values are strings, as the engine uses
 * it to embed a distribution in a recommendation, and a reader for that
 * output, so that what the text embeds can be read back.
 */
module Json {
  import opened Wrappers
  import opened Text
  import opened JsNumber

  /** A lower-case hexadecimal digit. */
  function HexChar(d: nat): (c: char)
    requires d < 16
    ensures IsHexDigit(c) && HexDigitValue(c) == d
  {
    if d < 10 then DigitChar(d) else ('a' as int + d - 10) as char
  }

  /** QuoteJSONString on one code point: the two-character escapes for
      backspace, tab, line feed, form feed, carriage return, quote and
      backslash; `\u00XX` in lower-case hexadecimal for the other control
      characters; every other character as itself. */
  function EscapeChar(c: char): (r: string)
    ensures |r| > 0
  {
    if c == '\U{0008}' then "\\b"
    else if c == '\t' then "\\t"
    else if c == '\n' then "\\n"
    else if c == '\U{000C}' then "\\f"
    else if c == '\r' then "\\r"
    else if c == '"' then "\\\""
    else if c == '\\' then "\\\\"
    else if c < ' ' then "\\u00" + [HexChar(c as int / 16), HexChar(c as int % 16)]
    else [c]
  }

  function Escape(s: string): string
  {
    if s == "" then "" else EscapeChar(s[0]) + Escape(s[1..])
  }

  /** `JSON.stringify` of a string. */
  function Quote(s: string): string
  {
    "\"" + Escape(s) + "\""
  }

  /** `"k":"v"` for one member. */
  function Member(m: (string, string)): string
  {
    Quote(m.0) + ":" + Quote(m.1)
  }

  function Members(ms: seq<(string, string)>): string
    requires ms != []
  {
    if |ms| == 1 then Member(ms[0]) else Member(ms[0]) + "," + Members(ms[1..])
  }

  /** `JSON.stringify` of an object with string values, its members in the
      order given (the caller passes them in `Object.keys` order). */
  function StringifyObject(ms: seq<(string, string)>): (r: string)
    ensures |r| >= 2 && r[0] == '{' && r[|r| - 1] == '}'
  {
    if ms == [] then "{}" else "{" + Members(ms) + "}"
  }

  /** The character a two-character escape `\c` stands for. */
  function ShortEscape(c: char): Option<char>
  {
    if c == 'b' then Some('\U{0008}')
    else if c == 't' then Some('\t')
    else if c == 'n' then Some('\n')
    else if c == 'f' then Some('\U{000C}')
    else if c == 'r' then Some('\r')
    else if c == '"' then Some('"')
    else if c == '\\' then Some('\\')
    else if c == '/' then Some('/')
    else None
  }

  /** The value of four hexadecimal digits, as in `\uXXXX`. */
  function Hex4(h: string): (v: nat)
    requires |h| == 4 && AllHexDigits(h)
    ensures v < 0x1_0000
  {
    HexDigitValue(h[0]) * 4096 + HexDigitValue(h[1]) * 256 + HexDigitValue(h[2]) * 16 + HexDigitValue(h[3])
  }

  function Prepend(c: char, r: Option<(string, string)>): Option<(string, string)>
  {
    match r
    case None => None
    case Some(p) => Some(([c] + p.0, p.1))
  }

  /** Reads the rest of a JSON string literal (after its opening quote), up to
      and including the closing quote: the decoded text and what follows. */
  function ReadChars(s: string): (r: Option<(string, string)>)
    ensures r.Some? ==> |r.value.1| < |s|
    decreases |s|
  {
    if s == "" then None
    else if s[0] == '"' then Some(("", s[1..]))
    else if s[0] == '\\' then
      if |s| >= 2 && ShortEscape(s[1]).Some? then Prepend(ShortEscape(s[1]).value, ReadChars(s[2..]))
      else if |s| >= 6 && s[1] == 'u' && AllHexDigits(s[2..6])
              && (Hex4(s[2..6]) < 0xD800 || 0xE000 <= Hex4(s[2..6])) then
        Prepend(Hex4(s[2..6]) as char, ReadChars(s[6..]))
      else None
    else if s[0] < ' ' then None
    else Prepend(s[0], ReadChars(s[1..]))
  }

  /** Reads one JSON string literal at the start of `s`. */
  function ReadString(s: string): (r: Option<(string, string)>)
    ensures r.Some? ==> |r.value.1| < |s|
  {
    if |s| > 0 && s[0] == '"' then ReadChars(s[1..]) else None
  }

  predicate HasShortEscape(c: char)
  {
    c == '\U{0008}' || c == '\t' || c == '\n' || c == '\U{000C}' || c == '\r' || c == '"' || c == '\\'
  }

  lemma HexPair(c: char)
    requires c < ' ' && !HasShortEscape(c)
    ensures var e := EscapeChar(c); |e| == 6 && e[1] == 'u' && AllHexDigits(e[2..6]) && Hex4(e[2..6]) == c as int
  {
    var e := EscapeChar(c);
    assert e[2..6] == ['0', '0', HexChar(c as int / 16), HexChar(c as int % 16)];
  }

  lemma ReadEscapedChar(c: char, tail: string)
    ensures ReadChars(EscapeChar(c) + tail) == Prepend(c, ReadChars(tail))
  {
    if c < ' ' && !HasShortEscape(c) {
      ReadHexEscape(c, tail);
    } else if HasShortEscape(c) {
      ReadShortEscape(c, tail);
    } else {
      ReadPlainChar(c, tail);
    }
  }

  lemma ReadHexEscape(c: char, tail: string)
    requires c < ' ' && !HasShortEscape(c)
    ensures ReadChars(EscapeChar(c) + tail) == Prepend(c, ReadChars(tail))
  {
    var e := EscapeChar(c);
    var s := e + tail;
    HexPair(c);
    assert s[2..6] == e[2..6] && s[6..] == tail;
    assert ShortEscape(s[1]).None?;
  }

  lemma ReadShortEscape(c: char, tail: string)
    requires HasShortEscape(c)
    ensures ReadChars(EscapeChar(c) + tail) == Prepend(c, ReadChars(tail))
  {
    var e := EscapeChar(c);
    assert |e| == 2 && e[0] == '\\' && ShortEscape(e[1]) == Some(c);
    assert (e + tail)[2..] == tail;
  }

  lemma ReadPlainChar(c: char, tail: string)
    requires c >= ' ' && !HasShortEscape(c)
    ensures ReadChars(EscapeChar(c) + tail) == Prepend(c, ReadChars(tail))
  {
    assert EscapeChar(c) == [c];
    assert ([c] + tail)[0] == c && ([c] + tail)[1..] == tail;
  }

  lemma {:induction false} ReadEscaped(x: string, tail: string)
    ensures ReadChars(Escape(x) + "\"" + tail) == Some((x, tail))
    decreases |x|
  {
    if x == "" {
      assert Escape(x) + "\"" + tail == "\"" + tail;
    } else {
      ReadEscaped(x[1..], tail);
      ReadEscapedChar(x[0], Escape(x[1..]) + "\"" + tail);
      assert Escape(x) + "\"" + tail == EscapeChar(x[0]) + (Escape(x[1..]) + "\"" + tail);
      assert [x[0]] + x[1..] == x;
    }
  }

  /** Reading a quoted string returns the original text and leaves what
      followed it untouched. */
  lemma QuoteRoundTrip(x: string, tail: string)
    ensures ReadString(Quote(x) + tail) == Some((x, tail))
  {
    var body := Escape(x) + "\"" + tail;
    ReadEscaped(x, tail);
    assert Quote(x) + tail == "\"" + body;
    Prefixed("\"", body);
  }

  /** Reads one member `"k":"v"`: the pair and what follows it. */
  function ReadMember(s: string): (r: Option<((string, string), string)>)
    ensures r.Some? ==> |r.value.1| < |s|
  {
    match ReadString(s)
    case None => None
    case Some(kr) =>
      if |kr.1| == 0 || kr.1[0] != ':' then None
      else
        match ReadString(kr.1[1..])
        case None => None
        case Some(vr) => Some(((kr.0, vr.0), vr.1))
  }

  /** Reads members separated by `,` up to the closing `}` that must end the
      text. */
  function ReadMembers(s: string): Option<seq<(string, string)>>
    decreases |s|
  {
    match ReadMember(s)
    case None => None
    case Some(mr) =>
      var rest := mr.1;
      if rest == "}" then Some([mr.0])
      else if |rest| > 0 && rest[0] == ',' then
        match ReadMembers(rest[1..])
        case None => None
        case Some(more) => Some([mr.0] + more)
      else None
  }

  /** `JSON.parse` restricted to objects whose values are strings. */
  function ParseObject(s: string): Option<seq<(string, string)>>
  {
    if s == "{}" then Some([])
    else if |s| > 0 && s[0] == '{' then ReadMembers(s[1..])
    else None
  }

  lemma MemberRoundTrip(m: (string, string), after: string)
    ensures ReadMember(Member(m) + after) == Some((m, after))
  {
    var value := Quote(m.1) + after;
    assert Member(m) + after == Quote(m.0) + (":" + value);
    QuoteRoundTrip(m.0, ":" + value);
    QuoteRoundTrip(m.1, after);
    Prefixed(":", value);
    ReadMemberOf(Member(m) + after, m.0, m.1, value, after);
  }

  lemma ReadMemberOf(s: string, k: string, v: string, value: string, after: string)
    requires ReadString(s) == Some((k, ":" + value)) && ReadString(value) == Some((v, after))
    ensures ReadMember(s) == Some(((k, v), after))
  {
    Prefixed(":", value);
  }

  lemma ReadMembersLast(s: string, m: (string, string))
    requires ReadMember(s) == Some((m, "}"))
    ensures ReadMembers(s) == Some([m])
  {
  }

  lemma ReadMembersCons(s: string, m: (string, string), rest: string, more: seq<(string, string)>)
    requires ReadMember(s) == Some((m, "," + rest)) && ReadMembers(rest) == Some(more)
    ensures ReadMembers(s) == Some([m] + more)
  {
    assert ("," + rest)[1..] == rest;
  }

  lemma {:induction false} ReadMembersRoundTrip(ms: seq<(string, string)>)
    requires ms != []
    ensures ReadMembers(Members(ms) + "}") == Some(ms)
    decreases |ms|
  {
    if |ms| == 1 {
      MemberRoundTrip(ms[0], "}");
      assert Members(ms) == Member(ms[0]) && [ms[0]] == ms;
      ReadMembersLast(Members(ms) + "}", ms[0]);
    } else {
      var rest := Members(ms[1..]) + "}";
      assert Members(ms) + "}" == Member(ms[0]) + ("," + rest);
      MemberRoundTrip(ms[0], "," + rest);
      ReadMembersRoundTrip(ms[1..]);
      ReadMembersCons(Members(ms) + "}", ms[0], rest, ms[1..]);
      assert [ms[0]] + ms[1..] == ms;
    }
  }

  /** The object `JSON.stringify` writes reads back to the same members in the
      same order. */
  lemma StringifyRoundTrip(ms: seq<(string, string)>)
    ensures ParseObject(StringifyObject(ms)) == Some(ms)
  {
    if ms != [] {
      var body := Members(ms) + "}";
      StringifyShape(ms);
      Prefixed("{", body);
      ReadMembersRoundTrip(ms);
      assert ParseObject("{" + body) == ReadMembers(body);
    }
  }

  lemma StringifyShape(ms: seq<(string, string)>)
    requires ms != []
    ensures StringifyObject(ms) == "{" + (Members(ms) + "}") && |StringifyObject(ms)| > 2
  {
    assert |Members(ms)| > 0;
  }

  /** A string without control characters, quotes or backslashes is written
      as itself. */
  lemma {:induction false} EscapePlain(x: string)
    requires forall i :: 0 <= i < |x| ==> x[i] >= ' ' && x[i] != '"' && x[i] != '\\'
    ensures Escape(x) == x
    decreases |x|
  {
    if x != "" {
      EscapePlain(x[1..]);
      assert [x[0]] + x[1..] == x;
    }
  }
}
