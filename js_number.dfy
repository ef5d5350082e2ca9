/**
 * The JavaScript number conversions the engine relies on: `parseInt` with no
 * radix, `toFixed(1)` of a percentage and `Number` of the string it writes.
 * Numbers are exact integers here; percentages are held in tenths.
 */
module JsNumber {
  import opened Wrappers
  import opened Text

  /** StrWhiteSpaceChar of ECMAScript: the WhiteSpace code points (TAB, VT, FF,
      SPACE, NBSP, ZWNBSP and the other Zs space separators) and the
      LineTerminator code points (LF, CR, LS, PS). */
  predicate IsJsWhitespace(c: char)
  {
    || c == '\t' || c == '\U{000B}' || c == '\U{000C}' || c == ' ' || c == '\U{00A0}' || c == '\U{FEFF}'
    || c == '\U{1680}' || ('\U{2000}' <= c <= '\U{200A}') || c == '\U{202F}' || c == '\U{205F}' || c == '\U{3000}'
    || c == '\n' || c == '\r' || c == '\U{2028}' || c == '\U{2029}'
  }

  /** The string with its leading white space removed. */
  function TrimStart(s: string): (r: string)
    ensures |r| <= |s| && r == s[|s| - |r|..]
    ensures forall i :: 0 <= i < |s| - |r| ==> IsJsWhitespace(s[i])
    ensures |r| > 0 ==> !IsJsWhitespace(r[0])
  {
    if |s| > 0 && IsJsWhitespace(s[0]) then
      var r := TrimStart(s[1..]);
      assert forall i :: 1 <= i < |s| ==> s[i] == s[1..][i - 1];
      r
    else s
  }

  /** The longest prefix of `s` made of decimal digits. */
  function DecimalPrefix(s: string): (r: string)
    ensures |r| <= |s| && r == s[..|r|] && AllDigits(r)
    ensures |r| < |s| ==> !IsDigit(s[|r|])
  {
    if |s| > 0 && IsDigit(s[0]) then [s[0]] + DecimalPrefix(s[1..]) else ""
  }

  predicate IsHexDigit(c: char)
  {
    IsDigit(c) || 'a' <= c <= 'f' || 'A' <= c <= 'F'
  }

  function HexDigitValue(c: char): (d: nat)
    requires IsHexDigit(c)
    ensures d < 16
  {
    if IsDigit(c) then DigitValue(c)
    else if 'a' <= c <= 'f' then c as int - 'a' as int + 10
    else c as int - 'A' as int + 10
  }

  predicate AllHexDigits(s: string)
  {
    forall i :: 0 <= i < |s| ==> IsHexDigit(s[i])
  }

  /** The longest prefix of `s` made of hexadecimal digits. */
  function HexPrefix(s: string): (r: string)
    ensures |r| <= |s| && r == s[..|r|] && AllHexDigits(r)
    ensures |r| < |s| ==> !IsHexDigit(s[|r|])
  {
    if |s| > 0 && IsHexDigit(s[0]) then [s[0]] + HexPrefix(s[1..]) else ""
  }

  function HexValue(s: string): nat
    requires AllHexDigits(s)
  {
    if s == [] then 0 else HexValue(s[..|s| - 1]) * 16 + HexDigitValue(s[|s| - 1])
  }

  predicate HasHexPrefix(u: string)
  {
    |u| >= 2 && u[0] == '0' && (u[1] == 'x' || u[1] == 'X')
  }

  /** The unsigned part of `parseInt`: after a "0x"/"0X" prefix the longest run
      of hexadecimal digits, otherwise the longest run of decimal digits; NaN
      (`None`) when that run is empty. */
  function ParseMagnitude(u: string): (r: Option<nat>)
    ensures r.Some? ==> |u| > 0 && IsDigit(u[0])
  {
    if HasHexPrefix(u) then
      var d := HexPrefix(u[2..]);
      if d == "" then None else Some(HexValue(d))
    else
      var d := DecimalPrefix(u);
      if d == "" then None else Some(DecimalValue(d))
  }

  function Negate(r: Option<int>): Option<int>
  {
    match r
    case None => None
    case Some(n) => Some(-n)
  }

  /** `parseInt(s)` with no radix; `None` stands for NaN.  Leading white space is
      skipped and one sign is accepted before the magnitude, so a number is
      read only when the first other character is a digit or a sign followed
      by a digit, and a negative number only after a minus sign. */
  function ParseInt(s: string): (r: Option<int>)
    ensures r.Some? ==>
              var t := TrimStart(s);
              |t| > 0 && (IsDigit(t[0]) || ((t[0] == '-' || t[0] == '+') && |t| > 1 && IsDigit(t[1])))
    ensures r.Some? && r.value < 0 ==> TrimStart(s)[0] == '-'
  {
    var t := TrimStart(s);
    if |t| > 0 && t[0] == '-' then Negate(ParseMagnitude(t[1..]))
    else if |t| > 0 && t[0] == '+' then ParseMagnitude(t[1..])
    else ParseMagnitude(t)
  }

  lemma {:induction false} DecimalPrefixOfDigits(s: string)
    requires AllDigits(s)
    ensures DecimalPrefix(s) == s
    decreases |s|
  {
    if s != "" {
      DecimalPrefixOfDigits(s[1..]);
    }
  }

  lemma TrimStartKeeps(s: string)
    requires |s| > 0 && !IsJsWhitespace(s[0])
    ensures TrimStart(s) == s
  {
  }

  lemma MagnitudeOfString(m: nat)
    ensures ParseMagnitude(NatToString(m)) == Some(m)
  {
    var d := NatToString(m);
    NatToStringRoundTrip(m);
    DecimalPrefixOfDigits(d);
  }

  lemma DigitIsNotSpace(c: char)
    requires IsDigit(c)
    ensures !IsJsWhitespace(c)
  {
  }

  lemma ParseNatString(m: nat)
    ensures ParseInt(NatToString(m)) == Some(m)
  {
    var d := NatToString(m);
    MagnitudeOfString(m);
    DigitIsNotSpace(d[0]);
    TrimStartKeeps(d);
  }

  lemma ParseNegativeString(m: nat)
    ensures ParseInt("-" + NatToString(m)) == Some(-(m as int))
  {
    var d := NatToString(m);
    var s := "-" + d;
    MagnitudeOfString(m);
    assert s[0] == '-' && s[1..] == d;
    TrimStartKeeps(s);
  }

  /** `parseInt` reads back every integer that `String` writes. */
  lemma ParseIntRoundTrip(n: int)
    ensures ParseInt(IntToString(n)) == Some(n)
  {
    var m: nat := if n < 0 then -n else n;
    ParseNatString(m);
    ParseNegativeString(m);
  }

  lemma {:induction false} DecimalPrefixStops(d: string, tail: string)
    requires AllDigits(d) && (tail == "" || !IsDigit(tail[0]))
    ensures DecimalPrefix(d + tail) == d
    decreases |d|
  {
    if d != "" {
      assert (d + tail)[1..] == d[1..] + tail;
      DecimalPrefixStops(d[1..], tail);
    }
  }

  lemma NoHexPrefix(m: nat, tail: string)
    requires tail == "" || (!IsDigit(tail[0]) && tail[0] != 'x' && tail[0] != 'X')
    ensures !HasHexPrefix(NatToString(m) + tail)
  {
    var d := NatToString(m);
    var u := d + tail;
    if |u| >= 2 && u[0] == '0' {
      assert d[0] == '0';
      assert d == "0";
      assert u[1] == tail[0];
    }
  }

  lemma MagnitudeWithTail(m: nat, tail: string)
    requires tail == "" || (!IsDigit(tail[0]) && tail[0] != 'x' && tail[0] != 'X')
    ensures var u := NatToString(m) + tail; |u| > 0 && IsDigit(u[0]) && ParseMagnitude(u) == Some(m)
  {
    var d := NatToString(m);
    NatToStringRoundTrip(m);
    DecimalPrefixStops(d, tail);
    NoHexPrefix(m, tail);
    assert (d + tail)[0] == d[0];
  }

  /** `parseInt` reads an integer back from the front of any text written
      after it, as long as that text does not go on with a digit (or, after a
      lone "0", with the "x" of a hexadecimal prefix). */
  lemma ParseIntReadsPrefix(n: int, tail: string)
    requires tail == "" || (!IsDigit(tail[0]) && tail[0] != 'x' && tail[0] != 'X')
    ensures ParseInt(IntToString(n) + tail) == Some(n)
  {
    var m: nat := if n < 0 then -n else n;
    var u := NatToString(m) + tail;
    SignThenDigits(n, tail);
    MagnitudeWithTail(m, tail);
    SignedParse(u);
  }

  lemma SignThenDigits(n: int, tail: string)
    ensures n < 0 ==> IntToString(n) + tail == "-" + (NatToString(-n) + tail)
    ensures n >= 0 ==> IntToString(n) + tail == NatToString(n) + tail
  {
  }

  /** A text that starts with a digit is parsed as its unsigned part, with
      or without a leading minus sign. */
  lemma SignedParse(u: string)
    requires |u| > 0 && IsDigit(u[0])
    ensures ParseInt(u) == ParseMagnitude(u)
    ensures ParseInt("-" + u) == Negate(ParseMagnitude(u))
  {
    TrimStartKeeps(u);
    var s := "-" + u;
    assert s[0] == '-' && s[1..] == u;
    TrimStartKeeps(s);
  }

  /** `parseInt` stops at the first character that is not a digit: "25 years"
      is the age 25. */
  lemma ParseIntStopsAtSpace()
    ensures ParseInt("25 years") == Some(25)
  {
    assert NatToString(25) == "25";
    assert IntToString(25) + " years" == "25 years";
    ParseIntReadsPrefix(25, " years");
  }

  /** A fraction is cut off, not rounded: "31.9" is the age 31. */
  lemma ParseIntStopsAtPoint()
    ensures ParseInt("31.9") == Some(31)
  {
    assert NatToString(31) == "31";
    assert IntToString(31) + ".9" == "31.9";
    ParseIntReadsPrefix(31, ".9");
  }

  /** A cell that does not start with a digit is NaN: "n/a" is not an age. */
  lemma ParseIntRejectsText()
    ensures ParseInt("n/a") == None
  {
    TrimStartKeeps("n/a");
    assert DecimalPrefix("n/a") == "";
  }

  /** Leading white space is skipped and an empty string is NaN. */
  lemma ParseIntPrefixes()
    ensures ParseInt(" 40") == Some(40)
    ensures ParseInt("") == None
  {
    var s := " 40";
    assert IsJsWhitespace(s[0]) && s[1..] == "40";
    TrimStartKeeps("40");
    assert TrimStart(s) == "40";
    DecimalPrefixOfDigits("40");
    assert DecimalValue("40") == 40;
    assert ParseMagnitude("40") == Some(40);
  }

  /** A "0x" prefix switches `parseInt` to hexadecimal, and needs a digit after it. */
  lemma ParseIntHex()
    ensures ParseInt("0x1A") == Some(26)
    ensures ParseInt("0x") == None
  {
    TrimStartKeeps("0x1A");
    assert HasHexPrefix("0x1A") && "0x1A"[2..] == "1A";
    assert HexPrefix("1A") == "1A";
    assert HexValue("1A") == 26;
    TrimStartKeeps("0x");
    assert "0x"[2..] == "";
  }

  /** `(count / total * 100).toFixed(1)` as a number of tenths: the nearest
      tenth of the exact percentage, a tie going to the larger one. */
  function PercentTenths(count: nat, total: nat): (r: nat)
    requires 0 < total
    ensures 2 * total * r <= 2000 * count + total < 2 * total * r + 2 * total
    ensures count <= total ==> r <= 1000
  {
    var q := (2000 * count + total) / (2 * total);
    DivisionBounds(2000 * count + total, 2 * total);
    if count <= total then
      QuotientAtMost(2000 * count + total, 2 * total, 1000);
      q
    else q
  }

  lemma DivisionBounds(a: nat, b: nat)
    requires 0 < b
    ensures b * (a / b) <= a < b * (a / b) + b
  {
  }

  lemma QuotientAtMost(a: nat, b: nat, k: nat)
    requires 0 < b && a < b * (k + 1)
    ensures a / b <= k
  {
    DivisionBounds(a, b);
  }

  /** The string `toFixed(1)` writes for a value of `tenths` tenths. */
  function Fixed1(tenths: nat): (r: string)
    ensures |r| >= 3 && r[|r| - 2] == '.'
  {
    NatToString(tenths / 10) + "." + [DigitChar(tenths % 10)]
  }

  /** `Number(s)` on strings of the shape `toFixed(1)` writes (digits, a point,
      one digit), in tenths; `None` for any other string. */
  function ParseFixed1(s: string): Option<nat>
  {
    if |s| >= 3 && s[|s| - 2] == '.' && IsDigit(s[|s| - 1]) && AllDigits(s[..|s| - 2]) then
      Some(DecimalValue(s[..|s| - 2]) * 10 + DigitValue(s[|s| - 1]))
    else None
  }

  /** `Number(x.toFixed(1))` gives back the rounded value: comparing the parsed
      strings is comparing tenths. */
  lemma Fixed1RoundTrip(tenths: nat)
    ensures ParseFixed1(Fixed1(tenths)) == Some(tenths)
  {
    var s := Fixed1(tenths);
    var w := NatToString(tenths / 10);
    assert s[..|s| - 2] == w;
    NatToStringRoundTrip(tenths / 10);
  }

  /** Examples: 8 of 10 is "80.0", 1 of 3 is "33.3", 2 of 3 is "66.7" and 1 of 16
      (6.25) rounds up to "6.3". */
  lemma PercentExamples()
    ensures PercentTenths(8, 10) == 800 && Fixed1(800) == "80.0"
    ensures PercentTenths(1, 3) == 333 && Fixed1(333) == "33.3"
    ensures PercentTenths(2, 3) == 667 && Fixed1(667) == "66.7"
    ensures PercentTenths(1, 16) == 63 && Fixed1(63) == "6.3"
  {
    assert NatToString(80) == "80";
    assert NatToString(33) == "33";
    assert NatToString(66) == "66";
    assert NatToString(6) == "6";
  }
}
