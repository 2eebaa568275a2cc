/** Decimal rendering of integers, as JavaScript template strings print them,
    and the parser that inverts it. Used by the ETA text ("N min", "Hh Mm")
    and by the auto-created driver name ("AutoDriver_<id>"). */
module Digits {
  import opened Common

  predicate IsDigit(c: char)
  {
    '0' <= c <= '9'
  }

  predicate AllDigits(s: string)
  {
    forall i :: 0 <= i < |s| ==> IsDigit(s[i])
  }

  function DigitChar(d: nat): (c: char)
    requires d < 10
    ensures IsDigit(c) && c as int - '0' as int == d
  {
    ('0' as int + d) as char
  }

  function DigitValue(c: char): nat
    requires IsDigit(c)
  {
    c as int - '0' as int
  }

  /** Decimal text of a natural number, without leading zeros. */
  function NatToString(n: nat): (s: string)
    ensures |s| >= 1 && AllDigits(s)
    ensures (n < 10) == (|s| == 1)
    decreases n
  {
    if n < 10 then [DigitChar(n)] else NatToString(n / 10) + [DigitChar(n % 10)]
  }

  /** The number a non-empty digit string denotes. */
  function DigitsValue(s: string): nat
    requires AllDigits(s)
    decreases |s|
  {
    if s == [] then 0 else DigitsValue(s[..|s| - 1]) * 10 + DigitValue(s[|s| - 1])
  }

  function ParseNat(s: string): Option<nat>
  {
    if s != [] && AllDigits(s) then Some(DigitsValue(s)) else None
  }

  /** The longest prefix of `s` made of digits. */
  function DigitPrefix(s: string): (d: string)
    ensures |d| <= |s| && d == s[..|d|] && AllDigits(d)
    ensures |d| < |s| ==> !IsDigit(s[|d|])
  {
    if s != [] && IsDigit(s[0]) then [s[0]] + DigitPrefix(s[1..]) else []
  }

  /** A character `parseInt` skips before the number: JavaScript white
      space (tab, vertical tab, form feed, space, no-break space, the byte
      order mark and the other space separators) and line terminators. */
  predicate IsJsSpace(c: char)
  {
    var n := c as int;
    || n == 0x09 || n == 0x0A || n == 0x0B || n == 0x0C || n == 0x0D || n == 0x20 || n == 0xA0
    || n == 0x1680 || 0x2000 <= n <= 0x200A || n == 0x2028 || n == 0x2029 || n == 0x202F
    || n == 0x205F || n == 0x3000 || n == 0xFEFF
  }

  /** The text after its leading white space. */
  function SkipSpaces(s: string): (t: string)
    ensures |t| <= |s| && t == s[|s| - |t|..]
    ensures t == [] || !IsJsSpace(t[0])
    ensures forall i :: 0 <= i < |s| - |t| ==> IsJsSpace(s[i])
  {
    if s != [] && IsJsSpace(s[0]) then
      var t := SkipSpaces(s[1..]);
      assert forall i :: 1 <= i < |s| - |t| ==> s[1..][i - 1] == s[i];
      t
    else s
  }

  /** The value of the longest run of digits at the start of `t`; None
      when there is none. */
  function ReadDigits(t: string): Option<int>
  {
    var d := DigitPrefix(t);
    if d == [] then None else Some(DigitsValue(d))
  }

  /** JavaScript `parseInt(s)` on decimal text: leading spaces are skipped,
      then an optional sign and the longest sequence of digits is read and the
      rest ignored; None stands for NaN (no digit at all). */
  function JsParseInt(s: string): Option<int>
  {
    ParseSigned(SkipSpaces(s))
  }

  /** An optional sign, then the longest sequence of digits. */
  function ParseSigned(t: string): Option<int>
  {
    if t != [] && (t[0] == '-' || t[0] == '+') then
      match ReadDigits(t[1..])
      case None => None
      case Some(n) => if t[0] == '-' then Some(0 - n) else Some(n)
    else ReadDigits(t)
  }

  /** The digits of a number followed by anything that is not a digit. */
  lemma {:induction false} DigitPrefixOfDigits(d: string, rest: string)
    requires AllDigits(d)
    requires rest == [] || !IsDigit(rest[0])
    ensures DigitPrefix(d + rest) == d
    decreases |d|
  {
    if d != [] {
      assert (d + rest)[1..] == d[1..] + rest;
      DigitPrefixOfDigits(d[1..], rest);
      assert d == [d[0]] + d[1..];
    } else {
      assert d + rest == rest;
    }
  }

  /** parseInt reads an id back from its decimal text, whatever non-digit
      text follows it ("12", "12abc", "12/x"). */
  lemma JsParseIntReadsId(n: nat, rest: string)
    requires rest == [] || !IsDigit(rest[0])
    ensures JsParseInt(NatToString(n) + rest) == Some(n)
  {
    var d := NatToString(n);
    var s := d + rest;
    NatRoundTrip(n);
    assert DigitsValue(d) == n;
    DigitPrefixOfDigits(d, rest);
    JsParseIntUnsigned(s, d);
  }

  lemma JsParseIntUnsigned(s: string, d: string)
    requires s != [] && IsDigit(s[0]) && DigitPrefix(s) == d
    ensures JsParseInt(s) == Some(DigitsValue(d))
  {
    var n := ReadDigitsOf(s, d);
    SkipSpacesNoop(s);
    assert s[0] != '-' && s[0] != '+';
  }

  lemma SkipSpacesNoop(s: string)
    requires s != [] && !IsJsSpace(s[0])
    ensures SkipSpaces(s) == s
  {
  }

  lemma ReadDigitsOf(s: string, d: string) returns (n: int)
    requires s != [] && IsDigit(s[0]) && DigitPrefix(s) == d
    ensures n == DigitsValue(d) && ReadDigits(s) == Some(n)
  {
    assert d != [];
    n := DigitsValue(d);
  }

  /** parseInt is NaN exactly when, after the leading white space, there
      is nothing, or a character that is neither a digit nor a sign, or a
      sign that no digit follows ("abc", "", "-x", " +"). */
  lemma JsParseIntRejectsWords(s: string)
    ensures var t := SkipSpaces(s);
      JsParseInt(s).None? <==>
        t == [] || (!IsDigit(t[0]) && ((t[0] == '-' || t[0] == '+') ==> |t| == 1 || !IsDigit(t[1])))
  {
    var t := SkipSpaces(s);
    if t != [] && (t[0] == '-' || t[0] == '+') && |t| > 1 {
      assert t[1..][0] == t[1];
    }
  }

  /** Leading white space of any kind is skipped: "\\t5", "\\n 5" and "5"
      read the same. */
  lemma {:induction false} JsParseIntSkipsWhiteSpace(w: string, s: string)
    requires forall i :: 0 <= i < |w| ==> IsJsSpace(w[i])
    ensures JsParseInt(w + s) == JsParseInt(s)
  {
    SkipSpacesOfWhiteSpace(w, s);
  }

  lemma {:induction false} SkipSpacesOfWhiteSpace(w: string, s: string)
    requires forall i :: 0 <= i < |w| ==> IsJsSpace(w[i])
    ensures SkipSpaces(w + s) == SkipSpaces(s)
    decreases |w|
  {
    if w != [] {
      assert (w + s)[0] == w[0];
      assert (w + s)[1..] == w[1..] + s;
      SkipSpacesOfWhiteSpace(w[1..], s);
    } else {
      assert w + s == s;
    }
  }

  /** Reading back the decimal text of `n` gives `n`. */
  lemma {:induction false} NatRoundTrip(n: nat)
    ensures ParseNat(NatToString(n)) == Some(n)
    decreases n
  {
    var s := NatToString(n);
    if n >= 10 {
      NatRoundTrip(n / 10);
      assert s[..|s| - 1] == NatToString(n / 10);
      assert DigitValue(s[|s| - 1]) == n % 10;
      assert DigitsValue(s) == (n / 10) * 10 + n % 10;
    } else {
      assert DigitsValue(s) == DigitsValue([]) * 10 + DigitValue(s[0]);
    }
  }

  /** Different numbers have different decimal texts. */
  lemma NatToStringInjective(a: nat, b: nat)
    requires NatToString(a) == NatToString(b)
    ensures a == b
  {
    NatRoundTrip(a);
    NatRoundTrip(b);
  }
}
