/**
 * Decimal rendering and parsing of integers, as Python's f-string `{n}` and
 * `int(str)` do them, plus the few string helpers the dashboard needs.
 */
module Text {
  import opened Wrappers

  predicate IsDigit(c: char) { '0' <= c <= '9' }

  predicate AllDigits(s: string) { forall k :: 0 <= k < |s| ==> IsDigit(s[k]) }

  function DigitChar(d: int): (c: char)
    requires 0 <= d < 10
    ensures IsDigit(c) && DigitValue(c) == d
  {
    "0123456789"[d]
  }

  function DigitValue(c: char): int
    requires IsDigit(c)
  {
    c as int - '0' as int
  }

  /** The decimal digits of `n`, most significant first, with no leading zero. */
  function NatToString(n: nat): (s: string)
    ensures |s| >= 1 && AllDigits(s)
    decreases n
  {
    if n < 10 then [DigitChar(n)] else NatToString(n / 10) + [DigitChar(n % 10)]
  }

  /** Python's `str(i)` for an int: a minus sign in front of a negative number. */
  function IntToString(i: int): (s: string)
    ensures |s| >= 1
    ensures i < 0 <==> s[0] == '-'
    ensures forall k :: 0 < k < |s| ==> IsDigit(s[k])
  {
    if i < 0 then "-" + NatToString(-i) else NatToString(i)
  }

  /** The value of a string of decimal digits (leading zeros allowed, as `int("0123")`). */
  function DigitsValue(s: string): nat
    requires AllDigits(s)
  {
    if |s| == 0 then 0 else DigitsValue(s[..|s| - 1]) * 10 + DigitValue(s[|s| - 1])
  }

  lemma {:induction false} DigitsValueOfNatToString(n: nat)
    ensures DigitsValue(NatToString(n)) == n
    decreases n
  {
    if n >= 10 {
      var s := NatToString(n);
      assert s[..|s| - 1] == NatToString(n / 10);
      DigitsValueOfNatToString(n / 10);
    }
  }

  /** The characters Python's `int()` skips around a number (the ASCII ones). */
  predicate IsSpace(c: char) {
    c == ' ' || c == '\t' || c == '\n' || c == '\r' || c == '\U{000B}' || c == '\U{000C}'
  }

  function TrimLeft(s: string): (r: string)
    ensures |r| <= |s| && (|r| > 0 ==> !IsSpace(r[0]))
    ensures r == s[|s| - |r|..]
  {
    if |s| > 0 && IsSpace(s[0]) then TrimLeft(s[1..]) else s
  }

  function TrimRight(s: string): (r: string)
    ensures |r| <= |s| && (|r| > 0 ==> !IsSpace(r[|r| - 1]))
    ensures r == s[..|r|]
  {
    if |s| > 0 && IsSpace(s[|s| - 1]) then TrimRight(s[..|s| - 1]) else s
  }

  /**
   * Python's `int(s)` on a string: surrounding whitespace, an optional sign
   * and at least one decimal digit; anything else raises ValueError (None).
   */
  function ParseInt(s: string): (r: Option<int>)
    ensures r.Some? ==> |s| > 0
  {
    ParseTrimmed(TrimRight(TrimLeft(s)))
  }

  /** `int()` once the surrounding whitespace is gone. */
  function ParseTrimmed(t: string): (r: Option<int>)
    ensures r.Some? ==> |t| > 0
  {
    if |t| == 0 then None
    else if t[0] == '-' || t[0] == '+' then
      if |t| > 1 && AllDigits(t[1..]) then
        Some(if t[0] == '-' then -(DigitsValue(t[1..]) as int) else DigitsValue(t[1..]))
      else None
    else if AllDigits(t) then Some(DigitsValue(t))
    else None
  }

  lemma TrimKeeps(s: string)
    requires |s| > 0 && !IsSpace(s[0]) && !IsSpace(s[|s| - 1])
    ensures TrimRight(TrimLeft(s)) == s
  {
  }

  lemma ParseUnsigned(d: string)
    requires |d| > 0 && AllDigits(d)
    ensures ParseInt(d) == Some(DigitsValue(d) as int)
  {
    TrimKeeps(d);
    assert !IsDigit('-') && !IsDigit('+');
  }

  lemma ParseNegative(d: string)
    requires |d| > 0 && AllDigits(d)
    ensures ParseInt("-" + d) == Some(-(DigitsValue(d) as int))
  {
    NegativeTrimmed(d);
    NegativeParsed(d);
  }

  lemma NegativeTrimmed(d: string)
    requires |d| > 0 && AllDigits(d)
    ensures TrimRight(TrimLeft("-" + d)) == "-" + d
  {
    var s := "-" + d;
    assert s[|s| - 1] == d[|d| - 1];
    TrimKeeps(s);
  }

  lemma NegativeParsed(d: string)
    requires |d| > 0 && AllDigits(d)
    ensures ParseTrimmed("-" + d) == Some(-(DigitsValue(d) as int))
  {
    assert ("-" + d)[1..] == d;
  }

  /** Rendering an int and parsing it back gives the int. */
  lemma ParseIntOfIntToString(i: int)
    ensures ParseInt(IntToString(i)) == Some(i)
  {
    if i < 0 {
      ParseIntOfNegative(i);
    } else {
      ParseIntOfNonNegative(i);
    }
  }

  lemma ParseIntOfNegative(i: int)
    requires i < 0
    ensures ParseInt(IntToString(i)) == Some(i)
  {
    DigitsValueOfNatToString(-i);
    NegativeTrimmed(NatToString(-i));
    NegativeParsed(NatToString(-i));
  }

  lemma ParseIntOfNonNegative(i: nat)
    ensures ParseInt(IntToString(i)) == Some(i)
  {
    var d := NatToString(i);
    DigitsValueOfNatToString(i);
    ParseUnsigned(d);
    assert ParseInt(d) == Some(i);
  }

  /** Python's `sep.join(parts)`. */
  function Join(sep: string, parts: seq<string>): string
  {
    if |parts| == 0 then ""
    else if |parts| == 1 then parts[0]
    else parts[0] + sep + Join(sep, parts[1..])
  }

  /** Python's `s.startswith(prefix)`. */
  predicate StartsWith(s: string, prefix: string) {
    |prefix| <= |s| && s[..|prefix|] == prefix
  }

  /** Python's `s.endswith(suffix)`. */
  predicate EndsWith(s: string, suffix: string) {
    |suffix| <= |s| && s[|s| - |suffix|..] == suffix
  }
}
