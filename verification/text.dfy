/**
 Decimal rendering of integers, as Python's `str(int)` produces it for the
 axis and option labels ("Day 5", "Month 6"), with a parser that inverts it.
 */
module Text {
  import opened Wrappers

  predicate IsDigit(c: char) {
    '0' <= c <= '9'
  }

  predicate AllDigits(s: string) {
    forall i :: 0 <= i < |s| ==> IsDigit(s[i])
  }

  function DigitChar(d: nat): (c: char)
    requires d < 10
    ensures IsDigit(c)
  {
    ('0' as int + d) as char
  }

  function DigitValue(c: char): nat
    requires IsDigit(c)
  {
    c as int - '0' as int
  }

  /** The decimal digits of `n`, most significant first, without leading zeros. */
  function NatToString(n: nat): (s: string)
    ensures |s| > 0 && AllDigits(s)
    ensures s[0] == '0' ==> s == "0"
    ensures n < 10 <==> |s| == 1
  {
    if n < 10 then [DigitChar(n)]
    else
      var prefix := NatToString(n / 10);
      prefix + [DigitChar(n % 10)]
  }

  /** The number a string of decimal digits denotes. */
  function DigitsValue(s: string): nat
    requires AllDigits(s)
  {
    if |s| == 0 then 0
    else 10 * DigitsValue(s[..|s| - 1]) + DigitValue(s[|s| - 1])
  }

  /** Python's `str` on an `int`: a minus sign for negatives, then the digits. */
  function IntToString(n: int): (s: string)
    ensures |s| > 0
    ensures n >= 0 <==> s[0] != '-'
  {
    if n < 0 then "-" + NatToString(-n) else NatToString(n)
  }

  /** Reads back an optionally signed decimal integer; `None` for anything else. */
  function ParseInt(s: string): Option<int> {
    if |s| > 1 && s[0] == '-' && AllDigits(s[1..]) then Some(0 - DigitsValue(s[1..]) as int)
    else if |s| > 0 && AllDigits(s) then Some(DigitsValue(s))
    else None
  }

  /** The digits `NatToString` writes denote `n` again. */
  lemma {:induction false} NatToStringValue(n: nat)
    ensures DigitsValue(NatToString(n)) == n
  {
    if n >= 10 {
      var s := NatToString(n);
      NatToStringValue(n / 10);
      assert s[..|s| - 1] == NatToString(n / 10);
      assert DigitValue(s[|s| - 1]) == n % 10;
    }
  }

  /** Parsing the rendering of any integer gives that integer back. */
  lemma IntToStringRoundTrip(n: int)
    ensures ParseInt(IntToString(n)) == Some(n)
  {
    var s := IntToString(n);
    if n < 0 {
      var digits := NatToString(-n);
      assert s[1..] == digits;
      NatToStringValue(-n);
      assert ParseInt(s) == Some(0 - DigitsValue(digits) as int);
    } else {
      NatToStringValue(n);
      assert IsDigit(s[0]);
      assert ParseInt(s) == Some(DigitsValue(s));
    }
  }

  /** Distinct integers have distinct renderings. */
  lemma IntToStringInjective(a: int, b: int)
    requires IntToString(a) == IntToString(b)
    ensures a == b
  {
    IntToStringRoundTrip(a);
    IntToStringRoundTrip(b);
  }

  /** A fixed prefix followed by the rendering of `n`, as in `'Day ' + str(n)`. */
  function Label(prefix: string, n: int): string {
    prefix + IntToString(n)
  }

  /** The number can be read back from the text after the prefix of a label. */
  lemma LabelRoundTrip(prefix: string, n: int)
    ensures |Label(prefix, n)| > |prefix|
    ensures Label(prefix, n)[..|prefix|] == prefix
    ensures ParseInt(Label(prefix, n)[|prefix|..]) == Some(n)
  {
    assert Label(prefix, n)[|prefix|..] == IntToString(n);
    IntToStringRoundTrip(n);
  }

  /** Labels with the same prefix are equal only for equal numbers. */
  lemma LabelInjective(prefix: string, a: int, b: int)
    requires Label(prefix, a) == Label(prefix, b)
    ensures a == b
  {
    assert Label(prefix, a)[|prefix|..] == IntToString(a);
    assert Label(prefix, b)[|prefix|..] == IntToString(b);
    IntToStringInjective(a, b);
  }
}
