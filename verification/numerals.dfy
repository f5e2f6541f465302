/** Decimal numerals: Python `str(n)` for a non-negative integer and
    Python `int(s)` for a decimal literal. */
module Numerals {
  import opened Outcomes
  import Strings

  predicate IsDigit(c: char)
  {
    '0' <= c <= '9'
  }

  predicate AllDigits(s: string)
  {
    forall k :: 0 <= k < |s| ==> IsDigit(s[k])
  }

  function DigitChar(d: nat): (c: char)
    requires d < 10
    ensures IsDigit(c)
  {
    ('0' as int + d) as char
  }

  function DigitValue(c: char): (d: nat)
    requires IsDigit(c)
    ensures d < 10 && DigitChar(d) == c
  {
    c as int - '0' as int
  }

  /** Python `str(n)`: decimal digits, most significant first, without
      leading zeros. */
  function NatToString(n: nat): (r: string)
    ensures |r| > 0 && AllDigits(r)
    ensures r[0] == '0' <==> n == 0
  {
    if n < 10 then [DigitChar(n)] else NatToString(n / 10) + [DigitChar(n % 10)]
  }

  /** The value of a string of decimal digits, most significant first. */
  function DigitsValue(s: string): nat
    requires AllDigits(s)
  {
    if s == [] then 0 else 10 * DigitsValue(s[..|s| - 1]) + DigitValue(s[|s| - 1])
  }

  /** Reading back a printed number gives the number. */
  lemma {:induction false} DigitsValueOfNatToString(n: nat)
    ensures DigitsValue(NatToString(n)) == n
  {
    if n >= 10 {
      var s := NatToString(n);
      DigitsValueOfNatToString(n / 10);
      assert s[..|s| - 1] == NatToString(n / 10);
    }
  }

  /** A digit string without a leading zero is what `str` prints for its
      value. */
  lemma {:induction false} NatToStringOfDigitsValue(s: string)
    requires |s| > 0 && AllDigits(s) && s[0] != '0'
    ensures NatToString(DigitsValue(s)) == s
  {
    if |s| > 1 {
      var p := s[..|s| - 1];
      NatToStringOfDigitsValue(p);
      var d := DigitValue(s[|s| - 1]);
      LastDigit(DigitsValue(p), d);
      assert NatToString(DigitsValue(s)) == p + [DigitChar(d)];
      assert s == p + [s[|s| - 1]];
    }
  }

  /** Appending the digit `d` to `a` is undone by dividing by ten. */
  lemma LastDigit(a: nat, d: nat)
    requires a >= 1 && d < 10
    ensures (10 * a + d) / 10 == a && (10 * a + d) % 10 == d && 10 * a + d >= 10
  {
  }

  /** Python `int(s)` for decimal literals: surrounding whitespace is
      stripped, one optional sign is accepted, and at least one ASCII digit
      must follow; anything else is the `ValueError` (`None`). */
  function ParseInt(s: string): (r: Option<int>)
    ensures r.Some? ==> |Strings.Strip(s)| > 0
  {
    var t := Strings.Strip(s);
    if |t| > 0 && (t[0] == '+' || t[0] == '-') then
      var d := t[1..];
      if |d| > 0 && AllDigits(d) then
        var magnitude: int := DigitsValue(d);
        Some(if t[0] == '-' then -magnitude else magnitude)
      else None
    else if |t| > 0 && AllDigits(t) then Some(DigitsValue(t))
    else None
  }

  /** `int(str(n)) == n`. */
  lemma ParseIntOfNatToString(n: nat)
    ensures ParseInt(NatToString(n)) == Some(n)
  {
    var s := NatToString(n);
    assert !Strings.IsPyWhitespace(s[0]) && !Strings.IsPyWhitespace(s[|s| - 1]);
    assert Strings.Strip(s) == s;
    DigitsValueOfNatToString(n);
  }
}
