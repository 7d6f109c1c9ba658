/** Decimal text for integers: `String(n)` / template interpolation of a
    whole number, and `Number(text)` for the texts this model recognises. */
module Decimal {
  import opened Wrappers

  predicate IsDigit(c: char) {
    '0' <= c <= '9'
  }

  predicate AllDigits(s: string) {
    forall i :: 0 <= i < |s| ==> IsDigit(s[i])
  }

  function DigitChar(d: nat): (c: char)
    requires d < 10
    ensures IsDigit(c) && c as int - '0' as int == d
  {
    ('0' as int + d) as char
  }

  function DigitValue(c: char): (d: nat)
    requires IsDigit(c)
    ensures d < 10 && DigitChar(d) == c
  {
    c as int - '0' as int
  }

  /** The decimal digits of `n`, most significant first, without leading
      zeros. */
  function NatToString(n: nat): (s: string)
    ensures |s| >= 1 && AllDigits(s)
    ensures |s| > 1 ==> s[0] != '0'
  {
    if n < 10 then [DigitChar(n)] else NatToString(n / 10) + [DigitChar(n % 10)]
  }

  /** `String(i)` for an integer. */
  function IntToString(i: int): (s: string)
    ensures |s| >= 1
    ensures forall k :: 0 <= k < |s| ==> IsDigit(s[k]) || (k == 0 && s[k] == '-')
  {
    if i < 0 then "-" + NatToString(-i) else NatToString(i)
  }

  /** The value of a string of decimal digits. */
  function DigitsValue(s: string): nat
    requires AllDigits(s)
  {
    if |s| == 0 then 0 else DigitsValue(s[..|s| - 1]) * 10 + DigitValue(s[|s| - 1])
  }

  /** `Number(text)` for the texts a whole-number selection can hold: the
      empty string is 0, an optionally signed run of decimal digits is its
      value, and anything else is `NaN` (here `None`). */
  function ParseNumber(s: string): (r: Option<int>)
    ensures s == "" ==> r == Some(0)
    ensures r.Some? <==> forall k :: 0 <= k < |s| ==> IsDigit(s[k]) || (k == 0 && |s| > 1 && (s[0] == '-' || s[0] == '+'))
    ensures r.Some? && r.value < 0 ==> s[0] == '-'
    ensures AllDigits(s) ==> r == Some(DigitsValue(s))
  {
    if |s| == 0 then Some(0)
    else if (s[0] == '-' || s[0] == '+') && |s| > 1 && AllDigits(s[1..]) then
      var v: int := DigitsValue(s[1..]);
      Some(if s[0] == '-' then -v else v)
    else if AllDigits(s) then Some(DigitsValue(s))
    else None
  }

  /** Reading back the digits of a natural number gives the number. */
  lemma {:induction false} DigitsValueOfNatToString(n: nat)
    ensures DigitsValue(NatToString(n)) == n
  {
    var s := NatToString(n);
    if n >= 10 {
      DigitsValueOfNatToString(n / 10);
      assert s[..|s| - 1] == NatToString(n / 10);
    }
  }

  /** `Number(String(i)) === i` for every integer `i`. */
  lemma ParseNumberOfIntToString(i: int)
    ensures ParseNumber(IntToString(i)) == Some(i)
  {
    var s := IntToString(i);
    if i < 0 {
      DigitsValueOfNatToString(-i);
      assert s[1..] == NatToString(-i);
    } else {
      DigitsValueOfNatToString(i);
    }
  }
}
