/**
 * Decimal rendering of event counters. A key's suffix is the counter
 * written the way JavaScript converts a non-negative integer to a string:
 * base ten, no sign, no leading zeros. ParseDecimal reads such a rendering
 * back, and the two are proved to be inverse to each other, which is what
 * makes distinct counters give distinct keys.
 */
module Decimal {
  import opened Wrappers

  predicate IsDigit(c: char) {
    '0' <= c <= '9'
  }

  predicate AllDigits(s: string) {
    forall i :: 0 <= i < |s| ==> IsDigit(s[i])
  }

  function DigitValue(c: char): (d: nat)
    requires IsDigit(c)
    ensures d < 10
  {
    c as int - '0' as int
  }

  function DigitChar(d: nat): (c: char)
    requires d < 10
    ensures IsDigit(c) && DigitValue(c) == d
  {
    ('0' as int + d) as char
  }

  /** The decimal rendering of `n`: at least one digit, and a leading '0' only for zero itself. */
  function NatToString(n: nat): (s: string)
    ensures |s| >= 1 && AllDigits(s)
    ensures s[0] == '0' <==> n == 0
    decreases n
  {
    if n < 10 then [DigitChar(n)] else NatToString(n / 10) + [DigitChar(n % 10)]
  }

  /** The number a string of digits denotes, most significant digit first. */
  function DigitsValue(s: string): nat
    requires AllDigits(s)
  {
    if s == [] then 0 else DigitsValue(s[..|s| - 1]) * 10 + DigitValue(s[|s| - 1])
  }

  /** A canonical rendering: non-empty, digits only, no superfluous leading zero. */
  predicate IsCanonical(s: string) {
    |s| >= 1 && AllDigits(s) && (s[0] == '0' ==> |s| == 1)
  }

  function ParseDecimal(s: string): Option<nat> {
    if IsCanonical(s) then Some(DigitsValue(s)) else None
  }

  lemma {:induction false} DigitsValueOfNatToString(n: nat)
    ensures DigitsValue(NatToString(n)) == n
    decreases n
  {
    var s := NatToString(n);
    if n < 10 {
      assert s[..|s| - 1] == [];
    } else {
      DigitsValueOfNatToString(n / 10);
      assert s[..|s| - 1] == NatToString(n / 10);
    }
  }

  /** Reading a rendering back gives the number rendered. */
  lemma ParseNatToString(n: nat)
    ensures ParseDecimal(NatToString(n)) == Some(n)
  {
    DigitsValueOfNatToString(n);
  }

  /** Every canonical string is the rendering of the number it denotes. */
  lemma {:induction false} NatToStringOfParse(s: string, n: nat)
    requires ParseDecimal(s) == Some(n)
    ensures NatToString(n) == s
    decreases |s|
  {
    var last := s[|s| - 1];
    var t := s[..|s| - 1];
    assert n == DigitsValue(t) * 10 + DigitValue(last);
    if |s| == 1 {
      assert t == [];
      assert NatToString(n) == [DigitChar(DigitValue(last))];
    } else {
      assert t[0] == s[0];
      var v := DigitsValue(t);
      assert ParseDecimal(t) == Some(v);
      NatToStringOfParse(t, v);
      assert v != 0;
      assert n / 10 == v && n % 10 == DigitValue(last);
      assert s == t + [last];
    }
  }

  /** Distinct numbers have distinct renderings. */
  lemma NatToStringInjective(m: nat, n: nat)
    requires NatToString(m) == NatToString(n)
    ensures m == n
  {
    ParseNatToString(m);
    ParseNatToString(n);
  }
}
