/**
 * Serialised ordering values. The session stores its cursor as a string
 * (convertOrderingValueToString, i.e. `toString()`); ordering values are
 * modelled as natural numbers, so `toString()` is their decimal rendering,
 * and the ID loader reads the cursor back with ParseDecimal.
 */
module Decimal {

  predicate IsDigit(c: char) {
    '0' <= c <= '9'
  }

  /** A non-empty string of decimal digits. */
  predicate IsDecimal(s: string) {
    |s| > 0 && forall i :: 0 <= i < |s| ==> IsDigit(s[i])
  }

  function DigitValue(c: char): (d: nat)
    requires IsDigit(c)
    ensures d < 10
  {
    c as int - '0' as int
  }

  function DigitChar(d: nat): (c: char)
    requires d < 10
    ensures IsDigit(c) && DigitValue(c) == d
  {
    ('0' as int + d) as char
  }

  /** `toString()` of an ordering value: no sign, no leading zero. */
  function ToDecimal(n: nat): (s: string)
    ensures IsDecimal(s)
    ensures s[0] == '0' ==> n == 0 && |s| == 1
    decreases n
  {
    if n < 10 then [DigitChar(n)] else ToDecimal(n / 10) + [DigitChar(n % 10)]
  }

  function Pow10(k: nat): (p: nat)
    ensures p > 0
  {
    if k == 0 then 1 else 10 * Pow10(k - 1)
  }

  /**
   * Reads a serialised ordering value back: a value below 10^|s|, and at
   * least 10^(|s| - 1) when there is no leading zero.
   */
  function ParseDecimal(s: string): (n: nat)
    requires IsDecimal(s)
    ensures n < Pow10(|s|)
    ensures |s| > 1 && s[0] != '0' ==> Pow10(|s| - 1) <= n
    decreases |s|
  {
    if |s| == 1 then DigitValue(s[0])
    else
      var p := ParseDecimal(s[..|s| - 1]);
      assert s[..|s| - 1][0] == s[0];
      assert p * 10 + DigitValue(s[|s| - 1]) < Pow10(|s|) by {
        assert p + 1 <= Pow10(|s| - 1);
        assert (p + 1) * 10 <= Pow10(|s| - 1) * 10;
      }
      assert s[0] != '0' ==> Pow10(|s| - 1) <= p * 10 by {
        if s[0] != '0' && |s| > 2 {
          assert Pow10(|s| - 2) * 10 <= p * 10;
        }
      }
      p * 10 + DigitValue(s[|s| - 1])
  }

  /** The cursor written by toString() is read back as the same value. */
  lemma {:induction false} ParseToDecimal(n: nat)
    ensures ParseDecimal(ToDecimal(n)) == n
    decreases n
  {
    if n >= 10 {
      var s := ToDecimal(n);
      assert s[..|s| - 1] == ToDecimal(n / 10);
      ParseToDecimal(n / 10);
    }
  }

  /** Distinct ordering values are serialised to distinct cursors. */
  lemma ToDecimalInjective(m: nat, n: nat)
    ensures ToDecimal(m) == ToDecimal(n) <==> m == n
  {
    ParseToDecimal(m);
    ParseToDecimal(n);
  }
}
