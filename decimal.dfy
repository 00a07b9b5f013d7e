/** Python's `str(n)` for a non-negative integer: the canonical decimal
    numeral that the store uses as the key of a revision. */
module Decimal {

  predicate IsDigit(c: char) {
    '0' <= c <= '9'
  }

  /** A non-empty string of decimal digits. */
  predicate IsDecimal(s: string) {
    |s| > 0 && forall i :: 0 <= i < |s| ==> IsDigit(s[i])
  }

  /** A decimal numeral as `str` prints it: no leading zero unless it is "0". */
  predicate IsCanonical(s: string) {
    IsDecimal(s) && (s[0] == '0' ==> s == "0")
  }

  function DigitChar(d: nat): (c: char)
    requires d < 10
    ensures IsDigit(c) && c as int - '0' as int == d
  {
    ('0' as int + d) as char
  }

  function DigitValue(c: char): (d: nat)
    requires IsDigit(c)
    ensures d < 10 && DigitChar(d) == c
  {
    c as int - '0' as int
  }

  /** `str(n)`: the most significant digit first, no leading zeros. */
  function NatToDecimal(n: nat): (s: string)
    ensures IsCanonical(s)
    ensures (n < 10) == (|s| == 1)
    decreases n
  {
    if n < 10 then [DigitChar(n)] else NatToDecimal(n / 10) + [DigitChar(n % 10)]
  }

  /** `int(s)` for a string of digits (leading zeros allowed, as Python allows them). */
  function DecimalToNat(s: string): (n: nat)
    requires IsDecimal(s)
    decreases |s|
  {
    if |s| == 1 then DigitValue(s[0])
    else 10 * DecimalToNat(s[..|s| - 1]) + DigitValue(s[|s| - 1])
  }

  /** Reading back a printed timestamp gives the timestamp. */
  lemma {:induction false} DecimalToNatOfNatToDecimal(n: nat)
    ensures DecimalToNat(NatToDecimal(n)) == n
    decreases n
  {
    if n >= 10 {
      var s := NatToDecimal(n);
      assert s[..|s| - 1] == NatToDecimal(n / 10);
      DecimalToNatOfNatToDecimal(n / 10);
    }
  }

  /** A numeral whose first digit is not '0' denotes a positive number. */
  lemma {:induction false} LeadingDigitPositive(s: string)
    requires IsDecimal(s) && s[0] != '0'
    ensures DecimalToNat(s) >= 1
    decreases |s|
  {
    if |s| > 1 {
      LeadingDigitPositive(s[..|s| - 1]);
    }
  }

  /** Every canonical numeral is what `str` prints for its value: the keys
      `str` produces are exactly the canonical numerals. */
  lemma {:induction false} NatToDecimalOfDecimalToNat(s: string)
    requires IsCanonical(s)
    ensures NatToDecimal(DecimalToNat(s)) == s
    decreases |s|
  {
    if |s| > 1 {
      var prefix := s[..|s| - 1];
      assert IsCanonical(prefix);
      LeadingDigitPositive(prefix);
      NatToDecimalOfDecimalToNat(prefix);
      var n := DecimalToNat(s);
      assert n / 10 == DecimalToNat(prefix) && n % 10 == DigitValue(s[|s| - 1]);
      assert prefix + [s[|s| - 1]] == s;
    }
  }

  /** Distinct timestamps are printed as distinct keys. */
  lemma NatToDecimalInjective(m: nat, n: nat)
    requires NatToDecimal(m) == NatToDecimal(n)
    ensures m == n
  {
    DecimalToNatOfNatToDecimal(m);
    DecimalToNatOfNatToDecimal(n);
  }
}
