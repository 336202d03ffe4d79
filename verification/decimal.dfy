/**
 * Decimal text of natural numbers, as JavaScript prints a counter inside a
 * template literal, and reading such a number back from the end of a string.
 */
module Decimal {
  predicate IsDigit(c: char) {
    '0' <= c <= '9'
  }

  predicate AllDigits(s: string) {
    forall i :: 0 <= i < |s| ==> IsDigit(s[i])
  }

  function DigitChar(d: nat): (c: char)
    requires d < 10
    ensures IsDigit(c)
  {
    ('0' as int + d) as char
  }

  function DigitValue(c: char): (d: nat)
    requires IsDigit(c)
    ensures d < 10 && DigitChar(d) == c
  {
    c as int - '0' as int
  }

  /** The shortest decimal numeral of `n`: at least one digit, no leading zero. */
  function FromNat(n: nat): (s: string)
    ensures |s| >= 1 && AllDigits(s)
    ensures s[0] == '0' ==> n == 0
  {
    if n < 10 then [DigitChar(n)] else FromNat(n / 10) + [DigitChar(n % 10)]
  }

  /** The value of a string of decimal digits. */
  function ToNat(s: string): nat
    requires AllDigits(s)
  {
    if s == [] then 0 else 10 * ToNat(s[..|s| - 1]) + DigitValue(s[|s| - 1])
  }

  /** Reading back the numeral of `n` gives `n`. */
  lemma {:induction false} ToNatFromNat(n: nat)
    ensures ToNat(FromNat(n)) == n
  {
    var s := FromNat(n);
    if n < 10 {
      assert s[..0] == [];
    } else {
      assert s[..|s| - 1] == FromNat(n / 10);
      ToNatFromNat(n / 10);
    }
  }

  /** The longest run of digits at the end of `s`. */
  function TrailingDigits(s: string): (d: string)
    ensures AllDigits(d) && |d| <= |s| && d == s[|s| - |d|..]
    ensures |d| < |s| ==> !IsDigit(s[|s| - |d| - 1])
  {
    if s != [] && IsDigit(s[|s| - 1]) then TrailingDigits(s[..|s| - 1]) + [s[|s| - 1]] else []
  }

  /** The number written at the end of `s` (0 when `s` does not end in a digit). */
  function TrailingNumber(s: string): nat {
    ToNat(TrailingDigits(s))
  }

  /** After a non-digit, the trailing digit run of `prefix + d` is all of `d`. */
  lemma {:induction false} TrailingDigitsAfter(prefix: string, d: string)
    requires prefix != [] && !IsDigit(prefix[|prefix| - 1]) && AllDigits(d)
    ensures TrailingDigits(prefix + d) == d
    decreases |d|
  {
    if d == [] {
      assert prefix + d == prefix;
    } else {
      var s := prefix + d;
      var init := d[..|d| - 1];
      assert s[..|s| - 1] == prefix + init;
      TrailingDigitsAfter(prefix, init);
      assert d == init + [d[|d| - 1]];
    }
  }

  /**
   * After any text that ends in a non-digit, the numeral of `n` is read back as
   * `n`: the separator stops the digit run.
   */
  lemma TrailingNumberAfter(prefix: string, n: nat)
    requires prefix != [] && !IsDigit(prefix[|prefix| - 1])
    ensures TrailingNumber(prefix + FromNat(n)) == n
  {
    TrailingDigitsAfter(prefix, FromNat(n));
    ToNatFromNat(n);
  }
}
