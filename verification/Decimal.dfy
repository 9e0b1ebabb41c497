/** Decimal digits: printing naturals, with and without a fixed width, and reading them back. */
module Decimal {

  predicate IsDigit(c: char) { '0' <= c <= '9' }

  predicate AllDigits(s: string) { forall i :: 0 <= i < |s| ==> IsDigit(s[i]) }

  function DigitValue(c: char): (d: nat)
    requires IsDigit(c)
    ensures d < 10
  {
    c as int - '0' as int
  }

  function DigitChar(d: nat): (c: char)
    requires d < 10
    ensures IsDigit(c) && DigitValue(c) == d
  {
    (d + '0' as int) as char
  }

  function Value(s: string): nat
    requires AllDigits(s)
  {
    if s == [] then 0 else 10 * Value(s[..|s| - 1]) + DigitValue(s[|s| - 1])
  }

  /** n in decimal without leading zeros. */
  function Text(n: nat): (s: string)
    ensures s != [] && AllDigits(s)
  {
    if n < 10 then [DigitChar(n)] else Text(n / 10) + [DigitChar(n % 10)]
  }

  /** The last w decimal digits of n. */
  function Fixed(n: nat, w: nat): (s: string)
    ensures |s| == w && AllDigits(s)
  {
    if w == 0 then [] else Fixed(n / 10, w - 1) + [DigitChar(n % 10)]
  }

  function Pow10(w: nat): (p: nat)
    ensures p >= 1
  {
    if w == 0 then 1 else 10 * Pow10(w - 1)
  }

  lemma ValueSnoc(s: string, c: char)
    requires AllDigits(s) && IsDigit(c)
    ensures AllDigits(s + [c]) && Value(s + [c]) == 10 * Value(s) + DigitValue(c)
  {
    assert (s + [c])[..|s|] == s;
  }

  lemma TenTimes(n: nat, p: nat)
    ensures n == 10 * (n / 10) + n % 10
    ensures n < 10 * p ==> n / 10 < p
  {
  }

  lemma {:induction false} TextValue(n: nat)
    ensures Value(Text(n)) == n
  {
    hide Value;
    if n >= 10 {
      TextValue(n / 10);
      ValueSnoc(Text(n / 10), DigitChar(n % 10));
    } else {
      ValueSnoc([], DigitChar(n));
      NothingIsZero();
      assert [] + [DigitChar(n)] == [DigitChar(n)];
    }
  }

  lemma NothingIsZero()
    ensures Value([]) == 0
  {
  }

  lemma {:induction false} FixedValue(n: nat, w: nat)
    requires n < Pow10(w)
    ensures Value(Fixed(n, w)) == n
  {
    if w == 0 {
      NothingIsZero();
    } else {
      TenTimes(n, Pow10(w - 1));
      hide Value;
      FixedValue(n / 10, w - 1);
      ValueSnoc(Fixed(n / 10, w - 1), DigitChar(n % 10));
    }
  }

  /** Longer than its fixed width, a number's text is still all digits. */
  lemma {:induction false} TextLength(n: nat, w: nat)
    requires n >= Pow10(w)
    ensures |Text(n)| > w
  {
    if w > 0 && n >= 10 { TextLength(n / 10, w - 1); }
  }
}
