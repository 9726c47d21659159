/** ASCII decimal digits: recognising them, reading a run of them as a number,
    and writing a number back as a fixed-width, zero-padded run. */
module Decimal {

  predicate IsDigit(c: char) {
    '0' <= c <= '9'
  }

  predicate AllDigits(s: string) {
    forall i :: 0 <= i < |s| ==> IsDigit(s[i])
  }

  function DigitValue(c: char): (d: nat)
    requires IsDigit(c)
    ensures d < 10
  {
    (c as int - '0' as int) as nat
  }

  function DigitChar(d: nat): (c: char)
    requires d < 10
    ensures IsDigit(c) && DigitValue(c) == d
  {
    ('0' as int + d) as char
  }

  function Pow10(n: nat): (p: nat)
    ensures p >= 1
  {
    if n == 0 then 1 else 10 * Pow10(n - 1)
  }

  /** The value of a digit run read left to right, as Python's int(s, 10). */
  function DigitsValue(s: string): (v: nat)
    requires AllDigits(s)
    ensures v < Pow10(|s|)
  {
    if s == [] then 0
    else DigitsValue(s[..|s| - 1]) * 10 + DigitValue(s[|s| - 1])
  }

  /** n written in exactly w digits, most significant first (`%0wd` when n < 10^w;
      the leading digits of larger numbers are dropped). */
  function Padded(n: nat, w: nat): (s: string)
    ensures |s| == w && AllDigits(s)
  {
    if w == 0 then [] else Padded(n / 10, w - 1) + [DigitChar(n % 10)]
  }

  /** `%0wd` in C's printf: at least w digits, more when n needs them. */
  function ZeroPadded(n: nat, w: nat): (s: string)
    ensures AllDigits(s) && |s| >= w
  {
    Padded(n, if w < Width(n) then Width(n) else w)
  }

  /** The number of digits of n's shortest decimal form (at least one). */
  function Width(n: nat): (w: nat)
    ensures w >= 1 && n < Pow10(w)
    ensures w > 1 ==> Pow10(w - 1) <= n
  {
    if n < 10 then 1 else 1 + Width(n / 10)
  }

  /** Python's str() of an int: a sign for negatives, then the shortest
      digit run that reads back as the magnitude. */
  function IntText(i: int): (s: string)
    ensures |s| >= 1
    ensures i >= 0 ==> AllDigits(s) && DigitsValue(s) == i
    ensures i < 0 ==> s[0] == '-' && AllDigits(s[1..]) && DigitsValue(s[1..]) == -i
  {
    var a: nat := if i < 0 then -i else i;
    var digits := Padded(a, Width(a));
    PaddedValue(a, Width(a));
    if i < 0 then
      Negated(digits);
      "-" + digits
    else digits
  }

  lemma Negated(digits: string)
    ensures |"-" + digits| >= 1 && ("-" + digits)[0] == '-' && ("-" + digits)[1..] == digits
  {
  }

  lemma {:induction false} PaddedValue(n: nat, w: nat)
    requires n < Pow10(w)
    ensures DigitsValue(Padded(n, w)) == n
  {
    if w > 0 {
      var s := Padded(n, w);
      assert s[..|s| - 1] == Padded(n / 10, w - 1);
      PaddedValue(n / 10, w - 1);
    }
  }

  lemma {:induction false} Pow10Add(a: nat, b: nat)
    ensures Pow10(a) * Pow10(b) == Pow10(a + b)
  {
    if a > 0 {
      Pow10Add(a - 1, b);
      calc {
        Pow10(a) * Pow10(b);
        10 * Pow10(a - 1) * Pow10(b);
        10 * (Pow10(a - 1) * Pow10(b));
        10 * Pow10(a - 1 + b);
      }
    }
  }

  /** A run of at most k digits, right-padded with zeros to k digits, stays below 10^k. */
  lemma RightPaddedBound(v: nat, n: nat, k: nat)
    requires n <= k && v < Pow10(n)
    ensures v * Pow10(k - n) < Pow10(k)
  {
    var a, b := Pow10(n), Pow10(k - n);
    Pow10Add(n, k - n);
    MulStrict(v, a, b);
  }

  lemma MulStrict(x: nat, y: nat, m: nat)
    requires x < y && m >= 1
    ensures x * m < y * m
  {
    var d := y - x;
    assert y * m == x * m + d * m;
    MulAtLeast(d, m);
  }

  lemma MulAtLeast(d: nat, m: nat)
    requires d >= 1
    ensures d * m >= m
  {
    assert d * m == (d - 1) * m + m;
  }

  /** `%0wd` of a number that fits in w digits is exactly w digits. */
  lemma ZeroPaddedFits(n: nat, w: nat)
    requires w >= 1 && n < Pow10(w)
    ensures ZeroPadded(n, w) == Padded(n, w)
  {
    WidthAtMost(n, w);
  }

  lemma {:induction false} WidthAtMost(n: nat, w: nat)
    requires w >= 1 && n < Pow10(w)
    ensures Width(n) <= w
  {
    if n >= 10 {
      assert w >= 2;
      WidthAtMost(n / 10, w - 1);
    }
  }

  lemma Padded2(n: nat)
    ensures Padded(n, 2) == [DigitChar(n / 10 % 10), DigitChar(n % 10)]
  {
  }

  lemma Padded4(n: nat)
    ensures Padded(n, 4) == [DigitChar(n / 1000 % 10), DigitChar(n / 100 % 10),
                             DigitChar(n / 10 % 10), DigitChar(n % 10)]
  {
    assert n / 10 / 10 == n / 100 && n / 100 / 10 == n / 1000;
  }

  /** A single digit's text is that digit. */
  lemma IntTextDigit(n: nat)
    requires n < 10
    ensures IntText(n) == [DigitChar(n)]
  {
    assert Width(n) == 1;
    assert Padded(n, 1) == Padded(n / 10, 0) + [DigitChar(n % 10)];
    assert n % 10 == n;
  }
}
