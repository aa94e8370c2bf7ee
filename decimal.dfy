/**
  Decimal digit strings: the textual form of integers used by the date
  parser (`%Y`, `%m`, `%d`) and by Rust's `{:03}` week formatting.
  The value function `Value` is the reading direction; `Decimal` (shortest
  form) and `Fixed` (exact width, zero-filled) are the writing directions.
*/
module DecimalText {

  predicate IsDigit(c: char) { '0' <= c <= '9' }

  predicate IsDigits(s: string) { forall i :: 0 <= i < |s| ==> IsDigit(s[i]) }

  function DigitValue(c: char): (d: nat)
    requires IsDigit(c)
    ensures d <= 9
  {
    (c as int) - ('0' as int)
  }

  function DigitChar(d: nat): (c: char)
    requires d <= 9
    ensures IsDigit(c) && DigitValue(c) == d
  {
    (('0' as int) + d) as char
  }

  function Pow10(k: nat): (p: nat)
    ensures p >= 1
  {
    if k == 0 then 1 else 10 * Pow10(k - 1)
  }

  lemma {:induction false} Pow10Monotone(i: nat, j: nat)
    requires i <= j
    ensures Pow10(i) <= Pow10(j)
  {
    if i < j { Pow10Monotone(i, j - 1); }
  }

  /** The number a string of decimal digits denotes, most significant first. */
  function Value(s: string): (v: nat)
    requires IsDigits(s)
    ensures v < Pow10(|s|)
  {
    if s == [] then 0 else 10 * Value(s[..|s| - 1]) + DigitValue(s[|s| - 1])
  }

  /** `k` zero digits. */
  function Zeros(k: nat): (z: string)
    ensures |z| == k && IsDigits(z)
    ensures forall i :: 0 <= i < k ==> z[i] == '0'
  {
    if k == 0 then [] else Zeros(k - 1) + "0"
  }

  /** The shortest decimal form of `n`, as Rust's `Display` for integers writes it. */
  function Decimal(n: nat): (s: string)
    ensures 1 <= |s| && IsDigits(s)
    ensures n < Pow10(|s|)
    ensures |s| == 1 || Pow10(|s| - 1) <= n
    ensures n == 0 || s[0] != '0'
  {
    if n < 10 then [DigitChar(n)] else Decimal(n / 10) + [DigitChar(n % 10)]
  }

  /** `n` written in exactly `width` digits, zero-filled on the left. */
  function Fixed(n: nat, width: nat): (s: string)
    requires n < Pow10(width)
    ensures |s| == width && IsDigits(s)
  {
    if width == 0 then [] else Fixed(n / 10, width - 1) + [DigitChar(n % 10)]
  }

  /** The last digit of a digit string is its value modulo ten. */
  lemma ValueSnoc(s: string, c: char)
    requires IsDigits(s) && IsDigit(c)
    ensures IsDigits(s + [c]) && Value(s + [c]) == 10 * Value(s) + DigitValue(c)
  {
    assert (s + [c])[..|s + [c]| - 1] == s;
  }

  /** Reading back the shortest form gives the number. */
  lemma {:induction false} ValueOfDecimal(n: nat)
    ensures Value(Decimal(n)) == n
  {
    if n >= 10 {
      ValueOfDecimal(n / 10);
      ValueSnoc(Decimal(n / 10), DigitChar(n % 10));
    }
  }

  /** Reading back a fixed-width form gives the number: nothing is truncated. */
  lemma {:induction false} ValueOfFixed(n: nat, width: nat)
    requires n < Pow10(width)
    ensures Value(Fixed(n, width)) == n
  {
    if width > 0 {
      ValueOfFixed(n / 10, width - 1);
      ValueSnoc(Fixed(n / 10, width - 1), DigitChar(n % 10));
      assert n == 10 * (n / 10) + n % 10;
    }
  }

  /** Writing back the value of a digit string in its own width gives the string. */
  lemma {:induction false} FixedOfValue(s: string)
    requires IsDigits(s)
    ensures Fixed(Value(s), |s|) == s
  {
    if s != [] {
      var init := s[..|s| - 1];
      FixedOfValue(init);
      assert s == init + [s[|s| - 1]];
    }
  }

  /** Leading zeros do not change the value of a digit string. */
  lemma {:induction false} ValueIgnoresLeadingZeros(k: nat, s: string)
    requires IsDigits(s)
    ensures IsDigits(Zeros(k) + s) && Value(Zeros(k) + s) == Value(s)
  {
    if s == [] {
      assert Zeros(k) + s == Zeros(k);
      ZerosValue(k);
    } else {
      var init := s[..|s| - 1];
      ValueIgnoresLeadingZeros(k, init);
      assert Zeros(k) + s == (Zeros(k) + init) + [s[|s| - 1]];
      ValueSnoc(Zeros(k) + init, s[|s| - 1]);
      ValueSnoc(init, s[|s| - 1]);
      assert s == init + [s[|s| - 1]];
    }
  }

  lemma {:induction false} ZerosValue(k: nat)
    ensures Value(Zeros(k)) == 0
  {
    if k > 0 {
      ZerosValue(k - 1);
      ValueSnoc(Zeros(k - 1), '0');
    }
  }

  /** The fixed-width form of zero is all zeros. */
  lemma {:induction false} FixedZero(width: nat)
    ensures Fixed(0, width) == Zeros(width)
  {
    if width > 0 { FixedZero(width - 1); }
  }

  /** Zero-filling the shortest form to a width it fits in gives the fixed-width form. */
  lemma {:induction false} ZeroFilledDecimalIsFixed(n: nat, width: nat)
    requires 1 <= width && n < Pow10(width)
    ensures |Decimal(n)| <= width
    ensures Zeros(width - |Decimal(n)|) + Decimal(n) == Fixed(n, width)
  {
    if n < 10 {
      FixedZero(width - 1);
    } else {
      assert n / 10 < Pow10(width - 1);
      ZeroFilledDecimalIsFixed(n / 10, width - 1);
      assert Zeros(width - |Decimal(n)|) + Decimal(n)
          == (Zeros(width - 1 - |Decimal(n / 10)|) + Decimal(n / 10)) + [DigitChar(n % 10)];
    }
  }
}
