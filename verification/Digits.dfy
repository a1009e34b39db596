/** Decimal numerals: printing, reading back, and how many digits there are. */
module Digits {
  import opened Text

  predicate IsDigit(c: char) {
    '0' <= c <= '9'
  }

  predicate AllDigits(s: string) {
    forall k | 0 <= k < |s| :: IsDigit(s[k])
  }

  function DigitOf(c: char): nat
    requires IsDigit(c)
  {
    c as int - '0' as int
  }

  /** The numeral of `n`, without leading zeros. */
  function Numeral(n: nat): (s: string)
    ensures s != [] && AllDigits(s)
  {
    if n < 10 then [('0' as int + n) as char] else Numeral(n / 10) + [('0' as int + n % 10) as char]
  }

  /** The number a row of digits denotes; leading zeros do not matter. */
  function Number(s: string): nat
    requires AllDigits(s)
  {
    if s == [] then 0 else 10 * Number(s[..|s| - 1]) + DigitOf(s[|s| - 1])
  }

  function Pow10(k: nat): (r: nat)
    ensures r > 0
  {
    if k == 0 then 1 else 10 * Pow10(k - 1)
  }

  /** Ten to the nineteenth exceeds every 64-bit magnitude. */
  lemma NineteenDigits()
    ensures Pow10(19) == 10_000_000_000_000_000_000
  {
    assert Pow10(4) == 10_000;
    assert Pow10(8) == 10_000 * Pow10(4);
    assert Pow10(12) == 10_000 * Pow10(8);
    assert Pow10(16) == 10_000 * Pow10(12);
    assert Pow10(19) == 1_000 * Pow10(16);
  }

  /** No leading zero, unless the numeral is `0` itself. */
  predicate IsNumeral(s: string) {
    s != [] && AllDigits(s) && (s[0] == '0' ==> |s| == 1)
  }

  lemma {:induction false} NumeralReads(n: nat)
    ensures Number(Numeral(n)) == n && IsNumeral(Numeral(n))
    ensures n > 0 ==> Numeral(n)[0] != '0'
  {
    if n >= 10 {
      NumeralReads(n / 10);
    }
  }

  lemma {:induction false} NumberPrints(s: string)
    requires IsNumeral(s)
    ensures Numeral(Number(s)) == s
    ensures s[0] != '0' ==> Number(s) > 0
  {
    if |s| > 1 {
      var init := s[..|s| - 1];
      assert init[0] == s[0];
      NumberPrints(init);
      assert s == init + [s[|s| - 1]];
    }
  }

  lemma ShiftDigits(high: nat, power: nat, low: nat, digit: nat)
    ensures 10 * (high * power + low) + digit == high * (10 * power) + (10 * low + digit)
  {
  }

  /** A row of digits splits at any point into a high and a low part. */
  lemma {:induction false} NumberOfConcat(a: string, b: string)
    requires AllDigits(a) && AllDigits(b)
    ensures AllDigits(a + b) && Number(a + b) == Number(a) * Pow10(|b|) + Number(b)
  {
    if b == [] {
      assert a + b == a;
    } else {
      var init := b[..|b| - 1];
      assert (a + b)[..|a + b| - 1] == a + init;
      NumberOfConcat(a, init);
      ShiftDigits(Number(a), Pow10(|init|), Number(init), DigitOf(b[|b| - 1]));
    }
  }

  lemma {:induction false} NumberBound(s: string)
    requires AllDigits(s)
    ensures Number(s) < Pow10(|s|)
  {
    if s != [] {
      var init := s[..|s| - 1];
      NumberBound(init);
      assert Number(s) == 10 * Number(init) + DigitOf(s[|s| - 1]);
    }
  }

  lemma {:induction false} ZerosAreNothing(k: nat, s: string)
    requires AllDigits(s)
    ensures AllDigits(Repeat('0', k) + s) && Number(Repeat('0', k) + s) == Number(s)
  {
    ZerosDenoteZero(k);
    NumberOfConcat(Repeat('0', k), s);
  }

  lemma {:induction false} ZerosDenoteZero(k: nat)
    ensures Number(Repeat('0', k)) == 0
  {
    if k > 0 {
      assert Repeat('0', k)[..k - 1] == Repeat('0', k - 1);
      ZerosDenoteZero(k - 1);
    }
  }

  /** The length of a numeral pins its number between two powers of ten. */
  lemma {:induction false} NumeralLength(n: nat)
    ensures n < Pow10(|Numeral(n)|)
    ensures n > 0 ==> Pow10(|Numeral(n)| - 1) <= n
  {
    if n >= 10 {
      NumeralLength(n / 10);
    }
  }

  lemma {:induction false} Pow10Monotone(a: nat, b: nat)
    requires a <= b
    ensures 1 <= Pow10(a) <= Pow10(b)
    decreases b
  {
    if a < b {
      Pow10Monotone(a, b - 1);
    } else if a > 0 {
      Pow10Monotone(a - 1, b - 1);
    }
  }

  /** Rows of digits of equal length sort as the numbers they denote. */
  lemma {:induction false} DigitsSort(a: string, b: string)
    requires |a| == |b| && AllDigits(a) && AllDigits(b)
    ensures StringLess(a, b) <==> Number(a) < Number(b)
    ensures a == b <==> Number(a) == Number(b)
  {
    if a != [] {
      var a', b' := a[..|a| - 1], b[..|b| - 1];
      var x, y := a[|a| - 1..], b[|b| - 1..];
      assert a == a' + x && b == b' + y;
      DigitsSort(a', b');
      StringLessConcat(a', x, b', y);
      assert !LessFrom(x, y, 1);
    }
  }
}
