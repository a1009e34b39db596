/** Printing dates as `YYYY-MM-DD`, and reading them back. */
module DateText {
  import opened Wrappers
  import opened Machine
  import opened Text
  import opened Digits
  import opened Calendar
  import opened Civil
  import opened Decimals

  /** Rust's zero-padding format: the width counts the sign, and the zeros go after it. */
  function ZeroPadded(n: int, width: nat): string {
    var digits := Numeral(UnsignedAbs(n));
    var used := |Sign(n)| + |digits|;
    Sign(n) + Repeat('0', if used < width then width - used else 0) + digits
  }

  function FormatDate(days: i64): string
    requires Convertible(days)
  {
    var (y, m, d) := CivilFromDays(days);
    ZeroPadded(y as int, 4) + "-" + ZeroPadded(m as int, 2) + "-" + ZeroPadded(d as int, 2)
  }

  function ReadInt(s: string): Option<int> {
    if s != [] && s[0] == '-' then
      if |s| > 1 && AllDigits(s[1..]) then Some(-(Number(s[1..]) as int)) else None
    else
      if s != [] && AllDigits(s) then Some(Number(s)) else None
  }

  /** Read a date from the right: the year takes whatever stands before the month. */
  function ReadDate(text: string): Option<Date> {
    var n := |text|;
    if n < 6 || text[n - 6] != '-' || text[n - 3] != '-' then None
    else
      var y, m, d := ReadInt(text[..n - 6]), ReadInt(text[n - 5..n - 3]), ReadInt(text[n - 2..]);
      if y.Some? && m.Some? && d.Some? then Some(Date(y.value, m.value, d.value)) else None
  }

  /** Padding keeps the number. */
  lemma ZeroPaddedReads(n: int, width: nat)
    ensures ReadInt(ZeroPadded(n, width)) == Some(n)
  {
    hide Number, Numeral, ReadInt;
    var digits := Numeral(UnsignedAbs(n));
    var used := |Sign(n)| + |digits|;
    var padded := Repeat('0', if used < width then width - used else 0) + digits;
    NumeralReads(UnsignedAbs(n));
    ZerosAreNothing(if used < width then width - used else 0, digits);
    assert ZeroPadded(n, width) == Sign(n) + padded;
    ReadSigned(n, padded);
  }

  /** Padding fills up to the width, the sign included, and no further. */
  lemma ZeroPaddedFills(n: int, width: nat)
    ensures var text := ZeroPadded(n, width);
            |text| >= width && (n < 0 <==> text[0] == '-') &&
            (|text| > width ==> IsNumeral(if n < 0 then text[1..] else text))
  {
    hide Numeral, Number;
    var digits := Numeral(UnsignedAbs(n));
    NumeralReads(UnsignedAbs(n));
    var used := |Sign(n)| + |digits|;
    var zeros := Repeat('0', if used < width then width - used else 0);
    assert n < 0 ==> Sign(n) + zeros + digits == "-" + (zeros + digits);
    if |ZeroPadded(n, width)| > width {
      assert zeros + digits == digits;
      assert (Sign(n) + digits)[|Sign(n)|..] == digits;
    }
  }

  lemma ReadSigned(n: int, digits: string)
    requires digits != [] && AllDigits(digits) && Number(digits) == UnsignedAbs(n)
    ensures ReadInt(Sign(n) + digits) == Some(n)
  {
    if n < 0 {
      assert (Sign(n) + digits)[1..] == digits;
    } else {
      assert Sign(n) + digits == digits;
      assert IsDigit(digits[0]);
    }
  }

  /** A non-negative number below the power of ten prints in exactly the padded width. */
  lemma ZeroPaddedWidth(n: nat, width: nat)
    requires 0 < width && n < Pow10(width)
    ensures |ZeroPadded(n, width)| == width && AllDigits(ZeroPadded(n, width))
    ensures Number(ZeroPadded(n, width)) == n
  {
    NumeralReads(n);
    NumeralFits(n, width);
    var digits := Numeral(n);
    ZerosAreNothing(width - |digits|, digits);
    assert ZeroPadded(n, width) == Repeat('0', width - |digits|) + digits;
  }

  lemma NumeralFits(n: nat, width: nat)
    requires 0 < width && n < Pow10(width)
    ensures |Numeral(n)| <= width
  {
    NumeralLength(n);
    if n > 0 && |Numeral(n)| > width {
      Pow10Monotone(width, |Numeral(n)| - 1);
    }
  }

  lemma HundredAndTenThousand()
    ensures Pow10(2) == 100 && Pow10(4) == 10_000
  {
    assert Pow10(1) == 10;
    assert Pow10(3) == 1_000;
  }

  /** The month and day fields are two characters each. */
  lemma DateFields(days: i64) returns (y: string, m: string, d: string)
    requires Convertible(days)
    ensures FormatDate(days) == y + "-" + m + "-" + d
    ensures |m| == 2 && |d| == 2 && AllDigits(m) && AllDigits(d)
    ensures var ymd := CivilFromDays(days);
            ReadInt(y) == Some(ymd.0 as int) && y == ZeroPadded(ymd.0 as int, 4) &&
            Number(m) == ymd.1 as int && Number(d) == ymd.2 as int
  {
    var (year, month, day) := CivilFromDays(days);
    DateOfCounts(days as int);
    HundredAndTenThousand();
    y, m, d := ZeroPadded(year as int, 4), ZeroPadded(month as int, 2), ZeroPadded(day as int, 2);
    ZeroPaddedReads(year as int, 4);
    ZeroPaddedWidth(month as int, 2);
    ZeroPaddedWidth(day as int, 2);
  }

  lemma ReadFields(y: string, m: string, d: string)
    requires |m| == 2 && |d| == 2 && AllDigits(m) && AllDigits(d) && ReadInt(y).Some?
    ensures ReadDate(y + "-" + m + "-" + d) == Some(Date(ReadInt(y).value, Number(m), Number(d)))
  {
    var text := y + "-" + m + "-" + d;
    var n := |text|;
    assert text[..n - 6] == y && text[n - 5..n - 3] == m && text[n - 2..] == d;
    assert IsDigit(m[0]) && IsDigit(d[0]);
  }

  /** Reading the text gives the converted date, whatever the sign and length of the year. */
  lemma DateTextReads(days: i64)
    requires Convertible(days)
    ensures ReadDate(FormatDate(days)) == Some(AsDate(CivilFromDays(days)))
  {
    var y, m, d := DateFields(days);
    ReadFields(y, m, d);
  }

  /** The text names the day it was printed from exactly when the year fits 32 bits. */
  lemma DateTextExact(days: i64)
    requires Convertible(days)
    ensures ReadDate(FormatDate(days)) == Some(DateOf(days as int)) <==> FIRST_DAY <= days as int <= LAST_DAY
  {
    DateTextReads(days);
    CivilCorrectExactly(days);
  }

  /** Two days print alike exactly when month and day agree and the years differ by a
      multiple of 2^32. */
  lemma DateTextSame(a: i64, b: i64)
    requires Convertible(a) && Convertible(b)
    ensures var x, y := DateOf(a as int), DateOf(b as int);
            FormatDate(a) == FormatDate(b) <==>
            x.month == y.month && x.day == y.day && (x.year - y.year) % TWO_32 == 0
  {
    hide FormatDate, CivilFromDays;
    SameTextSameDate(a, b);
    NarrowSame(DateOf(a as int), DateOf(b as int));
  }

  lemma NarrowSame(x: Date, y: Date)
    ensures Narrow(x) == Narrow(y) <==> x.month == y.month && x.day == y.day && (x.year - y.year) % TWO_32 == 0
  {
    CastSame(x.year, y.year);
  }

  lemma SameTextSameDate(a: i64, b: i64)
    requires Convertible(a) && Convertible(b)
    ensures FormatDate(a) == FormatDate(b) <==> AsDate(CivilFromDays(a)) == AsDate(CivilFromDays(b))
  {
    DateTextReads(a);
    DateTextReads(b);
  }

  lemma CastSame(a: int, b: int)
    ensures CastI32(a) == CastI32(b) <==> (a - b) % TWO_32 == 0
  {
    var q, r := a / TWO_32, b / TWO_32;
    assert a - b == TWO_32 * (q - r) + (a % TWO_32 - b % TWO_32);
  }

  /** So printing is injective on the days whose year fits. */
  lemma DateTextInjective(a: i64, b: i64)
    requires FIRST_DAY <= a as int <= LAST_DAY && FIRST_DAY <= b as int <= LAST_DAY
    requires FormatDate(a) == FormatDate(b)
    ensures a == b
  {
    DateTextExact(a);
    DateTextExact(b);
    DateOfCounts(a as int);
    DateOfCounts(b as int);
  }

  /** A day 2^32 years after the epoch, which prints as the epoch does. */
  const FAR_NEW_YEAR: i64 := 1_568_704_592_610

  lemma FarDayPrintsAsEpoch()
    ensures FormatDate(FAR_NEW_YEAR) == FormatDate(0)
  {
    NewYearsPrintAlike(1970, 1970 + TWO_32, 0, FAR_NEW_YEAR);
  }

  lemma NewYearsPrintAlike(y: int, y': int, days: i64, days': i64)
    requires Convertible(days) && Convertible(days') && (y - y') % TWO_32 == 0
    requires days as int == 365 * y + (y - 1) / 4 - (y - 1) / 100 + (y - 1) / 400 - 719_162 - 365
    requires days' as int == 365 * y' + (y' - 1) / 4 - (y' - 1) / 100 + (y' - 1) / 400 - 719_162 - 365
    ensures FormatDate(days) == FormatDate(days')
  {
    hide FormatDate, CivilFromDays;
    NewYear(y);
    NewYear(y');
    NarrowSame(DateOf(days as int), DateOf(days' as int));
    SameTextSameDate(days, days');
  }

  lemma NewYear(y: int)
    ensures DateOf(365 * y + (y - 1) / 4 - (y - 1) / 100 + (y - 1) / 400 - 719_162 - 365) == Date(y, 1, 1)
  {
    YearEnds(y - 1);
    YearStartStep(y - 1);
    WithinYear(Date(y - 1, 12, 31));
    DateOfInverts(Date(y, 1, 1));
  }

  /** For the years 0 to 9999 the text has ten characters and sorts as the days do. */
  lemma DateTextSorts(a: i64, b: i64)
    requires Convertible(a) && Convertible(b)
    requires 0 <= DateOf(a as int).year <= 9999 && 0 <= DateOf(b as int).year <= 9999
    ensures |FormatDate(a)| == 10
    ensures StringLess(FormatDate(a), FormatDate(b)) <==> a < b
  {
    var ya, ma, da := YearTenFields(a);
    var yb, mb, db := YearTenFields(b);
    DigitsSort(ya, yb);
    DigitsSort(ma, mb);
    DigitsSort(da, db);
    FieldsSort(ya, ma, da, yb, mb, db, DateOf(a as int), DateOf(b as int));
    DateOfCounts(a as int);
    DateOfCounts(b as int);
    DayNumberOrders(DateOf(a as int), DateOf(b as int));
  }

  /** Two fields of a date compare as the numbers they print. */
  predicate SortsAs(field: string, field': string, n: int, n': int) {
    |field| == |field'| && (StringLess(field, field') <==> n < n') && (field == field' <==> n == n')
  }

  lemma FieldsSort(y: string, m: string, d: string, y': string, m': string, d': string, x: Date, x': Date)
    requires SortsAs(y, y', x.year, x'.year) && SortsAs(m, m', x.month, x'.month) && SortsAs(d, d', x.day, x'.day)
    ensures StringLess(y + "-" + m + "-" + d, y' + "-" + m' + "-" + d') <==> Before(x, x')
  {
    TripleSort(y, m, d, y', m', d');
  }

  lemma TripleSort(y: string, m: string, d: string, y': string, m': string, d': string)
    requires |y| == |y'| && |m| == |m'| && |d| == |d'|
    ensures StringLess(y + "-" + m + "-" + d, y' + "-" + m' + "-" + d') <==>
            StringLess(y, y') || (y == y' && (StringLess(m, m') || (m == m' && StringLess(d, d'))))
  {
    DashSort(y, m, y', m');
    DashSort(y + "-" + m, d, y' + "-" + m', d');
  }

  lemma DashSort(a: string, b: string, a': string, b': string)
    requires |a| == |a'| && |b| == |b'|
    ensures StringLess(a + "-" + b, a' + "-" + b') <==> StringLess(a, a') || (a == a' && StringLess(b, b'))
    ensures a + "-" + b == a' + "-" + b' <==> a == a' && b == b'
  {
    var text, text' := a + "-" + b, a' + "-" + b';
    StringLessConcat(a + "-", b, a' + "-", b');
    StringLessConcat(a, "-", a', "-");
    assert text[..|a|] == a && text'[..|a|] == a';
    assert text[|a| + 1..] == b && text'[|a| + 1..] == b';
    assert (a + "-")[..|a|] == a && (a' + "-")[..|a|] == a';
  }

  lemma YearTenFields(days: i64) returns (y: string, m: string, d: string)
    requires Convertible(days) && 0 <= DateOf(days as int).year <= 9999
    ensures FormatDate(days) == y + "-" + m + "-" + d
    ensures |y| == 4 && |m| == 2 && |d| == 2 && AllDigits(y) && AllDigits(m) && AllDigits(d)
    ensures DateOf(days as int) == Date(Number(y), Number(m), Number(d))
  {
    y, m, d := DateFields(days);
    HundredAndTenThousand();
    ZeroPaddedWidth(DateOf(days as int).year, 4);
  }
}
