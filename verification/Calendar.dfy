/** The proleptic Gregorian calendar, defined by walking it one day at a time.

    Leap years follow Appendix C of RFC 3339. Nothing here is a closed form: the
    date of a day count is reached by stepping from 1970-01-01, and the day count
    of a date is a sum of year and month lengths. */
module Calendar {
  datatype Date = Date(year: int, month: int, day: int)

  predicate IsLeap(y: int) {
    y % 4 == 0 && (y % 100 != 0 || y % 400 == 0)
  }

  function LeapDay(y: int): int {
    if IsLeap(y) then 1 else 0
  }

  function YearLength(y: int): int {
    365 + LeapDay(y)
  }

  function MonthLength(y: int, m: int): int {
    if m == 2 then 28 + LeapDay(y)
    else if m == 4 || m == 6 || m == 9 || m == 11 then 30
    else 31
  }

  predicate Valid(d: Date) {
    1 <= d.month <= 12 && 1 <= d.day <= MonthLength(d.year, d.month)
  }

  function Next(d: Date): Date {
    if d.day < MonthLength(d.year, d.month) then d.(day := d.day + 1)
    else if d.month < 12 then Date(d.year, d.month + 1, 1)
    else Date(d.year + 1, 1, 1)
  }

  function Previous(d: Date): Date {
    if d.day > 1 then d.(day := d.day - 1)
    else if d.month > 1 then Date(d.year, d.month - 1, MonthLength(d.year, d.month - 1))
    else Date(d.year - 1, 12, 31)
  }

  /** The date `n` days from 1970-01-01, one step at a time. */
  function DateOf(n: int): Date
    decreases if n < 0 then -n else n
  {
    if n == 0 then Date(1970, 1, 1)
    else if n > 0 then Next(DateOf(n - 1))
    else Previous(DateOf(n + 1))
  }

  /** Day count of 1 January of `y`: the lengths of the years since 1970. */
  function YearStart(y: int): int
    decreases if y < 1970 then 1970 - y else y - 1970
  {
    if y == 1970 then 0
    else if y > 1970 then YearStart(y - 1) + YearLength(y - 1)
    else YearStart(y + 1) - YearLength(y)
  }

  /** Days of `y` before the first of month `m`. */
  function MonthStart(y: int, m: int): int
    requires 1 <= m <= 13
    decreases m
  {
    if m == 1 then 0 else MonthStart(y, m - 1) + MonthLength(y, m - 1)
  }

  function DayNumber(d: Date): int
    requires Valid(d)
  {
    YearStart(d.year) + MonthStart(d.year, d.month) + d.day - 1
  }

  predicate Before(a: Date, b: Date) {
    a.year < b.year ||
    (a.year == b.year && (a.month < b.month || (a.month == b.month && a.day < b.day)))
  }

  lemma YearStartStep(y: int)
    ensures YearStart(y + 1) == YearStart(y) + YearLength(y)
  {
  }

  /** The cumulative month table. */
  lemma MonthTable(y: int)
    ensures MonthStart(y, 1) == 0
    ensures MonthStart(y, 2) == 31
    ensures forall m | 3 <= m <= 13 ::
              MonthStart(y, m) == LeapDay(y) + [59, 90, 120, 151, 181, 212, 243, 273, 304, 334, 365][m - 3]
  {
    assert MonthStart(y, 3) == 59 + LeapDay(y);
    assert MonthStart(y, 4) == 90 + LeapDay(y);
    assert MonthStart(y, 5) == 120 + LeapDay(y);
    assert MonthStart(y, 6) == 151 + LeapDay(y);
    assert MonthStart(y, 7) == 181 + LeapDay(y);
    assert MonthStart(y, 8) == 212 + LeapDay(y);
    assert MonthStart(y, 9) == 243 + LeapDay(y);
    assert MonthStart(y, 10) == 273 + LeapDay(y);
    assert MonthStart(y, 11) == 304 + LeapDay(y);
    assert MonthStart(y, 12) == 334 + LeapDay(y);
  }

  lemma MonthStartMonotone(y: int, a: int, b: int)
    requires 1 <= a < b <= 13
    ensures MonthStart(y, a) + MonthLength(y, a) <= MonthStart(y, b)
    decreases b
  {
    if a < b - 1 {
      MonthStartMonotone(y, a, b - 1);
    }
  }

  lemma {:induction false} YearStartMonotone(a: int, b: int)
    requires a < b
    ensures YearStart(a + 1) <= YearStart(b)
    decreases b - a
  {
    if a + 1 < b {
      YearStartMonotone(a, b - 1);
      YearStartStep(b - 1);
    }
  }

  /** A date lies inside its year. */
  lemma WithinYear(d: Date)
    requires Valid(d)
    ensures YearStart(d.year) <= DayNumber(d) < YearStart(d.year + 1)
  {
    MonthTable(d.year);
    YearStartStep(d.year);
  }

  /** Stepping forward adds one to the day count and moves forward; `Previous` undoes it. */
  lemma NextCountsOne(d: Date)
    requires Valid(d)
    ensures Valid(Next(d)) && DayNumber(Next(d)) == DayNumber(d) + 1
    ensures Before(d, Next(d)) && Previous(Next(d)) == d
  {
    if d.day == MonthLength(d.year, d.month) && d.month == 12 {
      MonthTable(d.year);
      YearStartStep(d.year);
    }
  }

  lemma PreviousCountsOne(d: Date)
    requires Valid(d)
    ensures Valid(Previous(d)) && DayNumber(Previous(d)) == DayNumber(d) - 1
    ensures Next(Previous(d)) == d
  {
    if d.day == 1 {
      if d.month == 1 {
        LastOfYear(d.year - 1);
      } else {
        LastOfMonth(d.year, d.month);
      }
    }
  }

  lemma LastOfYear(y: int)
    ensures var last := Date(y, 12, 31);
            Valid(last) && DayNumber(last) == YearStart(y + 1) - 1
  {
    MonthTable(y);
    YearStartStep(y);
  }

  lemma LastOfMonth(y: int, m: int)
    requires 2 <= m <= 12
    ensures var last := Date(y, m - 1, MonthLength(y, m - 1));
            Valid(last) && DayNumber(last) == DayNumber(Date(y, m, 1)) - 1
  {
  }

  /** Counting the days of the date reached after `n` steps gives `n` back. */
  lemma {:induction false} DateOfCounts(n: int)
    ensures Valid(DateOf(n)) && DayNumber(DateOf(n)) == n
    decreases if n < 0 then -n else n
  {
    if n > 0 {
      DateOfCounts(n - 1);
      NextCountsOne(DateOf(n - 1));
    } else if n < 0 {
      DateOfCounts(n + 1);
      PreviousCountsOne(DateOf(n + 1));
    }
  }

  lemma EarlierCountsLess(a: Date, b: Date)
    requires Valid(a) && Valid(b) && Before(a, b)
    ensures DayNumber(a) < DayNumber(b)
  {
    if a.year < b.year {
      WithinYear(a);
      WithinYear(b);
      YearStartMonotone(a.year, b.year);
    } else if a.month < b.month {
      MonthStartMonotone(a.year, a.month, b.month);
    }
  }

  /** Day counts order dates exactly as (year, month, day) does. */
  lemma DayNumberOrders(a: Date, b: Date)
    requires Valid(a) && Valid(b)
    ensures DayNumber(a) < DayNumber(b) <==> Before(a, b)
    ensures DayNumber(a) == DayNumber(b) <==> a == b
  {
    if Before(a, b) {
      EarlierCountsLess(a, b);
    } else if Before(b, a) {
      EarlierCountsLess(b, a);
    }
  }

  /** `DateOf` and `DayNumber` are inverse bijections between the integers and the
      valid dates, and `DateOf(n + 1)` is the calendar successor even for negative `n`. */
  lemma DateOfInverts(d: Date)
    requires Valid(d)
    ensures DateOf(DayNumber(d)) == d
  {
    DateOfCounts(DayNumber(d));
    DayNumberOrders(DateOf(DayNumber(d)), d);
  }

  lemma DateOfSteps(n: int)
    ensures DateOf(n + 1) == Next(DateOf(n))
  {
    hide YearStart, MonthStart, Next;
    DateOfCounts(n);
    NextCountsOne(DateOf(n));
    DateOfInverts(Next(DateOf(n)));
  }
}
