/** The closed-form day-count-to-date conversion used by date columns, and its
    agreement with the calendar that steps one day at a time.

    The conversion works in 400-year eras of 146097 days whose years begin on
    1 March, so that the leap day falls at the end of a year. */
module Civil {
  import opened Machine
  import opened Calendar

  /** The first addition of the conversion overflows `i64` exactly when this fails. */
  predicate Convertible(days: i64): (r: bool)
    ensures r <==> days as int + 719_468 < TWO_63
  {
    days <= I64_MAX - 719_468
  }

  function Era(z: i64): (era: i64)
    requires -TWO_63 + 146_096 <= z as int
    ensures era as int == z as int / 146_097
  {
    TruncDiv(if z >= 0 then z else z - 146_096, 146_097)
  }

  function YearOfEra(doe: i64): i64
    requires 0 <= doe < 146_097
  {
    (doe - doe / 1460 + doe / 36_524 - doe / 146_096) / 365
  }

  function DayOfYear(doe: i64, yoe: i64): i64
    requires 0 <= doe < 146_097 && 0 <= yoe < 400
  {
    doe - (365 * yoe + yoe / 4 - yoe / 100)
  }

  /** Month and day of the `doy`-th day of a year beginning in March. */
  function MonthDay(doy: i64): (u32, u32)
    requires 0 <= doy <= 365
  {
    var mp := (5 * doy + 2) / 153;
    var d := doy - (153 * mp + 2) / 5 + 1;
    var m := if mp < 10 then mp + 3 else mp - 9;
    (m as u32, d as u32)
  }

  /** A shifted day count as its era, the year of that era and the day of that year. */
  function EraParts(z: i64): (parts: (i64, i64, i64))
    requires -TWO_63 + 146_096 <= z as int
    ensures 0 <= parts.1 < 400 && 0 <= parts.2 as int < MarchYearLength(parts.1 as int)
    ensures var (era, yoe, doy) := (parts.0 as int, parts.1 as int, parts.2 as int);
            z as int == 146_097 * era + 365 * yoe + yoe / 4 - yoe / 100 + doy
  {
    var era := Era(z);
    var doe := z - era * 146_097;
    YearOfEraInRange(doe);
    var yoe := YearOfEra(doe);
    (era, yoe, DayOfYear(doe, yoe))
  }

  function AsDate(ymd: (i32, u32, u32)): Date {
    Date(ymd.0 as int, ymd.1 as int, ymd.2 as int)
  }

  /** Length of the year that begins in March of `y`. */
  function MarchYearLength(y: int): int {
    365 + LeapDay(y + 1)
  }

  /** `yoe` is the year of its era and `doy` a day of that year: the correction terms
      of the division by 365 are exact at every century and era boundary. */
  lemma YearOfEraInRange(doe: i64)
    requires 0 <= doe < 146_097
    ensures var yoe := YearOfEra(doe);
            0 <= yoe < 400 && 0 <= DayOfYear(doe, yoe) as int < MarchYearLength(yoe as int)
  {
    var c, q, r, doy := Cycles(doe as int);
    YearOfCycles(c, q, r);
    EraCorrection(c, q, r, doy);
    assert YearOfEra(doe) as int == 100 * c + 4 * q + r;
  }

  /** A day of the era by centuries, four-year cycles and years; only the last of each
      can be a day longer. */
  lemma Cycles(n: int) returns (c: int, q: int, r: int, doy: int)
    requires 0 <= n < 146_097
    ensures 0 <= c <= 3 && 0 <= q <= 24 && 0 <= r <= 3 && 0 <= doy <= 365
    ensures n == 36_524 * c + 1461 * q + 365 * r + doy
    ensures doy == 365 ==> r == 3 && (q < 24 || c == 3)
  {
    c := if n / 36_524 < 3 then n / 36_524 else 3;
    var x := n - 36_524 * c;
    q := x / 1461;
    var w := x - 1461 * q;
    r := if w / 365 < 3 then w / 365 else 3;
    doy := w - 365 * r;
  }

  /** Quotients and leap status of a year of the era, given by its cycles. */
  lemma YearOfCycles(c: int, q: int, r: int)
    requires 0 <= c <= 3 && 0 <= q <= 24 && 0 <= r <= 3
    ensures var yoe := 100 * c + 4 * q + r;
            yoe / 4 == 25 * c + q && yoe / 100 == c &&
            (r == 3 && (q < 24 || c == 3) ==> IsLeap(yoe + 1))
  {
    var yoe := 100 * c + 4 * q + r;
    assert q < 24 || r < 3 ==> (yoe + 1) % 100 == 4 * q + r + 1;
  }

  /** The quotient terms, one by one, for the `doy`-th day of year `100c + 4q + r`. */
  lemma EraCorrection(c: int, q: int, r: int, doy: int)
    requires 0 <= c <= 3 && 0 <= q <= 24 && 0 <= r <= 3 && 0 <= doy <= 365
    requires doy == 365 ==> r == 3 && (q < 24 || c == 3)
    ensures var n := 36_524 * c + 1461 * q + 365 * r + doy;
            (n - n / 1460 + n / 36_524 - n / 146_096) / 365 == 100 * c + 4 * q + r
  {
    var v := 365 * r + doy;
    var n := 36_524 * c + 1461 * q + v;
    var last := if n == 146_096 then 1 else 0;
    assert n / 146_096 == last;
    assert n / 36_524 == c + last;
    var e := if 24 * c + q + v >= 1460 then 1 else 0;
    assert n == 1460 * (25 * c + q) + (24 * c + q + v);
    assert n / 1460 == 25 * c + q + e;
    assert n - n / 1460 + n / 36_524 - n / 146_096 == 365 * (100 * c + 4 * q + r) + (doy - e);
    assert 0 <= doy - e < 365;
  }

  /** Day count of 1 March of `y` in closed form. */
  lemma {:induction false} MarchFirst(y: int)
    ensures YearStart(y) + MonthStart(y, 3) == 365 * y + y / 4 - y / 100 + y / 400 - 719_468
    decreases if y < 1970 then 1970 - y else y - 1970
  {
    MonthTable(y);
    if y > 1970 {
      MarchFirst(y - 1);
      MonthTable(y - 1);
      FloorSteps(y - 1);
    } else if y < 1970 {
      MarchFirst(y + 1);
      MonthTable(y + 1);
      FloorSteps(y);
    }
  }

  /** A quotient moves exactly at the multiples of its divisor. */
  lemma FloorSteps(y: int)
    ensures var leaps := (y + 1) / 4 - (y + 1) / 100 + (y + 1) / 400 - (y / 4 - y / 100 + y / 400);
            leaps == LeapDay(y + 1)
  {
    assert (y + 1) / 4 == y / 4 + if (y + 1) % 4 == 0 then 1 else 0;
    assert (y + 1) / 100 == y / 100 + if (y + 1) % 100 == 0 then 1 else 0;
    assert (y + 1) / 400 == y / 400 + if (y + 1) % 400 == 0 then 1 else 0;
  }

  /** Days between 1 March and the first of month `m` that follows it. */
  function MarchMonthStart(m: int): int
    requires 1 <= m <= 12
  {
    [306, 337, 0, 31, 61, 92, 122, 153, 184, 214, 245, 275][m - 1]
  }

  /** The month formula reads the table: the day falls in the month it names. */
  lemma MonthFormula(doy: i64)
    requires 0 <= doy <= 365
    ensures var (m, d) := MonthDay(doy);
            1 <= m <= 12 && doy as int == MarchMonthStart(m as int) + d as int - 1 &&
            1 <= d as int <= (if m == 2 then 29 else MonthLength(0, m as int))
  {
    var mp := (5 * doy as int + 2) / 153;
    assert 0 <= mp <= 11;
    assert (153 * mp + 2) / 5 == [0, 31, 61, 92, 122, 153, 184, 214, 245, 275, 306, 337][mp];
  }

  lemma MonthDayPlaces(y: int, doy: i64)
    requires 0 <= doy as int < MarchYearLength(y)
    ensures var (m, d) := MonthDay(doy);
            var date := Date(if m <= 2 then y + 1 else y, m as int, d as int);
            Valid(date) && DayNumber(date) == YearStart(y) + MonthStart(y, 3) + doy as int
  {
    var (m, d) := MonthDay(doy);
    MonthFormula(doy);
    MarchPlace(y, doy as int, m as int, d as int);
  }

  /** A day of the year beginning in March of `y`, as a date of the calendar. */
  lemma MarchPlace(y: int, doy: int, m: int, d: int)
    requires 0 <= doy < MarchYearLength(y) && 1 <= m <= 12
    requires doy == MarchMonthStart(m) + d - 1 && 1 <= d <= (if m == 2 then 29 else MonthLength(0, m))
    ensures var date := Date(if m <= 2 then y + 1 else y, m, d);
            Valid(date) && DayNumber(date) == YearStart(y) + MonthStart(y, 3) + doy
  {
    MonthTable(y);
    MonthTable(y + 1);
    YearStartStep(y);
  }

  /** The first and last day whose year fits the 32-bit result. */
  const FIRST_DAY: int := -784_353_015_833
  const LAST_DAY: int := 784_351_576_776

  /** The parts of a day count name the date the calendar reaches. */
  lemma PartsName(n: int, era: int, yoe: int, doy: i64)
    requires 0 <= yoe < 400 && 0 <= doy as int < MarchYearLength(yoe)
    requires n + 719_468 == 146_097 * era + 365 * yoe + yoe / 4 - yoe / 100 + doy as int
    ensures var (m, d) := MonthDay(doy);
            DateOf(n) == Date(yoe + 400 * era + if m <= 2 then 1 else 0, m as int, d as int)
  {
    hide YearStart, MonthStart, DateOf, MonthDay, DayNumber, Valid;
    MarchFirstOfEra(yoe, era);
    MonthDayPlaces(yoe + 400 * era, doy);
    var (m, d) := MonthDay(doy);
    DateOfInverts(Date(yoe + 400 * era + if m <= 2 then 1 else 0, m as int, d as int));
  }

  /** The date that stepping `days` times from the epoch reaches, in closed form and with
      its year cast to 32 bits. Every 64-bit step here and above is checked not to
      overflow. */
  function CivilFromDays(days: i64): (ymd: (i32, u32, u32))
    requires Convertible(days)
    ensures var date := DateOf(days as int);
            ymd.0 == CastI32(date.year) && ymd.1 as int == date.month && ymd.2 as int == date.day
  {
    var z := days + 719_468;
    var (era, yoe, doy) := EraParts(z);
    var y := yoe + era * 400;
    var (m, d) := MonthDay(doy);
    PartsName(days as int, era as int, yoe as int, doy);
    (CastI32((if m <= 2 then y + 1 else y) as int), m, d)
  }

  /** A date as the conversion can return it. */
  function Narrow(date: Date): Date {
    date.(year := CastI32(date.year) as int)
  }

  /** 1 March of a year given by its era: the days of whole eras and years before it. */
  lemma MarchFirstOfEra(yoe: int, era: int)
    requires 0 <= yoe < 400
    ensures var y := yoe + 400 * era;
            YearStart(y) + MonthStart(y, 3) == 146_097 * era + 365 * yoe + yoe / 4 - yoe / 100 - 719_468 &&
            MarchYearLength(y) == MarchYearLength(yoe)
  {
    MarchFirst(yoe + 400 * era);
    EraShift(yoe, era);
    EraShift(yoe + 1, era);
    assert yoe + 400 * era + 1 == yoe + 1 + 400 * era;
  }

  /** Moving by whole eras shifts the leap-day counts linearly and keeps leap years. */
  lemma EraShift(y: int, era: int)
    ensures (y + 400 * era) / 4 == y / 4 + 100 * era
    ensures (y + 400 * era) / 100 == y / 100 + 4 * era
    ensures (y + 400 * era) / 400 == y / 400 + era
    ensures IsLeap(y + 400 * era) == IsLeap(y)
  {
    DivisionShift(y, 100 * era, 4);
    DivisionShift(y, 4 * era, 100);
    DivisionShift(y, era, 400);
  }

  lemma DivisionShift(n: int, k: int, divisor: int)
    requires divisor > 0
    ensures (n + divisor * k) / divisor == n / divisor + k
    ensures (n + divisor * k) % divisor == n % divisor
  {
    var q, r := n / divisor, n % divisor;
    var q', r' := (n + divisor * k) / divisor, (n + divisor * k) % divisor;
    var gap := q + k - q';
    assert divisor * gap == r' - r by {
      assert divisor * gap == divisor * q + divisor * k - divisor * q';
    }
    SmallMultiple(divisor, gap);
  }

  /** Day counts of 1 January and 31 December in closed form. */
  lemma YearEnds(y: int)
    ensures var marchDay := 365 * y + y / 4 - y / 100 + y / 400 - 719_468;
            DayNumber(Date(y, 1, 1)) == marchDay - 59 - LeapDay(y) &&
            DayNumber(Date(y, 12, 31)) == marchDay + 305
  {
    MonthTable(y);
    MarchFirst(y);
  }

  /** The years that fit 32 bits are one interval of days with exact endpoints. */
  lemma YearFitsInterval(n: int)
    ensures FitsI32(DateOf(n).year) <==> FIRST_DAY <= n <= LAST_DAY
  {
    DateOfCounts(n);
    YearFitsDays(DateOf(n), -TWO_31, TWO_31 - 1);
  }

  lemma YearFitsDays(date: Date, low: int, high: int)
    requires Valid(date) && low == -TWO_31 && high == TWO_31 - 1
    ensures FitsI32(date.year) <==> FIRST_DAY <= DayNumber(date) <= LAST_DAY
  {
    hide YearStart, MonthStart;
    YearEnds(low);
    YearEnds(high);
    DayNumberOrders(date, Date(low, 1, 1));
    DayNumberOrders(Date(high, 12, 31), date);
  }

  /** Exactly on that interval the conversion returns the calendar date. */
  lemma CivilCorrectExactly(days: i64)
    requires Convertible(days)
    ensures AsDate(CivilFromDays(days)) == DateOf(days as int) <==> FIRST_DAY <= days as int <= LAST_DAY
  {
    YearFitsInterval(days as int);
  }

  lemma CivilEpoch()
    ensures CivilFromDays(0) == (1970, 1, 1)
  {
    CivilCorrectExactly(0);
  }

  /** One step of the calendar between any two consecutive days, on either side of the
      epoch and across every era boundary. */
  lemma CivilSteps(days: i64)
    requires FIRST_DAY <= days as int < LAST_DAY
    ensures AsDate(CivilFromDays(days + 1)) == Next(AsDate(CivilFromDays(days)))
    ensures Valid(AsDate(CivilFromDays(days)))
  {
    hide CivilFromDays, DateOf, Next;
    CivilCorrectExactly(days);
    CivilCorrectExactly(days + 1);
    DateOfSteps(days as int);
    DateOfCounts(days as int);
  }

  /** Beyond those days too, the next day converts to the calendar successor exactly unless
      the year wraps between them or the cast moves the leap day in or out behind a
      28 February. */
  lemma CivilStepsExactly(days: i64)
    requires Convertible(days) && Convertible(days + 1)
    ensures var date, year := DateOf(days as int), CastI32(DateOf(days as int).year) as int;
            AsDate(CivilFromDays(days + 1)) == Next(AsDate(CivilFromDays(days))) <==>
            !(date.month == 12 && date.day == 31 && year == TWO_31 - 1) &&
            (date.month == 2 && date.day == 28 ==> (IsLeap(year) <==> IsLeap(date.year)))
  {
    hide CivilFromDays, DateOf, IsLeap, CastI32;
    var date := DateOf(days as int);
    DateOfSteps(days as int);
    DateOfCounts(days as int);
    CastNext(date.year);
  }

  /** The cast keeps consecutive years consecutive unless it wraps between them. */
  lemma CastNext(y: int)
    ensures CastI32(y + 1) as int == CastI32(y) as int + 1 <==> CastI32(y) as int != TWO_31 - 1
  {
  }

  /** The result is a real date exactly when casting the year does not take the leap year
      from under a 29 February. */
  lemma CivilRealExactly(days: i64)
    requires Convertible(days)
    ensures var date := DateOf(days as int);
            Valid(AsDate(CivilFromDays(days))) <==>
            (date.month == 2 && date.day == 29 ==> IsLeap(CastI32(date.year) as int))
  {
    DateOfCounts(days as int);
  }

  /** A 29 February whose year wraps to one that is not a leap year. */
  const LOST_LEAP_DAY: i64 := 784_351_630_892

  lemma LeapDayLost()
    ensures CivilFromDays(LOST_LEAP_DAY) == (-2_147_483_500, 2, 29)
    ensures !Valid(AsDate(CivilFromDays(LOST_LEAP_DAY)))
  {
    LeapDayOf(LOST_LEAP_DAY, 2_147_483_796);
  }

  lemma LeapDayOf(days: i64, y: int)
    requires Convertible(days) && IsLeap(y)
    requires days as int == 365 * y + y / 4 - y / 100 + y / 400 - 719_469
    ensures CivilFromDays(days) == (CastI32(y), 2, 29)
  {
    MarchFirst(y);
    MonthTable(y);
    DateOfInverts(Date(y, 2, 29));
  }

  /** `DayNumber` is the two-sided inverse of the conversion. */
  lemma CivilBijection(days: i64, date: Date)
    requires FIRST_DAY <= days as int <= LAST_DAY
    requires Valid(date) && FitsI32(date.year)
    ensures Valid(AsDate(CivilFromDays(days))) && DayNumber(AsDate(CivilFromDays(days))) == days as int
    ensures FIRST_DAY <= DayNumber(date) <= LAST_DAY
    ensures AsDate(CivilFromDays(DayNumber(date) as i64)) == date
  {
    CivilCorrectExactly(days);
    DateOfCounts(days as int);
    DateOfInverts(date);
    YearFitsInterval(DayNumber(date));
    CivilCorrectExactly(DayNumber(date) as i64);
  }

  /** Later days convert to later dates. */
  lemma CivilMonotone(a: i64, b: i64)
    requires FIRST_DAY <= a as int <= LAST_DAY && FIRST_DAY <= b as int <= LAST_DAY
    ensures a < b <==> Before(AsDate(CivilFromDays(a)), AsDate(CivilFromDays(b)))
  {
    CivilCorrectExactly(a);
    CivilCorrectExactly(b);
    DateOfCounts(a as int);
    DateOfCounts(b as int);
    DayNumberOrders(DateOf(a as int), DateOf(b as int));
  }
}
