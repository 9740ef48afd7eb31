/** Instants as the calendar grid uses them: milliseconds since
    1970-01-01T00:00 UTC, days of a fixed 86 400 000 ms and the proleptic
    Gregorian calendar. Months are numbered from 0, as `Calendar.MONTH`
    numbers them; days of the week from 0 = Sunday to 6 = Saturday, the
    order of `Calendar.SUNDAY` .. `Calendar.SATURDAY` (which Java numbers
    from 1). */
module Dates {

  /** `1000 * 60 * 60` and `ONE_HOUR * 24` milliseconds, written out. */
  const ONE_HOUR: int := 3600000
  const ONE_DAY: int := 86400000

  /** Whole days since the epoch, rounding toward the past. */
  function DayNumber(t: int): int
  {
    t / ONE_DAY
  }

  /** `startOfDay`: clearing the hour, minute, second and millisecond fields
      gives the midnight at or before `t`. */
  function StartOfDay(t: int): (d: int)
    ensures d % ONE_DAY == 0 && d <= t < d + ONE_DAY
  {
    DayNumber(t) * ONE_DAY
  }

  /** The day of the week; 1970-01-01 was a Thursday. */
  function DayOfWeek(t: int): (w: int)
    ensures 0 <= w < 7
  {
    (DayNumber(t) + 4) % 7
  }

  lemma {:induction false} DayOfWeekOfPreviousDay(d: int)
    requires d % ONE_DAY == 0
    ensures DayNumber(d - ONE_DAY) == DayNumber(d) - 1
    ensures DayOfWeek(d - ONE_DAY) == (DayOfWeek(d) + 6) % 7
  {
  }

  /** The latest Sunday midnight at or before the midnight `d`. */
  function LatestSunday(d: int): int
  {
    d - DayOfWeek(d) * ONE_DAY
  }

  /** `LatestSunday(d)` is a Sunday midnight less than a week before `d`, and
      no Sunday midnight at or before `d` comes after it. */
  lemma {:induction false} LatestSundayIsLatest(d: int, s: int)
    requires d % ONE_DAY == 0
    ensures LatestSunday(d) % ONE_DAY == 0 && DayOfWeek(LatestSunday(d)) == 0
    ensures LatestSunday(d) <= d < LatestSunday(d) + 7 * ONE_DAY
    ensures s % ONE_DAY == 0 && DayOfWeek(s) == 0 && s <= d ==> s <= LatestSunday(d)
  {
    var n := DayNumber(d);
    assert DayNumber(LatestSunday(d)) == n - DayOfWeek(d);
    if s % ONE_DAY == 0 && DayOfWeek(s) == 0 && s <= d {
      assert DayNumber(s) <= n;
    }
  }

  /** The loop of `setupWeekView` and `setupMonthView`: step back one day at
      a time until the day is a Sunday. */
  method BackToSunday(day: int) returns (sunday: int)
    requires day % ONE_DAY == 0
    ensures sunday == LatestSunday(day)
  {
    sunday := day;
    while DayOfWeek(sunday) != 0
      invariant sunday % ONE_DAY == 0
      invariant DayOfWeek(sunday) <= DayOfWeek(day)
      invariant day - sunday == (DayOfWeek(day) - DayOfWeek(sunday)) * ONE_DAY
      decreases DayOfWeek(sunday)
    {
      DayOfWeekOfPreviousDay(sunday);
      sunday := sunday - ONE_DAY;
    }
  }

  predicate IsLeapYear(y: int)
  {
    y % 4 == 0 && (y % 100 != 0 || y % 400 == 0)
  }

  function DaysInYear(y: int): int
  {
    if IsLeapYear(y) then 366 else 365
  }

  /** The day number of January 1st of year `y`: 0 for 1970, and each year
      starts as many days after the one before as that year is long. */
  function YearStart(y: int): int
    decreases if y < 1970 then 1970 - y else y - 1970
  {
    if y == 1970 then 0
    else if y > 1970 then YearStart(y - 1) + DaysInYear(y - 1)
    else YearStart(y + 1) - DaysInYear(y)
  }

  /** Consecutive years are as far apart as the first year is long. */
  lemma {:induction false} YearStartStep(y: int)
    ensures YearStart(y + 1) == YearStart(y) + DaysInYear(y)
  {
  }

  lemma {:induction false} YearStartIncreasing(a: int, b: int)
    ensures a < b ==> YearStart(a) + DaysInYear(a) <= YearStart(b)
    decreases b - a
  {
    YearStartStep(a);
    if a + 1 < b {
      YearStartIncreasing(a + 1, b);
      YearStartStep(a + 1);
    }
  }

  /** Days in the months before month `m` of year `y`; month 12 stands for the
      end of the year. */
  function DaysBeforeMonth(y: int, m: int): (days: int)
    requires 0 <= m <= 12
    ensures 0 <= days <= 366
  {
    [0, 31, 59, 90, 120, 151, 181, 212, 243, 273, 304, 334, 365][m]
      + (if m >= 2 && IsLeapYear(y) then 1 else 0)
  }

  lemma {:induction false} DaysBeforeMonthStep(y: int, m: int)
    requires 0 <= m < 12
    ensures DaysBeforeMonth(y, m) + 28 <= DaysBeforeMonth(y, m + 1) <= DaysBeforeMonth(y, m) + 31
  {
  }

  lemma {:induction false} DaysBeforeMonthIncreasing(y: int, a: int, b: int)
    requires 0 <= a < 12 && 0 <= b <= 12
    ensures a < b ==> DaysBeforeMonth(y, a + 1) <= DaysBeforeMonth(y, b)
    decreases b - a
  {
    if a + 1 < b {
      DaysBeforeMonthIncreasing(y, a + 1, b);
      DaysBeforeMonthStep(y, a + 1);
    }
  }

  /** A calendar date: `get(YEAR)`, `get(MONTH)` (from 0) and
      `get(DAY_OF_MONTH)` (from 1). */
  datatype Date = Date(year: int, month: int, day: int)

  /** `date` is the date of day number `n`: its year's span holds `n`, its
      month's span within that year holds `n`, and its day counts from 1 at
      the start of the month. */
  predicate IsDateOf(n: int, date: Date)
  {
    0 <= date.month < 12
    && YearStart(date.year) <= n < YearStart(date.year + 1)
    && DaysBeforeMonth(date.year, date.month) <= n - YearStart(date.year)
         < DaysBeforeMonth(date.year, date.month + 1)
    && date.day == n - YearStart(date.year) - DaysBeforeMonth(date.year, date.month) + 1
  }

  /** No two years, and no two months of a year, share a day. */
  lemma {:induction false} DateUnique(n: int, a: Date, b: Date)
    requires IsDateOf(n, a) && IsDateOf(n, b)
    ensures a == b
  {
    YearStartIncreasing(a.year, b.year);
    YearStartIncreasing(b.year, a.year);
    DaysBeforeMonthIncreasing(a.year, a.month, b.month);
    DaysBeforeMonthIncreasing(a.year, b.month, a.month);
  }

  /** The date of day number `n`, walking from month `m` of year `y`: a
      year back while `n` lies before year `y`, a year on while it lies
      beyond it, then a month on while it lies beyond month `m`. */
  function DateFrom(n: int, y: int, m: int): Date
    requires 0 <= m < 12 && (YearStart(y) <= n ==> DaysBeforeMonth(y, m) <= n - YearStart(y))
    decreases (if n < YearStart(y) then 1 else 0), (if n < YearStart(y) then YearStart(y) - n else n - YearStart(y)), 12 - m
  {
    YearStartStep(y - 1);
    YearStartStep(y);
    if n < YearStart(y) then DateFrom(n, y - 1, 0)
    else if n >= YearStart(y + 1) then DateFrom(n, y + 1, 0)
    else if m < 11 && DaysBeforeMonth(y, m + 1) <= n - YearStart(y) then DateFrom(n, y, m + 1)
    else Date(y, m, n - YearStart(y) - DaysBeforeMonth(y, m) + 1)
  }

  /** The walk ends on the date of `n`. */
  lemma {:induction false} DateFromHolds(n: int, y: int, m: int)
    requires 0 <= m < 12 && (YearStart(y) <= n ==> DaysBeforeMonth(y, m) <= n - YearStart(y))
    ensures IsDateOf(n, DateFrom(n, y, m))
    decreases (if n < YearStart(y) then 1 else 0), (if n < YearStart(y) then YearStart(y) - n else n - YearStart(y)), 12 - m
  {
    YearStartStep(y);
    if n < YearStart(y) {
      YearStartStep(y - 1);
      DateFromHolds(n, y - 1, 0);
    } else if n >= YearStart(y + 1) {
      DateFromHolds(n, y + 1, 0);
    } else if m < 11 && DaysBeforeMonth(y, m + 1) <= n - YearStart(y) {
      DateFromHolds(n, y, m + 1);
    } else {
      DateInMonth(n, y, m);
    }
  }

  /** A day of year `y` lying in month `m` has the date `m` and its offset
      from the month's start give. */
  lemma {:induction false} DateInMonth(n: int, y: int, m: int)
    requires 0 <= m < 12 && YearStart(y) <= n < YearStart(y + 1) && YearStart(y + 1) == YearStart(y) + DaysInYear(y)
    requires DaysBeforeMonth(y, m) <= n - YearStart(y) && (m == 11 || n - YearStart(y) < DaysBeforeMonth(y, m + 1))
    ensures IsDateOf(n, Date(y, m, n - YearStart(y) - DaysBeforeMonth(y, m) + 1))
  {
  }

  /** The date of day number `n`, walking from January 1970. */
  function CivilDay(n: int): Date
  {
    DateFrom(n, 1970, 0)
  }

  /** `CivilDay(n)` is a date of `n`. */
  lemma {:induction false} CivilDayIsDate(n: int)
    ensures IsDateOf(n, CivilDay(n))
  {
    DateFromHolds(n, 1970, 0);
  }

  /** A day number has exactly one date. */
  lemma {:induction false} CivilDayIn(n: int, date: Date)
    requires IsDateOf(n, date)
    ensures CivilDay(n) == date
  {
    CivilDayIsDate(n);
    DateUnique(n, CivilDay(n), date);
  }

  /** The date of the instant `t`. */
  function CivilDate(t: int): Date
  {
    CivilDay(DayNumber(t))
  }

  /** `set(Calendar.DAY_OF_MONTH, 1)`: the same time of day on the first of
      the month. */
  function FirstOfMonth(t: int): int
  {
    t - (CivilDate(t).day - 1) * ONE_DAY
  }

  /** Moving a midnight back by whole days keeps it a midnight and moves its
      day number by as many days. */
  lemma {:induction false} DayNumberShift(d: int, k: int)
    requires d % ONE_DAY == 0
    ensures (d - k * ONE_DAY) % ONE_DAY == 0
    ensures DayNumber(d - k * ONE_DAY) == DayNumber(d) - k
  {
    var n := d / ONE_DAY;
    assert d == n * ONE_DAY;
    assert d - k * ONE_DAY == (n - k) * ONE_DAY;
  }

  /** Going back `day - 1` days from a day lands on the first of its month. */
  lemma {:induction false} FirstDayOfMonth(n: int)
    ensures CivilDay(n - (CivilDay(n).day - 1)) == Date(CivilDay(n).year, CivilDay(n).month, 1)
  {
    var date := CivilDay(n);
    CivilDayIsDate(n);
    CivilDayIn(n - (date.day - 1), Date(date.year, date.month, 1));
  }

  /** The first of the month is a midnight no later than the day itself,
      `day - 1` days before it. */
  lemma {:induction false} FirstOfMonthIsMidnight(d: int)
    requires d % ONE_DAY == 0
    ensures FirstOfMonth(d) % ONE_DAY == 0 && FirstOfMonth(d) <= d
    ensures DayNumber(FirstOfMonth(d)) == DayNumber(d) - (CivilDay(DayNumber(d)).day - 1)
  {
    CivilDayIsDate(DayNumber(d));
    DayNumberShift(d, CivilDay(DayNumber(d)).day - 1);
  }

  /** The first of the month falls in the same month and year, on day 1. */
  lemma {:induction false} FirstOfMonthIsFirst(d: int)
    requires d % ONE_DAY == 0
    ensures CivilDate(FirstOfMonth(d)) == Date(CivilDate(d).year, CivilDate(d).month, 1)
  {
    FirstOfMonthIsMidnight(d);
    FirstDayOfMonth(DayNumber(d));
  }
}
