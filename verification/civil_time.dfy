/** Timestamps and calendar days. A timestamp is a whole number of hours
    since 2026-01-01 00:00 (pandas `datetime64` values at hourly
    granularity); a day is a whole number of days since 2026-01-01. The civil
    calendar is the proleptic Gregorian one pandas uses. */
module CivilTime {

  /* ------------------------------------------------------ hours and days */

  /** The day a timestamp falls on (its midnight is `24 * DayIndex(h)`). */
  function DayIndex(h: int): (d: int)
    ensures 24 * d <= h < 24 * d + 24
  {
    h / 24
  }

  /** pandas `dt.hour`. */
  function HourOfDay(h: int): (r: int)
    ensures 0 <= r < 24
    ensures h == 24 * DayIndex(h) + r
  {
    h % 24
  }

  /** 2026-01-01 is a Thursday; weekdays count from Monday = 0. */
  const EpochWeekday: int := 3

  /** pandas `dt.dayofweek` (Monday = 0, Sunday = 6). */
  function DayOfWeek(h: int): (r: int)
    ensures 0 <= r < 7
  {
    (EpochWeekday + DayIndex(h)) % 7
  }

  /** Saturday or Sunday. */
  predicate IsWeekend(h: int)
  {
    DayOfWeek(h) >= 5
  }

  /** The epoch is a Thursday; moving one day forward moves one weekday
      forward, wrapping after Sunday, and leaves the hour of the day alone. */
  lemma NextDay(h: int)
    ensures DayOfWeek(0) == 3
    ensures DayIndex(h + 24) == DayIndex(h) + 1
    ensures DayOfWeek(h + 24) == (DayOfWeek(h) + 1) % 7
    ensures HourOfDay(h + 24) == HourOfDay(h)
  {
    assert 24 * (DayIndex(h) + 1) <= h + 24 < 24 * (DayIndex(h) + 1) + 24;
  }

  /* ------------------------------------------------------ civil calendar */

  datatype Date = Date(year: int, month: int, day: int)

  predicate IsLeapYear(y: int)
  {
    y % 4 == 0 && (y % 100 != 0 || y % 400 == 0)
  }

  function DaysInYear(y: int): int
  {
    if IsLeapYear(y) then 366 else 365
  }

  function DaysInMonth(y: int, m: int): int
    requires 1 <= m <= 12
  {
    if m == 2 then (if IsLeapYear(y) then 29 else 28)
    else if m == 4 || m == 6 || m == 9 || m == 11 then 30
    else 31
  }

  /** Days of a common year before the first of month `m` (`m == 13` is the
      whole year). */
  const CommonDaysBefore: seq<int> := [0, 31, 59, 90, 120, 151, 181, 212, 243, 273, 304, 334, 365]

  function DaysBeforeMonth(y: int, m: int): int
    requires 1 <= m <= 13
  {
    CommonDaysBefore[m - 1] + (if m > 2 && IsLeapYear(y) then 1 else 0)
  }

  lemma DaysBeforeMonthStep(y: int, m: int)
    requires 1 <= m <= 12
    ensures DaysBeforeMonth(y, m + 1) == DaysBeforeMonth(y, m) + DaysInMonth(y, m)
    ensures DaysBeforeMonth(y, 13) == DaysInYear(y)
    ensures DaysBeforeMonth(y, 1) == 0
  {
  }

  lemma DaysBeforeMonthMonotone(y: int, m1: int, m2: int)
    requires 1 <= m1 <= m2 <= 13
    ensures DaysBeforeMonth(y, m1) <= DaysBeforeMonth(y, m2)
  {
  }

  predicate ValidDate(d: Date)
  {
    1 <= d.month <= 12 && 1 <= d.day <= DaysInMonth(d.year, d.month)
  }

  /** Days from 2026-01-01 to January 1st of year `y`. */
  function YearStart(y: int): int
    decreases if y >= 2026 then y - 2026 else 2026 - y
  {
    if y == 2026 then 0
    else if y > 2026 then YearStart(y - 1) + DaysInYear(y - 1)
    else YearStart(y + 1) - DaysInYear(y)
  }

  lemma YearStartStep(y: int)
    ensures YearStart(y + 1) == YearStart(y) + DaysInYear(y)
  {
  }

  lemma {:induction false} YearStartMonotone(a: int, b: int)
    requires a < b
    ensures YearStart(a) + DaysInYear(a) <= YearStart(b)
    decreases b - a
  {
    YearStartStep(b - 1);
    if a < b - 1 {
      YearStartMonotone(a, b - 1);
    }
  }

  /** The day number of a valid civil date. */
  function DayNumber(d: Date): int
    requires ValidDate(d)
  {
    YearStart(d.year) + DaysBeforeMonth(d.year, d.month) + d.day - 1
  }

  /** The year holding day `n` counted from January 1st of year `y`, and the
      0-based day within that year. */
  function LocateYear(n: int, y: int): (r: (int, int))
    ensures 0 <= r.1 < DaysInYear(r.0)
    ensures YearStart(r.0) + r.1 == YearStart(y) + n
    decreases if n < 0 then 366 - n else n
  {
    if 0 <= n < DaysInYear(y) then (y, n)
    else if n >= DaysInYear(y) then
      YearStartStep(y);
      LocateYear(n - DaysInYear(y), y + 1)
    else
      YearStartStep(y - 1);
      LocateYear(n + DaysInYear(y - 1), y - 1)
  }

  /** The month and 1-based day holding the `rest`-th day counted from the
      first of month `m` of year `y`. */
  function LocateMonth(y: int, m: int, rest: int): (r: (int, int))
    requires 1 <= m <= 12 && 0 <= rest
    requires DaysBeforeMonth(y, m) + rest < DaysInYear(y)
    ensures 1 <= r.0 <= 12 && 1 <= r.1 <= DaysInMonth(y, r.0)
    ensures DaysBeforeMonth(y, r.0) + r.1 - 1 == DaysBeforeMonth(y, m) + rest
    decreases 12 - m
  {
    DaysBeforeMonthStep(y, m);
    if rest < DaysInMonth(y, m) then (m, rest + 1)
    else LocateMonth(y, m + 1, rest - DaysInMonth(y, m))
  }

  /** The civil date of day number `n` (pandas `dt.date`). */
  function DateOfDay(n: int): (d: Date)
    ensures ValidDate(d)
    ensures DayNumber(d) == n
  {
    var (y, doy) := LocateYear(n, 2026);
    DaysBeforeMonthStep(y, 1);
    var (m, day) := LocateMonth(y, 1, doy);
    Date(y, m, day)
  }

  /** Lexicographic order on dates. */
  predicate DateBefore(a: Date, b: Date)
  {
    a.year < b.year
    || (a.year == b.year && a.month < b.month)
    || (a.year == b.year && a.month == b.month && a.day < b.day)
  }

  /** Day numbers follow the calendar order. */
  lemma DayNumberOrder(a: Date, b: Date)
    requires ValidDate(a) && ValidDate(b)
    requires DateBefore(a, b)
    ensures DayNumber(a) < DayNumber(b)
  {
    DaysBeforeMonthStep(a.year, a.month);
    DaysBeforeMonthStep(b.year, b.month);
    if a.year < b.year {
      YearStartMonotone(a.year, b.year);
      DaysBeforeMonthMonotone(a.year, a.month + 1, 13);
    } else if a.month < b.month {
      DaysBeforeMonthMonotone(a.year, a.month + 1, b.month);
    }
  }

  /** Distinct valid dates have distinct day numbers, so `DateOfDay` is the
      inverse of `DayNumber`. */
  lemma DateOfDayNumber(d: Date)
    requires ValidDate(d)
    ensures DateOfDay(DayNumber(d)) == d
  {
    var e := DateOfDay(DayNumber(d));
    if DateBefore(d, e) {
      DayNumberOrder(d, e);
    } else if DateBefore(e, d) {
      DayNumberOrder(e, d);
    }
  }

  /** pandas `dt.month`. */
  function MonthOf(h: int): (m: int)
    ensures 1 <= m <= 12
  {
    DateOfDay(DayIndex(h)).month
  }

  /** pandas `dt.day`. */
  function DayOfMonth(h: int): (d: int)
    ensures 1 <= d <= 31
  {
    DateOfDay(DayIndex(h)).day
  }

  /** The month and day of the month of a timestamp are those of the civil
      date whose day number is the timestamp's day. */
  lemma MonthAndDayOfTimestamp(h: int)
    ensures exists y :: ValidDate(Date(y, MonthOf(h), DayOfMonth(h)))
                     && DayNumber(Date(y, MonthOf(h), DayOfMonth(h))) == DayIndex(h)
  {
    var d := DateOfDay(DayIndex(h));
    assert d == Date(d.year, MonthOf(h), DayOfMonth(h));
  }

  /** 2026-01-03 08:00 is a Saturday in January, at hour 8. */
  lemma SaturdayMorning()
    ensures HourOfDay(56) == 8 && DayOfWeek(56) == 5 && IsWeekend(56)
    ensures MonthOf(56) == 1 && DayOfMonth(56) == 3
  {
    assert DayIndex(56) == 2;
    assert DayNumber(Date(2026, 1, 3)) == 2;
    DateOfDayNumber(Date(2026, 1, 3));
  }
}
