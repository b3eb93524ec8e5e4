/**
 The calendar fields the dashboard derives from a record's `time`: the epoch
 seconds are shifted back by five hours (a fixed offset, not a time zone) and
 read as a date of the proleptic Gregorian calendar, as pandas'
 `DatetimeIndex.day` and `.month` do. Day numbers count days since
 1970-01-01.
 */
module Civil {

  const SecondsPerDay: int := 86400
  /** The fixed five-hour shift subtracted from every timestamp. */
  const ShiftSeconds: int := 5 * 3600

  datatype Date = Date(year: int, month: int, day: int)

  predicate IsLeapYear(y: int) {
    y % 4 == 0 && (y % 100 != 0 || y % 400 == 0)
  }

  function DaysInYear(y: int): int {
    if IsLeapYear(y) then 366 else 365
  }

  function DaysInMonth(y: int, m: int): int
    requires 1 <= m <= 12
  {
    if m == 2 then (if IsLeapYear(y) then 29 else 28)
    else if m == 4 || m == 6 || m == 9 || m == 11 then 30
    else 31
  }

  /** A date that exists in the calendar. */
  predicate ValidDate(d: Date) {
    1 <= d.month <= 12 && 1 <= d.day <= DaysInMonth(d.year, d.month)
  }

  /** The day number of January 1st of year `y`. */
  function YearStart(y: int): int
    decreases if y >= 1970 then y - 1970 else 1970 - y
  {
    if y == 1970 then 0
    else if y > 1970 then YearStart(y - 1) + DaysInYear(y - 1)
    else YearStart(y + 1) - DaysInYear(y)
  }

  /** Days of year `y` before the first of month `m`. */
  function MonthStart(y: int, m: int): int
    requires 1 <= m <= 12
  {
    var cumulative := [0, 31, 59, 90, 120, 151, 181, 212, 243, 273, 304, 334];
    cumulative[m - 1] + (if m > 2 && IsLeapYear(y) then 1 else 0)
  }

  /** The day number of a calendar date. */
  function DayNumber(d: Date): int
    requires ValidDate(d)
  {
    YearStart(d.year) + MonthStart(d.year, d.month) + d.day - 1
  }

  lemma YearStartStep(y: int)
    ensures YearStart(y + 1) == YearStart(y) + DaysInYear(y)
  {
  }

  /** Consecutive months tile the year without gaps. */
  lemma MonthStartStep(y: int, m: int)
    requires 1 <= m <= 12
    ensures m < 12 ==> MonthStart(y, m + 1) == MonthStart(y, m) + DaysInMonth(y, m)
    ensures m == 12 ==> MonthStart(y, m) + DaysInMonth(y, m) == DaysInYear(y)
  {
  }

  /**
   The year containing the day `offset` days after January 1st of `y`, and
   that day's zero-based position within its year.
   */
  function YearOf(y: int, offset: int): (r: (int, int))
    ensures 0 <= r.1 < DaysInYear(r.0)
    ensures YearStart(r.0) + r.1 == YearStart(y) + offset
    decreases if offset < 0 then 366 - offset else offset
  {
    if offset < 0 then
      YearStartStep(y - 1);
      YearOf(y - 1, offset + DaysInYear(y - 1))
    else if offset >= DaysInYear(y) then
      YearStartStep(y);
      YearOf(y + 1, offset - DaysInYear(y))
    else (y, offset)
  }

  /**
   The month and one-based day of the day `offset` days after the first of
   month `m` of year `y`.
   */
  function MonthOf(y: int, m: int, offset: int): (r: (int, int))
    requires 1 <= m <= 12
    requires 0 <= offset < DaysInYear(y) - MonthStart(y, m)
    ensures 1 <= r.0 <= 12 && 1 <= r.1 <= DaysInMonth(y, r.0)
    ensures MonthStart(y, r.0) + r.1 - 1 == MonthStart(y, m) + offset
    decreases 12 - m
  {
    MonthStartStep(y, m);
    if offset < DaysInMonth(y, m) then (m, offset + 1)
    else MonthOf(y, m + 1, offset - DaysInMonth(y, m))
  }

  /** The calendar date of a day number. */
  function DateOf(n: int): (d: Date)
    ensures ValidDate(d)
    ensures DayNumber(d) == n
  {
    var (y, dayOfYear) := YearOf(1970, n);
    var (m, day) := MonthOf(y, 1, dayOfYear);
    Date(y, m, day)
  }

  /** Earlier years start no later than later ones. */
  lemma {:induction false} YearStartMonotone(a: int, b: int)
    requires a <= b
    ensures YearStart(a) <= YearStart(b)
    decreases b - a
  {
    if a < b {
      YearStartStep(a);
      YearStartMonotone(a + 1, b);
    }
  }

  /** Different valid dates have different day numbers. */
  lemma DayNumberInjective(d: Date, e: Date)
    requires ValidDate(d) && ValidDate(e)
    requires DayNumber(d) == DayNumber(e)
    ensures d == e
  {
    MonthStartStep(d.year, d.month);
    MonthStartStep(e.year, e.month);
    if d.year < e.year {
      YearStartStep(d.year);
      YearStartMonotone(d.year + 1, e.year);
      MonthStartBounds(d.year, d.month);
      assert false;
    } else if e.year < d.year {
      YearStartStep(e.year);
      YearStartMonotone(e.year + 1, d.year);
      MonthStartBounds(e.year, e.month);
      assert false;
    }
    if d.month < e.month {
      MonthStartMonotone(d.year, d.month + 1, e.month);
    } else if e.month < d.month {
      MonthStartMonotone(e.year, e.month + 1, d.month);
    }
  }

  lemma MonthStartBounds(y: int, m: int)
    requires 1 <= m <= 12
    ensures MonthStart(y, m) + DaysInMonth(y, m) <= DaysInYear(y)
  {
  }

  lemma MonthStartMonotone(y: int, a: int, b: int)
    requires 1 <= a <= b <= 12
    ensures MonthStart(y, a) <= MonthStart(y, b)
  {
  }

  /** Reading a valid date's day number back gives the date itself. */
  lemma DateOfDayNumber(d: Date)
    requires ValidDate(d)
    ensures DateOf(DayNumber(d)) == d
  {
    DayNumberInjective(DateOf(DayNumber(d)), d);
  }

  /**
   `d` is the calendar date of the instant five hours before epoch second
   `t`: a valid date whose 86400-second day contains that instant.
   */
  predicate IsLocalDateOf(d: Date, t: int) {
    ValidDate(d) && DayNumber(d) * SecondsPerDay <= t - ShiftSeconds < (DayNumber(d) + 1) * SecondsPerDay
  }

  /** An instant has only one local date. */
  lemma LocalDateUnique(d: Date, e: Date, t: int)
    requires IsLocalDateOf(d, t) && IsLocalDateOf(e, t)
    ensures d == e
  {
    assert DayNumber(d) == DayNumber(e);
    DayNumberInjective(d, e);
  }

  /**
   The calendar date shown for epoch second `t`: the date of the instant
   five hours before `t`. Dafny's division rounds toward negative infinity
   for a positive divisor, so instants before the epoch land on the right day.
   */
  function LocalDate(t: int): (d: Date)
    ensures IsLocalDateOf(d, t)
  {
    DateOf((t - ShiftSeconds) / SecondsPerDay)
  }
}
