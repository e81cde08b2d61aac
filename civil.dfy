/** The proleptic Gregorian calendar on integer day numbers.

    Day 1 is 0001-01-01 and the numbering runs on through both directions
    without a gap, so a day number here is what chrono's
    `Datelike::num_days_from_ce` gives for the same civil date. Adding or
    subtracting a number of days to a date is adding or subtracting integers. */
module CivilCalendar {

  /** Number of days in one full 400-year cycle of the Gregorian calendar. */
  const DAYS_PER_400_YEARS := 146097

  predicate IsLeapYear(y: int) {
    y % 4 == 0 && (y % 100 != 0 || y % 400 == 0)
  }

  function DaysInYear(y: int): int {
    if IsLeapYear(y) then 366 else 365
  }

  function DaysInMonth(y: int, m: int): int
    requires 1 <= m <= 12
  {
    if m == 2 then (if IsLeapYear(y) then 29 else 28)
    else if m == 4 || m == 6 || m == 9 || m == 11 then 30
    else 31
  }

  /** The days of year `y` that come before the first of month `m`. */
  function DaysBeforeMonth(y: int, m: int): int
    requires 1 <= m <= 12
  {
    [0, 31, 59, 90, 120, 151, 181, 212, 243, 273, 304, 334][m - 1]
      + (if m > 2 && IsLeapYear(y) then 1 else 0)
  }

  /** A (year, month, day) triple that names a real date; anything else is
      refused by the date constructor before the cycle engine sees it. */
  predicate ValidDate(y: int, m: int, d: int) {
    1 <= m <= 12 && 1 <= d <= DaysInMonth(y, m)
  }

  /** The days in years 1 through n when n >= 0; for n < 0, minus the days in
      years n + 1 through 0. Leap days come from the floor divisions. */
  function DaysInYears(n: int): int {
    365 * n + n / 4 - n / 100 + n / 400
  }

  /** Day number of January 1 of year `y`. */
  function YearStart(y: int): int {
    DaysInYears(y - 1) + 1
  }

  /** Day number of the civil date (y, m, d). */
  function DaysFromCivil(y: int, m: int, d: int): int
    requires ValidDate(y, m, d)
  {
    DaysInYears(y - 1) + DaysBeforeMonth(y, m) + d
  }

  /** The months of a year follow one another without a gap and fill it. */
  lemma MonthsFillYear(y: int, m: int)
    requires 1 <= m <= 12
    ensures m < 12 ==> DaysBeforeMonth(y, m + 1) == DaysBeforeMonth(y, m) + DaysInMonth(y, m)
    ensures m == 12 ==> DaysBeforeMonth(y, m) + DaysInMonth(y, m) == DaysInYear(y)
  {
  }

  /** One year after January 1 of `y` comes January 1 of `y + 1`, 365 or 366
      days later as the leap-year rule says. */
  lemma YearLength(y: int)
    ensures YearStart(y + 1) == YearStart(y) + DaysInYear(y)
  {
    var n := y - 1;
    assert y / 4 - n / 4 == if y % 4 == 0 then 1 else 0;
    assert y / 100 - n / 100 == if y % 100 == 0 then 1 else 0;
    assert y / 400 - n / 400 == if y % 400 == 0 then 1 else 0;
    assert y % 100 == 0 ==> y % 4 == 0;
    assert y % 400 == 0 ==> y % 100 == 0;
  }

  /** January 1 moves strictly forward with the year. */
  lemma YearStartMonotone(a: int, b: int)
    requires a < b
    ensures YearStart(a) < YearStart(b)
  {
    var p, q := a - 1, b - 1;
    assert 100 * (q / 100 - p / 100) < q - p + 100;
    assert p / 4 <= q / 4 && p / 400 <= q / 400;
  }

  /** Whole 400-year cycles shift day numbers by a whole number of
      `DAYS_PER_400_YEARS`. */
  lemma DaysInYearsPeriodic(q: int, r: int)
    ensures DaysInYears(400 * q + r) == DAYS_PER_400_YEARS * q + DaysInYears(r)
  {
    assert (400 * q + r) / 4 == 100 * q + r / 4;
    assert (400 * q + r) / 100 == 4 * q + r / 100;
    assert (400 * q + r) / 400 == q + r / 400;
  }

  /** The year, counted from 0 within a 400-year cycle, in which the day at
      offset `rem` of that cycle falls; found by stepping down from `r`. */
  function YearInCycle(rem: int, r: int): (k: int)
    requires 0 <= rem && 0 <= r && rem < DaysInYears(r + 1)
    ensures 0 <= k <= r
    ensures DaysInYears(k) <= rem < DaysInYears(k + 1)
    decreases r
  {
    if DaysInYears(r) <= rem then r else YearInCycle(rem, r - 1)
  }

  /** The calendar year of day number `z`: the inverse of `DaysFromCivil` on
      the year component. */
  function YearOf(z: int): (y: int)
    ensures YearStart(y) <= z < YearStart(y + 1)
  {
    var q := (z - 1) / DAYS_PER_400_YEARS;
    var rem := (z - 1) % DAYS_PER_400_YEARS;
    assert rem < DaysInYears(rem / 365 + 1);
    var k := YearInCycle(rem, rem / 365);
    DaysInYearsPeriodic(q, k);
    DaysInYearsPeriodic(q, k + 1);
    400 * q + k + 1
  }

  /** Exactly one year contains a given day: `YearOf(z)` is `y` exactly when
      `z` lies between January 1 of `y` and January 1 of `y + 1`. */
  lemma YearOfCharacterized(z: int, y: int)
    ensures YearOf(z) == y <==> YearStart(y) <= z < YearStart(y + 1)
  {
    var x := YearOf(z);
    if x < y {
      YearStartMonotone(x + 1, y + 1);
      if x + 1 < y { YearStartMonotone(x + 1, y); }
    } else if y < x {
      if y + 1 < x { YearStartMonotone(y + 1, x); }
    }
  }

  /** A civil date's day number lies in its own year. */
  lemma DaysFromCivilInYear(y: int, m: int, d: int)
    requires ValidDate(y, m, d)
    ensures YearStart(y) <= DaysFromCivil(y, m, d) < YearStart(y + 1)
    ensures YearOf(DaysFromCivil(y, m, d)) == y
  {
    YearLength(y);
    assert DaysBeforeMonth(y, m) + DaysInMonth(y, m) <= DaysInYear(y);
    YearOfCharacterized(DaysFromCivil(y, m, d), y);
  }

  /** Consecutive calendar dates get consecutive day numbers: the day after
      (y, m, d) is the next day of the month, else the first of the next
      month, else January 1 of the next year. */
  lemma DaysFromCivilNextDay(y: int, m: int, d: int)
    requires ValidDate(y, m, d)
    ensures d < DaysInMonth(y, m) ==>
      DaysFromCivil(y, m, d + 1) == DaysFromCivil(y, m, d) + 1
    ensures d == DaysInMonth(y, m) && m < 12 ==>
      DaysFromCivil(y, m + 1, 1) == DaysFromCivil(y, m, d) + 1
    ensures d == DaysInMonth(y, m) && m == 12 ==>
      DaysFromCivil(y + 1, 1, 1) == DaysFromCivil(y, m, d) + 1
  {
    MonthsFillYear(y, m);
    YearLength(y);
  }
}
