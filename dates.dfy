/**
 * Calendar dates as Python's `datetime.date` represents them: a year from 1 to 9999, a
 * month and a day valid in the proleptic Gregorian calendar.  Dates compare as the
 * (year, month, day) triple does, and the difference of two dates is the difference of
 * their day ordinals (`date.toordinal`, day 1 being 0001-01-01).
 */
module Dates {
  datatype Ymd = Ymd(year: int, month: int, day: int)

  const MinYear := 1
  const MaxYear := 9999

  predicate IsLeap(y: int) {
    y % 4 == 0 && (y % 100 != 0 || y % 400 == 0)
  }

  function DaysInMonth(y: int, m: int): (n: int)
    requires 1 <= m <= 12
    ensures 28 <= n <= 31
  {
    if m == 2 then (if IsLeap(y) then 29 else 28)
    else if m == 4 || m == 6 || m == 9 || m == 11 then 30
    else 31
  }

  predicate ValidDate(d: Ymd) {
    MinYear <= d.year <= MaxYear && 1 <= d.month <= 12 && 1 <= d.day <= DaysInMonth(d.year, d.month)
  }

  type Date = d: Ymd | ValidDate(d) witness Ymd(1, 1, 1)

  function DaysInYear(y: int): int {
    if IsLeap(y) then 366 else 365
  }

  /** Days in the years before `y` (`_days_before_year`). */
  function DaysBeforeYear(y: int): int
    requires y >= 1
  {
    var p := y - 1;
    p * 365 + p / 4 - p / 100 + p / 400
  }

  /** Days in the months of year `y` before month `m` (`_days_before_month`). */
  function DaysBeforeMonth(y: int, m: int): int
    requires 1 <= m <= 12
  {
    var table := [0, 31, 59, 90, 120, 151, 181, 212, 243, 273, 304, 334];
    table[m - 1] + if m > 2 && IsLeap(y) then 1 else 0
  }

  /** `date.toordinal()` */
  function Ordinal(d: Date): int {
    DaysBeforeYear(d.year) + DaysBeforeMonth(d.year, d.month) + d.day
  }

  /** `a < b` on dates: the lexicographic order of (year, month, day). */
  predicate Before(a: Date, b: Date) {
    a.year < b.year || (a.year == b.year && (a.month < b.month || (a.month == b.month && a.day < b.day)))
  }

  /** `(a - b).days` */
  function DaysBetween(a: Date, b: Date): int {
    Ordinal(a) - Ordinal(b)
  }

  lemma MonthStep(y: int, m: int)
    requires 1 <= m < 12
    ensures DaysBeforeMonth(y, m + 1) == DaysBeforeMonth(y, m) + DaysInMonth(y, m)
  {
  }

  lemma YearStep(y: int)
    requires y >= 1
    ensures DaysBeforeYear(y + 1) == DaysBeforeYear(y) + DaysInYear(y)
  {
    var p := y - 1;
    assert (p + 1) / 4 == p / 4 + (if y % 4 == 0 then 1 else 0);
    assert (p + 1) / 100 == p / 100 + (if y % 100 == 0 then 1 else 0);
    assert (p + 1) / 400 == p / 400 + (if y % 400 == 0 then 1 else 0);
  }

  /** A date's day number within its year never passes the year's length. */
  lemma {:induction false} DayOfYearBound(y: int, m: int, d: int)
    requires 1 <= m <= 12 && 1 <= d <= DaysInMonth(y, m)
    ensures DaysBeforeMonth(y, m) + d <= DaysInYear(y)
    decreases 12 - m
  {
    if m < 12 {
      MonthStep(y, m);
      DayOfYearBound(y, m + 1, 1);
    }
  }

  /** Every day of an earlier month of the same year comes before the first day of a later month. */
  lemma {:induction false} MonthsIncrease(y: int, m: int, m': int, d: int)
    requires 1 <= m < m' <= 12 && 1 <= d <= DaysInMonth(y, m)
    ensures DaysBeforeMonth(y, m) + d <= DaysBeforeMonth(y, m')
    decreases m' - m
  {
    MonthStep(y, m);
    if m + 1 < m' {
      MonthsIncrease(y, m + 1, m', 1);
    }
  }

  lemma {:induction false} YearsIncrease(y: int, y': int)
    requires 1 <= y < y'
    ensures DaysBeforeYear(y) + DaysInYear(y) <= DaysBeforeYear(y')
    decreases y' - y
  {
    YearStep(y);
    if y + 1 < y' {
      YearsIncrease(y + 1, y');
    }
  }

  /** The ordinal is strictly increasing in the date order. */
  lemma OrdinalIncreasing(a: Date, b: Date)
    requires Before(a, b)
    ensures Ordinal(a) < Ordinal(b)
  {
    if a.year < b.year {
      DayOfYearBound(a.year, a.month, a.day);
      YearsIncrease(a.year, b.year);
    } else if a.month < b.month {
      MonthsIncrease(a.year, a.month, b.month, a.day);
    }
  }

  /** Comparing ordinals is comparing dates, and different dates have different ordinals. */
  lemma OrdinalOrder(a: Date, b: Date)
    ensures Before(a, b) <==> Ordinal(a) < Ordinal(b)
    ensures a == b <==> Ordinal(a) == Ordinal(b)
  {
    if Before(a, b) {
      OrdinalIncreasing(a, b);
    } else if Before(b, a) {
      OrdinalIncreasing(b, a);
    } else {
      assert a == b;
    }
  }

  /** The difference in days is non-negative exactly when the later date is not before the earlier, and zero only on the same day. */
  lemma DaysBetweenSign(a: Date, b: Date)
    ensures DaysBetween(a, b) >= 0 <==> !Before(a, b)
    ensures DaysBetween(a, b) == 0 <==> a == b
  {
    OrdinalOrder(a, b);
  }

  /** Python's (and the proleptic Gregorian) ordinal of 1 January of year 1 is 1. */
  lemma FirstOrdinal()
    ensures Ordinal(Ymd(1, 1, 1)) == 1
  {
  }
}
