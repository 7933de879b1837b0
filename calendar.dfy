/** Calendar dates of the proleptic Gregorian calendar (the ISO 8601 calendar)
    and whole-day differences between them. Both BIRTH DATE and the reference
    date carry no time of day, so the difference of two dates is an integer
    number of days. */
module Calendar {

  datatype CivilDate = CivilDate(year: int, month: int, day: int)

  predicate IsLeapYear(y: int) {
    y % 4 == 0 && (y % 100 != 0 || y % 400 == 0)
  }

  function DaysInYear(y: int): int {
    if IsLeapYear(y) then 366 else 365
  }

  function DaysInMonth(y: int, m: int): (n: int)
    requires 1 <= m <= 12
    ensures 28 <= n <= 31
    ensures n == 29 <==> m == 2 && IsLeapYear(y)
  {
    if m == 2 then (if IsLeapYear(y) then 29 else 28)
    else if m == 4 || m == 6 || m == 9 || m == 11 then 30
    else 31
  }

  predicate ValidDate(d: CivilDate) {
    1 <= d.month <= 12 && 1 <= d.day <= DaysInMonth(d.year, d.month)
  }

  /** A date that exists in the calendar; parsing a date column yields these. */
  type Date = d: CivilDate | ValidDate(d) witness CivilDate(1970, 1, 1)

  /** Days from 0001-01-01 to the first day of year `y` (negative before it).
      Dafny's `/` by a positive constant rounds down, as the calendar needs. */
  function DaysBeforeYear(y: int): int {
    var p := y - 1;
    365 * p + p / 4 - p / 100 + p / 400
  }

  /** Days from the first of January to the first day of month `m` of year `y`. */
  function DaysBeforeMonth(y: int, m: int): int
    requires 1 <= m <= 12
  {
    [0, 31, 59, 90, 120, 151, 181, 212, 243, 273, 304, 334][m - 1]
      + (if m > 2 && IsLeapYear(y) then 1 else 0)
  }

  /** Day number of a date, counting 0001-01-01 as day 0. */
  function DaysFromCivil(d: Date): int {
    DaysBeforeYear(d.year) + DaysBeforeMonth(d.year, d.month) + d.day - 1
  }

  /** Whole days from `from` to `to`: the difference of two date-only timestamps. */
  function DaysBetween(from: Date, to: Date): int {
    DaysFromCivil(to) - DaysFromCivil(from)
  }

  /** `a` is a strictly earlier calendar date than `b`. */
  predicate Precedes(a: CivilDate, b: CivilDate) {
    a.year < b.year
    || (a.year == b.year && a.month < b.month)
    || (a.year == b.year && a.month == b.month && a.day < b.day)
  }

  /** Crossing from `q - 1` to `q` adds one multiple of 4, 100 or 400 exactly
      when `q` is that multiple. */
  lemma MultiplesStep(q: int)
    ensures q / 4 - (q - 1) / 4 == if q % 4 == 0 then 1 else 0
    ensures q / 100 - (q - 1) / 100 == if q % 100 == 0 then 1 else 0
    ensures q / 400 - (q - 1) / 400 == if q % 400 == 0 then 1 else 0
  {
  }

  lemma MultiplesNest(q: int)
    ensures q % 400 == 0 ==> q % 100 == 0
    ensures q % 100 == 0 ==> q % 4 == 0
  {
  }

  /** The four-hundred-year rule: stepping over year `y` adds that year's length. */
  lemma {:induction false} YearLength(y: int)
    ensures DaysBeforeYear(y + 1) == DaysBeforeYear(y) + DaysInYear(y)
  {
    MultiplesStep(y);
    MultiplesNest(y);
  }

  lemma {:induction false} DaysBeforeYearGrows(y1: int, y2: int)
    requires y1 < y2
    ensures DaysBeforeYear(y1 + 1) <= DaysBeforeYear(y2)
    decreases y2 - y1
  {
    if y1 + 1 < y2 {
      DaysBeforeYearGrows(y1 + 1, y2);
      YearLength(y1 + 1);
    }
  }

  /** The day of a valid date falls inside its year. */
  lemma DayOfYearInRange(d: Date)
    ensures 0 <= DaysBeforeMonth(d.year, d.month) + d.day - 1 < DaysInYear(d.year)
  {
  }

  /** Later months of a year start after earlier months have ended. */
  lemma MonthsFollow(y: int, m1: int, m2: int)
    requires 1 <= m1 < m2 <= 12
    ensures DaysBeforeMonth(y, m1) + DaysInMonth(y, m1) <= DaysBeforeMonth(y, m2)
  {
  }

  /** Day numbers are strictly increasing in calendar order. */
  lemma DaysFromCivilIncreasing(a: Date, b: Date)
    requires Precedes(a, b)
    ensures DaysFromCivil(a) < DaysFromCivil(b)
  {
    if a.year < b.year {
      DayOfYearInRange(a);
      YearLength(a.year);
      DaysBeforeYearGrows(a.year, b.year);
    } else if a.month < b.month {
      MonthsFollow(a.year, a.month, b.month);
    }
  }

  /** The sign of a whole-day difference is the calendar order of its ends:
      positive exactly when `from` comes first, zero exactly on the same date. */
  lemma DaysBetweenSign(from: Date, to: Date)
    ensures DaysBetween(from, to) > 0 <==> Precedes(from, to)
    ensures DaysBetween(from, to) == 0 <==> from == to
    ensures DaysBetween(from, to) < 0 <==> Precedes(to, from)
  {
    if Precedes(from, to) {
      DaysFromCivilIncreasing(from, to);
    } else if Precedes(to, from) {
      DaysFromCivilIncreasing(to, from);
    }
  }

  /** The calendar date after `d`: the next day of its month, the first of
      the next month, or New Year's Day of the next year. */
  function NextDay(d: Date): (n: Date)
    ensures Precedes(d, n)
  {
    if d.day < DaysInMonth(d.year, d.month) then CivilDate(d.year, d.month, d.day + 1)
    else if d.month < 12 then CivilDate(d.year, d.month + 1, 1)
    else CivilDate(d.year + 1, 1, 1)
  }

  /** Each month of the table starts where the previous one ends. */
  lemma MonthStep(y: int, m: int)
    requires 1 <= m < 12
    ensures DaysBeforeMonth(y, m) + DaysInMonth(y, m) == DaysBeforeMonth(y, m + 1)
  {
  }

  /** December ends the year. */
  lemma YearEnd(y: int)
    ensures DaysBeforeMonth(y, 12) + DaysInMonth(y, 12) == DaysInYear(y)
  {
  }

  /** Day numbers leave no gaps: the next calendar date is the next day
      number, so a whole-day difference counts the days in between. */
  lemma {:induction false} NextDayCountsOne(d: Date)
    ensures DaysFromCivil(NextDay(d)) == DaysFromCivil(d) + 1
    ensures DaysBetween(d, NextDay(d)) == 1
  {
    if d.day < DaysInMonth(d.year, d.month) {
    } else if d.month < 12 {
      MonthStep(d.year, d.month);
    } else {
      YearEnd(d.year);
      YearLength(d.year);
    }
  }

  /** Fifty Gregorian years with twelve leap days, 1904 to 1948 (1900 is not one), span 18262 days. */
  lemma FiftyYearsFrom1900()
    ensures DaysBetween(CivilDate(1900, 1, 1), CivilDate(1950, 1, 1)) == 18262
  {
  }
}
