/** Conversions of a whole-day duration into numpy's month and year units and
    the integer AGE obtained by `astype(int)`. Durations are exact rationals
    here; the float rounding of the original is not modelled. */
module Durations {

  /** numpy's `timedelta64(1, "Y")`: the mean Gregorian year, 31556952 seconds. */
  const DaysPerYear: real := 365.2425

  /** numpy's `timedelta64(1, "M")`: a twelfth of that year, 2629746 seconds. */
  const DaysPerMonth: real := 30.436875

  /** `lived_years`: the day count divided by the year unit. */
  function LivedYears(days: int): real {
    days as real / DaysPerYear
  }

  /** `lived_months`: the day count divided by the month unit. */
  function LivedMonths(days: int): real {
    days as real / DaysPerMonth
  }

  /** `astype(int)` on a float: truncation toward zero. The result is the
      integer nearest zero within one unit of `x`, with the sign of `x`. */
  function Trunc(x: real): (r: int)
    ensures x >= 0.0 ==> 0 <= r && 0.0 <= x - r as real < 1.0
    ensures x < 0.0 ==> r <= 0 && -1.0 < x - r as real <= 0.0
  {
    if x >= 0.0 then x.Floor else -((-x).Floor)
  }

  /** The AGE column: whole years lived, truncated. */
  function Age(days: int): int {
    Trunc(LivedYears(days))
  }

  /** For a non-negative duration, AGE counts the complete numpy years in it:
      `AGE` years fit into the duration and `AGE + 1` do not. */
  lemma AgeBounds(days: int)
    requires days >= 0
    ensures Age(days) >= 0
    ensures Age(days) as real * DaysPerYear <= days as real < (Age(days) + 1) as real * DaysPerYear
  {
    var x := LivedYears(days);
    var a := Age(days);
    assert x * DaysPerYear == days as real;
    assert a as real <= x < a as real + 1.0;
  }

  /** Truncation is monotone, so ordering rows by days also orders their AGE. */
  lemma TruncMonotone(x: real, y: real)
    requires x <= y
    ensures Trunc(x) <= Trunc(y)
  {
  }

  lemma AgeMonotone(d1: int, d2: int)
    requires d1 <= d2
    ensures Age(d1) <= Age(d2)
  {
    assert LivedYears(d1) <= LivedYears(d2);
    TruncMonotone(LivedYears(d1), LivedYears(d2));
  }

  /** For a non-negative duration, `lived_years - AGE` lies in [0, 1). */
  lemma AgeFraction(days: int)
    requires days >= 0
    ensures 0.0 <= LivedYears(days) - Age(days) as real < 1.0
  {
  }
}
