# Presidents' lifespans: a Dafny model of the data pipeline in `presidents.py`

`presidents.py` loads a table of United States presidents, which has a name, a
birth date, a death date (empty for a living president) and a location of death
(empty for the living). It drops the file's last row. It measures how long each
president lived, in days and in numpy's month and year units; a living
president is measured up to today. It then shows the ten oldest and the ten
youngest with their whole-year AGE, highlighting living presidents. Last, it
computes the mean, a year-frequency weighted mean, the median, the mode (by
truncated year, scaled back to days), the maximum and the minimum of the day
counts.

This project models that pipeline and proves its properties:

- `basics.dfy`: module `Basics`. `Option` stands for NaN. `AllButLast` is
  Python's `[:-1]`.
- `calendar.dfy`: module `Calendar`. Dates of the proleptic Gregorian calendar,
  their day numbers, and the whole-day difference between two dates. It proves
  that day numbers increase in calendar order and that the sign of a difference
  is the order of its dates.
- `durations.dfy`: module `Durations`. numpy's year and month units, taken as
  exact rationals, and the truncation done by `astype(int)`.
- `sorting.dfy`: module `Sorting`. An insertion sort by an integer key, in
  either direction, proved sorted and a permutation. `TopN` is
  `sort_values(...).head(n)`.
- `table.dfy`: module `Table`. The DataFrame as the class `Frame`, with one
  sequence field per column. Each step of lines 9-30 that changes the frame is
  one method: dropping the last row (line 9, which rebinds `dataframe` to a
  copy), and lines 12, 15, 20, 21 and 30. Lines 24-27 are one method,
  `ComputeDurations`. The clock call of line 19 is the `today` parameter.
  `PrepareRow`/`PreparedRows` are the pure specification of what those
  statements compute.
- `ranking.dfy`: module `Ranking`. The oldest-ten and youngest-ten tables, AGE,
  and `highlight_living`.
- `statistics.dfy`: module `Statistics`. `value_counts`, the weights loop (a
  method with loop invariants), and the six statistics with their bounds and
  the mode's characterisation.
- `pipeline.dfy`: module `Pipeline`. `Analyse` runs the whole script through the
  `Frame` methods and the weights loop. It is proved equal to the pure
  specifications.

The loaded table and today's date are parameters. Dates arrive already parsed.

Two points of the code are easy to misread:
- The code divides by `numpy.timedelta64(1, "Y")` and `numpy.timedelta64(1, "M")`.
  These units are 365.2425 and 30.436875 days, not 365.25 and 30.44.
- The code sorts with pandas' default `sort_values`, which is not stable. So
  only the key order and the multiset of rows are specified, and tie order is
  left open.

## Model

| member | source | states |
|---|---|---|
| Basics.AllButLast | presidents.py:9 | `[:-1]` keeps the first n-1 elements in their order; an empty table stays empty |
| Table.Frame.DropLastRow | presidents.py:9 | every column loses its last cell, so the frame has one row fewer (none if it was empty), and its column lengths stay consistent |
| Table.PreparedRowsShape | presidents.py:9 | the prepared table has one row fewer than was loaded, and row i is loaded row i prepared |
| Table.Frame.FromRecords | presidents.py:8 | loading gives one cell per row in each loaded column: NaN where the row has no value, and no derived columns yet |
| Table.Frame.ParseYearOfBirth | presidents.py:12 | `year_of_birth[i]` is the year of `BIRTH DATE[i]`, and no other column changes |
| Table.FillNa | presidents.py:15 | `fillna(v)` replaces exactly the NaN cells with v and keeps all other cells |
| Table.FillNaSettles | presidents.py:21 | after filling with a present value no NaN is left, and filling again changes nothing |
| Table.Frame.FillLocation | presidents.py:15 | unknown locations of death become "Living", and only that column changes |
| Table.Frame.CopyDeathDates | presidents.py:20 | `most_recent_date_living` is a copy of the death-date column |
| Table.Frame.FillMostRecent | presidents.py:21 | missing reference dates become today; present ones are kept |
| Table.Frame.ComputeDurations | presidents.py:24-27 | `lived_days[i]` is the whole-day difference between reference date and birth date; `lived_months` and `lived_years` are it divided by numpy's month and year units |
| Table.Frame.FillDeathDate | presidents.py:30 | missing death dates become "Living", and the duration and reference columns are left unchanged |
| Table.LivedDaysMeasured | presidents.py:19-25 | a row's duration runs to its death date when present and to today otherwise; it is non-negative exactly when birth is not after that date, and zero exactly when they coincide |
| Table.LivingMarksMissingDeath | presidents.py:30 | a prepared row's death date is the "Living" sentinel exactly when the loaded row had no death date |
| Calendar.DaysBetweenSign | presidents.py:24-25 | a day difference is positive exactly when the first date is earlier, zero exactly on equal dates, negative exactly when it is later |
| Calendar.DaysFromCivilIncreasing | presidents.py:24 | day numbers strictly increase in calendar order |
| Calendar.YearLength | presidents.py:24 | a year adds 366 days when it is a Gregorian leap year and 365 otherwise |
| Calendar.NextDay | presidents.py:24 | the next calendar date comes strictly after the given one |
| Calendar.NextDayCountsOne | presidents.py:24-25 | day numbers have no gaps: the next calendar date has the next day number, so a difference counts the calendar days between its ends |
| Calendar.FiftyYearsFrom1900 | presidents.py:24-25 | 1900-01-01 to 1950-01-01 is 18262 days |
| Durations.Trunc | presidents.py:43 | `astype(int)` truncates toward zero: the result has the sign of x and lies within one unit of it, towards zero |
| Durations.AgeBounds | presidents.py:43 | for a non-negative duration, AGE whole years fit into it and AGE+1 do not |
| Durations.AgeFraction | presidents.py:73 | for a non-negative duration, 0 ≤ `lived_years` − AGE < 1 |
| Durations.AgeMonotone | presidents.py:41-43 | a longer duration never has a smaller AGE |
| Sorting.SortBy | presidents.py:41 | the sort is a permutation of the table, ordered by the key in the requested direction |
| Sorting.TopN | presidents.py:41 | `head(n)` after the sort has min(n, rows) rows, is a sub-multiset of the table, is sorted, and no row left out ranks ahead of a row taken |
| Ranking.OldestTenRanked | presidents.py:41-45 | the oldest-first table has min(10, n) rows taken from the table; `lived_days` and AGE do not increase down it; each AGE is the truncated years; every row left out lived no longer than every row taken |
| Ranking.YoungestTenRanked | presidents.py:60-62 | the youngest-first table has min(10, n) rows taken from the table; `lived_days` and AGE do not decrease down it; every row left out lived no shorter than every row taken |
| Ranking.SmallTableRankedWhole | presidents.py:41-62 | with at most ten rows, both tables hold exactly the rows of the table |
| Ranking.HighlightLiving | presidents.py:33-37 | one style per column; the highlight colour exactly when the death-date cell is "Living", otherwise transparent |
| Ranking.StyleRows | presidents.py:53 | `apply(highlight_living, axis=1)` styles every row of a table with its own style list |
| Ranking.HighlightMarksLiving | presidents.py:30-37 | a row is highlighted exactly when its loaded death date was missing |
| Statistics.Occurrences | presidents.py:74 | the count of a value is at most the length, and positive exactly when the value occurs |
| Statistics.OccurrencesIsMultiplicity | presidents.py:74 | that count is the value's multiplicity in the column's multiset |
| Statistics.ValueCounts | presidents.py:74 | `value_counts` has a key exactly for each value present, mapped to its count (at least 1) |
| Statistics.ComputeWeights | presidents.py:77-82 | the loop gives one weight per row, equal to the count of that row's truncated year, so each weight is at least 1 |
| Statistics.WeightTotal | presidents.py:77-82 | the weights sum to the sum of the squared year counts |
| Statistics.WeightsExample | presidents.py:77-82 | years 50, 50, 80 give weights 2, 2, 1 |
| Statistics.CentralValuesBounded | presidents.py:84-92 | on a non-empty column, min ≤ mean ≤ max, min ≤ weighted mean ≤ max and min ≤ median ≤ max; on an empty column every statistic is NaN and the mode is empty |
| Statistics.WeightedMeanExample | presidents.py:84-88 | days 18262, 18263, 29000 with years 50, 50, 80 have weighted mean 20410 |
| Statistics.Maximum | presidents.py:91 | the maximum is a value of the column and no value exceeds it |
| Statistics.Minimum | presidents.py:92 | the minimum is a value of the column and no value is below it |
| Statistics.Mode | presidents.py:90 | the mode holds exactly the values whose count no other value exceeds, in strictly increasing order |
| Statistics.ModeDays | presidents.py:90 | `mode() * 365` holds each mode year times 365, in the same order: a year is a mode exactly when 365 times it is listed |
| Statistics.ModeTie | presidents.py:90 | years 50, 80, 50, 80, 60 have the two modes 50 and 80 |
| Statistics.ComputeStatistics | presidents.py:77-92 | the statistics block, weights loop included, computes mean, weighted mean, median, mode in days, max and min as specified |
| Pipeline.LoadTrimmed | presidents.py:8-9 | loading and dropping the last row gives a fresh frame holding the first n-1 loaded rows |
| Pipeline.DeriveColumns | presidents.py:12-30 | the statements of lines 12-30, run in order, fill every derived column: the year of birth, the reference date (death date or today), the durations, and the "Living" sentinels |
| Pipeline.PrepareTable | presidents.py:8-30 | running the frame's statements on the loaded table yields exactly the pure prepared table |
| Pipeline.Analyse | presidents.py:8-92 | the whole script yields the prepared table, both top-10 tables with their styles, and the statistics of its day and truncated-year columns |
| Pipeline.StatisticsInputs | presidents.py:72-73 | the statistics read one day count per loaded row but the last, each measured to the death date or today, and their years column is the AGE of each count |
| Pipeline.FooterScenario | presidents.py:9-30 | with two rows and a footer, only two rows remain: the first lived 18262 days, and the living one is measured to today and marked "Living" |
| Pipeline.FiftyCalendarYearsAgeFortyNine | presidents.py:24-27 | 1900-01-01 to 1950-01-01 is 18262 days, less than fifty numpy years, so AGE is 49 |

## Left out

- CSV reading (presidents.py:8) is not modelled. The model takes the rows as a sequence of records with four columns: name, birth date, death date and location of death. Any other column of the file is not modelled.
- Date-string parsing by `pandas.DatetimeIndex` and the clock `datetime.now()` (presidents.py:12, 19, 24) are not modelled. Both are calls into libraries. Dates arrive parsed and valid, and today's date is a parameter. pandas' timestamp range (years 1677 to 2262) is not enforced.
- Table.Frame.ComputeDurations: requires every reference cell to be a date, as `DatetimeIndex` requires. A text cell would make pandas raise, and the model has no NaT (not-a-time) durations. By construction, the script never gives it anything else.
- Durations.LivedYears and Durations.LivedMonths use exact rationals; the float rounding of numpy's division is not modelled.
- The standard deviation (presidents.py:93) needs a square root and is not modelled.
- Styling and display are not modelled: `hide_index`, `hide_columns`, `set_caption`, building the statistics table, and the division of every statistic by 365 (presidents.py:47-57, 64-69, 95-104). These are output formatting.
- The plots (presidents.py:106-133) are not modelled. They are user-interface output.
- Sorting.TopN: does not fix the order among rows with equal `lived_days`. pandas' default sort is not stable, so that order is unspecified.
- Ranking.HighlightLiving: the style list has one entry for each of the nine modelled columns of a ranked row. A file with more columns gives longer lists.
- Row labels are not modelled. After `read_csv` and `[:-1]`, label i is position i, so `lived_years_col[i]` (presidents.py:79) is the i-th row.
