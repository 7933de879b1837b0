/** The two top-10 tables: rows sorted by `lived_days` (oldest first and
    youngest first), the first ten taken, `lived_years` truncated to an
    integer and renamed AGE, and living presidents highlighted. */
module Ranking {
  import opened Basics
  import opened Durations
  import opened Sorting
  import opened Table

  /** `head(10)` */
  const TopCount: nat := 10

  /** A row of a ranked table: `lived_years` has become the integer AGE. */
  datatype RankedRow = RankedRow(
    name: string,
    birthDate: Calendar.Date,
    deathDate: Cell,
    locationOfDeath: Cell,
    yearOfBirth: int,
    mostRecentDateLiving: Cell,
    livedDays: int,
    livedMonths: real,
    age: int)

  /** Cells in a ranked row, so entries in the style list of one row. */
  const RankedColumns: nat := 9

  const LivingStyle: string := "background-color: #55efc4"
  const PlainStyle: string := "background-color: transparent"

  /** The sort key of both rankings. */
  function LivedDaysOf(r: Row): int {
    r.livedDays
  }

  /** `lived_years` derived from `lived_days`, as every prepared row has it. */
  ghost predicate YearsFromDays(rows: seq<Row>) {
    forall i :: 0 <= i < |rows| ==> rows[i].livedYears == LivedYears(rows[i].livedDays)
  }

  /** `astype(int)` on `lived_years` followed by the rename to AGE. */
  function WithAge(r: Row): RankedRow {
    RankedRow(r.name, r.birthDate, r.deathDate, r.locationOfDeath, r.yearOfBirth,
              r.mostRecentDateLiving, r.livedDays, r.livedMonths, Trunc(r.livedYears))
  }

  function WithAges(rows: seq<Row>): (view: seq<RankedRow>)
    ensures |view| == |rows|
    ensures forall i :: 0 <= i < |rows| ==> view[i] == WithAge(rows[i])
  {
    seq(|rows|, i requires 0 <= i < |rows| => WithAge(rows[i]))
  }

  /** `sort_values("lived_days", ascending=False).head(10)` */
  function OldestRows(rows: seq<Row>): seq<Row> {
    TopN(rows, LivedDaysOf, true, TopCount)
  }

  /** `sort_values("lived_days", ascending=True).head(10)` */
  function YoungestRows(rows: seq<Row>): seq<Row> {
    TopN(rows, LivedDaysOf, false, TopCount)
  }

  /** `top_10_oldest_df` after the AGE conversion. */
  function OldestTen(rows: seq<Row>): seq<RankedRow> {
    WithAges(OldestRows(rows))
  }

  /** `top_10_youngest_df` after the AGE conversion. */
  function YoungestTen(rows: seq<Row>): seq<RankedRow> {
    WithAges(YoungestRows(rows))
  }

  /** The oldest-first table: min(10, n) rows taken from the table, non-increasing
      in days lived and in AGE, each row's AGE its truncated years, and no row
      left out lived longer than a row that was taken. */
  lemma OldestTenRanked(rows: seq<Row>)
    requires YearsFromDays(rows)
    ensures |OldestTen(rows)| == Min(TopCount, |rows|)
    ensures multiset(OldestRows(rows)) <= multiset(rows)
    ensures forall i :: 0 <= i < |OldestTen(rows)| ==> OldestTen(rows)[i] == WithAge(OldestRows(rows)[i])
    ensures forall i :: 0 <= i < |OldestTen(rows)| ==> OldestTen(rows)[i].age == Age(OldestTen(rows)[i].livedDays)
    ensures forall i, j :: 0 <= i < j < |OldestTen(rows)| ==>
      OldestTen(rows)[i].livedDays >= OldestTen(rows)[j].livedDays && OldestTen(rows)[i].age >= OldestTen(rows)[j].age
    ensures forall x, y | x in multiset(rows) - multiset(OldestRows(rows)) && y in OldestRows(rows) ::
      x.livedDays <= y.livedDays
  {
    var top, view := OldestRows(rows), OldestTen(rows);
    TakenKeepYears(rows, top);
    forall i, j | 0 <= i < j < |view|
      ensures view[i].livedDays >= view[j].livedDays && view[i].age >= view[j].age
    {
      assert InOrder(LivedDaysOf, true, top[i], top[j]);
      AgeMonotone(view[j].livedDays, view[i].livedDays);
    }
  }

  /** The youngest-first table: min(10, n) rows taken from the table,
      non-decreasing in days lived and in AGE, and no row left out lived
      shorter than a row that was taken. */
  lemma YoungestTenRanked(rows: seq<Row>)
    requires YearsFromDays(rows)
    ensures |YoungestTen(rows)| == Min(TopCount, |rows|)
    ensures multiset(YoungestRows(rows)) <= multiset(rows)
    ensures forall i :: 0 <= i < |YoungestTen(rows)| ==> YoungestTen(rows)[i] == WithAge(YoungestRows(rows)[i])
    ensures forall i :: 0 <= i < |YoungestTen(rows)| ==> YoungestTen(rows)[i].age == Age(YoungestTen(rows)[i].livedDays)
    ensures forall i, j :: 0 <= i < j < |YoungestTen(rows)| ==>
      YoungestTen(rows)[i].livedDays <= YoungestTen(rows)[j].livedDays && YoungestTen(rows)[i].age <= YoungestTen(rows)[j].age
    ensures forall x, y | x in multiset(rows) - multiset(YoungestRows(rows)) && y in YoungestRows(rows) ::
      x.livedDays >= y.livedDays
  {
    var top, view := YoungestRows(rows), YoungestTen(rows);
    TakenKeepYears(rows, top);
    forall i, j | 0 <= i < j < |view|
      ensures view[i].livedDays <= view[j].livedDays && view[i].age <= view[j].age
    {
      assert InOrder(LivedDaysOf, false, top[i], top[j]);
      AgeMonotone(view[i].livedDays, view[j].livedDays);
    }
  }

  /** Rows taken from a table whose years come from its days keep that link. */
  lemma TakenKeepYears(rows: seq<Row>, top: seq<Row>)
    requires YearsFromDays(rows) && multiset(top) <= multiset(rows)
    ensures YearsFromDays(top)
    ensures forall i :: 0 <= i < |top| ==> Trunc(top[i].livedYears) == Age(top[i].livedDays)
  {
    forall i | 0 <= i < |top|
      ensures top[i].livedYears == LivedYears(top[i].livedDays)
    {
      assert top[i] in multiset(top);
      assert top[i] in multiset(rows);
      var k :| 0 <= k < |rows| && rows[k] == top[i];
    }
  }

  /** With at most ten rows both tables hold the whole table, so they hold
      the same rows. */
  lemma SmallTableRankedWhole(rows: seq<Row>)
    requires |rows| <= TopCount
    ensures multiset(OldestRows(rows)) == multiset(rows)
    ensures multiset(YoungestRows(rows)) == multiset(rows)
  {
    SameSizeSubMultiset(OldestRows(rows), rows);
    SameSizeSubMultiset(YoungestRows(rows), rows);
  }

  lemma SameSizeSubMultiset<T>(a: seq<T>, b: seq<T>)
    requires multiset(a) <= multiset(b) && |a| == |b|
    ensures multiset(a) == multiset(b)
  {
    var rest := multiset(b) - multiset(a);
    assert multiset(b) == multiset(a) + rest;
    assert |multiset(b)| == |multiset(a)| + |rest|;
    assert |rest| == 0;
  }

  /** `highlight_living`: one style per column of the row, the highlight
      colour when the death-date cell is the Living sentinel and a
      transparent background otherwise. */
  function HighlightLiving(r: RankedRow): (styles: seq<string>)
    ensures |styles| == RankedColumns
    ensures forall k :: 0 <= k < |styles| ==>
      (styles[k] == LivingStyle <==> r.deathDate == Text(Living))
    ensures forall k :: 0 <= k < |styles| ==> styles[k] in {LivingStyle, PlainStyle}
  {
    if r.deathDate == Text(Living) then seq(RankedColumns, _ => LivingStyle)
    else seq(RankedColumns, _ => PlainStyle)
  }

  /** `style.apply(highlight_living, axis=1)`: the styles of every row. */
  function StyleRows(view: seq<RankedRow>): (styles: seq<seq<string>>)
    ensures |styles| == |view|
    ensures forall i :: 0 <= i < |view| ==> styles[i] == HighlightLiving(view[i])
  {
    seq(|view|, i requires 0 <= i < |view| => HighlightLiving(view[i]))
  }

  /** A row of either table is highlighted exactly when the loaded row it
      came from had no death date. */
  lemma HighlightMarksLiving(r: Record, today: Calendar.Date)
    ensures HighlightLiving(WithAge(PrepareRow(r, today)))[0] == LivingStyle <==> r.deathDate.None?
  {
    LivingMarksMissingDeath(r, today);
  }
}
