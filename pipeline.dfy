/** The script from the loaded table to the two ranked tables and the
    statistics, with the loaded rows and today's date as inputs. */
module Pipeline {
  import opened Basics
  import opened Calendar
  import opened Durations
  import opened Table
  import opened Ranking
  import opened Statistics

  datatype Report = Report(
    table: seq<Row>,
    oldest: seq<RankedRow>,
    oldestStyles: seq<seq<string>>,
    youngest: seq<RankedRow>,
    youngestStyles: seq<seq<string>>,
    statistics: Summary)

  /** `lived_days_col` */
  function DaysColumn(rows: seq<Row>): (days: seq<int>)
    ensures |days| == |rows|
    ensures forall i :: 0 <= i < |rows| ==> days[i] == rows[i].livedDays
  {
    seq(|rows|, i requires 0 <= i < |rows| => rows[i].livedDays)
  }

  /** `lived_years_col`: `lived_years` truncated toward zero. */
  function YearsColumn(rows: seq<Row>): (years: seq<int>)
    ensures |years| == |rows|
    ensures forall i :: 0 <= i < |rows| ==> years[i] == Trunc(rows[i].livedYears)
  {
    seq(|rows|, i requires 0 <= i < |rows| => Trunc(rows[i].livedYears))
  }

  /** Lines 8-30 of the script: load the rows into a frame and derive its
      columns in place, statement by statement. */
  method PrepareTable(loaded: seq<Record>, today: Date) returns (table: seq<Row>)
    ensures table == PreparedRows(loaded, today)
  {
    var frame := LoadTrimmed(loaded);
    ghost var kept := AllButLast(loaded);
    DeriveColumns(frame, today);
    FrameHoldsPrepared(frame, kept, today);
    table := frame.Rows();
    PreparedRowsShape(loaded, today);
  }

  /** Lines 8-9: the loaded rows as a frame, without the last row. */
  method LoadTrimmed(loaded: seq<Record>) returns (frame: Frame)
    ensures fresh(frame) && frame.Valid()
    ensures frame.Length() == |AllButLast(loaded)|
    ensures forall i :: 0 <= i < frame.Length() ==>
      && frame.name[i] == loaded[i].name && frame.birthDate[i] == loaded[i].birthDate
      && frame.deathDate[i] == DateCell(loaded[i].deathDate)
      && frame.locationOfDeath[i] == TextCell(loaded[i].locationOfDeath)
    ensures frame.yearOfBirth == [] && frame.mostRecentDateLiving == []
    ensures frame.livedDays == [] && frame.livedMonths == [] && frame.livedYears == []
  {
    frame := new Frame.FromRecords(loaded);
    frame.DropLastRow();
  }

  /** Lines 12-30: the derived columns, in the order the script adds them. */
  method DeriveColumns(frame: Frame, today: Date)
    requires frame.Valid()
    requires forall i :: 0 <= i < |frame.deathDate| ==> !frame.deathDate[i].Text?
    modifies frame
    ensures frame.Complete()
    ensures frame.name == old(frame.name) && frame.birthDate == old(frame.birthDate)
    ensures frame.deathDate == FillNa(old(frame.deathDate), Text(Living))
    ensures frame.locationOfDeath == FillNa(old(frame.locationOfDeath), Text(Living))
    ensures forall i :: 0 <= i < frame.Length() ==>
      && frame.yearOfBirth[i] == frame.birthDate[i].year
      && frame.mostRecentDateLiving[i] == Fill(old(frame.deathDate)[i], Dated(today))
      && frame.livedDays[i] == DaysBetween(frame.birthDate[i], frame.mostRecentDateLiving[i].date)
      && frame.livedMonths[i] == LivedMonths(frame.livedDays[i])
      && frame.livedYears[i] == LivedYears(frame.livedDays[i])
  {
    frame.ParseYearOfBirth();
    frame.FillLocation();
    frame.CopyDeathDates();
    frame.FillMostRecent(today);
    frame.ComputeDurations();
    frame.FillDeathDate();
  }

  /** A complete frame whose columns hold what the script derives from the
      kept rows reads back as those rows prepared. */
  lemma FrameHoldsPrepared(frame: Frame, kept: seq<Record>, today: Date)
    requires frame.Complete() && frame.Length() == |kept|
    requires forall i :: 0 <= i < |kept| ==>
      && frame.name[i] == kept[i].name && frame.birthDate[i] == kept[i].birthDate
      && frame.deathDate[i] == Fill(DateCell(kept[i].deathDate), Text(Living))
      && frame.locationOfDeath[i] == Fill(TextCell(kept[i].locationOfDeath), Text(Living))
      && frame.yearOfBirth[i] == kept[i].birthDate.year
      && frame.mostRecentDateLiving[i] == Dated(ReferenceDate(kept[i].deathDate, today))
      && frame.livedDays[i] == DaysBetween(frame.birthDate[i], frame.mostRecentDateLiving[i].date)
      && frame.livedMonths[i] == LivedMonths(frame.livedDays[i])
      && frame.livedYears[i] == LivedYears(frame.livedDays[i])
    ensures frame.Rows() == seq(|kept|, i requires 0 <= i < |kept| => PrepareRow(kept[i], today))
  {
  }

  /** Runs the script: the preparation of the table, the two top-10 tables
      with their styles, and the statistics block. */
  method Analyse(loaded: seq<Record>, today: Date) returns (report: Report)
    ensures report.table == PreparedRows(loaded, today)
    ensures report.oldest == OldestTen(report.table)
    ensures report.oldestStyles == StyleRows(report.oldest)
    ensures report.youngest == YoungestTen(report.table)
    ensures report.youngestStyles == StyleRows(report.youngest)
    ensures report.statistics == Summarize(DaysColumn(report.table), YearsColumn(report.table))
  {
    var table := PrepareTable(loaded, today);
    var oldest := OldestTen(table);
    var youngest := YoungestTen(table);
    var statistics := ComputeStatistics(DaysColumn(table), YearsColumn(table));
    report := Report(table, oldest, StyleRows(oldest), youngest, StyleRows(youngest), statistics);
  }

  /** In the prepared table `lived_years` comes from `lived_days`, so the
      ranking lemmas apply to it. */
  lemma PreparedYearsFromDays(loaded: seq<Record>, today: Date)
    ensures YearsFromDays(PreparedRows(loaded, today))
  {
  }

  /** The statistics see every loaded row but the last: one day count per
      kept row, measured to its death date or today, and the years column is
      the AGE of that count. */
  lemma StatisticsInputs(loaded: seq<Record>, today: Date)
    ensures var days := DaysColumn(PreparedRows(loaded, today));
      && |days| == |AllButLast(loaded)|
      && forall i :: 0 <= i < |days| ==>
        days[i] == DaysBetween(loaded[i].birthDate, ReferenceDate(loaded[i].deathDate, today))
    ensures var rows := PreparedRows(loaded, today);
      forall i :: 0 <= i < |rows| ==> YearsColumn(rows)[i] == Age(DaysColumn(rows)[i])
  {
  }

  /** Two dated rows and a footer: only the first two reach the statistics;
      the first lived 18262 days, the living one is measured to today. */
  lemma FooterScenario(today: Date, footer: Record)
    ensures var loaded := [
        Record("A", CivilDate(1900, 1, 1), Some(CivilDate(1950, 1, 1)), Some("X")),
        Record("B", CivilDate(1920, 6, 15), None, None),
        footer];
      var rows := PreparedRows(loaded, today);
      && |rows| == 2
      && rows[0].livedDays == 18262
      && rows[1].livedDays == DaysBetween(CivilDate(1920, 6, 15), today)
      && rows[1].deathDate == Text(Living) && rows[1].locationOfDeath == Text(Living)
      && |DaysColumn(rows)| == 2
  {
    FiftyYearsFrom1900();
  }

  /** Fifty calendar years are 18262 days, which falls short of fifty numpy
      years (18262.125 days): a president who lived from 1900-01-01 to
      1950-01-01 is ranked with AGE 49. */
  lemma FiftyCalendarYearsAgeFortyNine()
    ensures Age(DaysBetween(CivilDate(1900, 1, 1), CivilDate(1950, 1, 1))) == 49
  {
    FiftyYearsFrom1900();
    AgeBounds(18262);
    assert 50.0 * DaysPerYear > 18262.0;
    assert 48.0 * DaysPerYear < 18262.0;
  }
}
