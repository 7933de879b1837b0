/** The presidents table and the in-place steps that derive its duration
    columns. A pandas DataFrame is a set of equally long columns; `Frame`
    keeps one sequence per column and each method is one statement of the
    script that reassigns or fills a column. `PrepareRow` is the pure
    specification of what those statements compute for one row. */
module Table {
  import opened Basics
  import opened Calendar
  import opened Durations

  /** A cell of an object column: NaN, a parseable date, or other text. */
  datatype Cell = Missing | Dated(date: Date) | Text(text: string)

  /** The sentinel written into empty death-date and location cells. */
  const Living: string := "Living"

  /** One data row as loaded: dates already parsed, empty cells absent. */
  datatype Record = Record(
    name: string,
    birthDate: Date,
    deathDate: Option<Date>,
    locationOfDeath: Option<string>)

  /** One row of the table once every derived column has been added. */
  datatype Row = Row(
    name: string,
    birthDate: Date,
    deathDate: Cell,
    locationOfDeath: Cell,
    yearOfBirth: int,
    mostRecentDateLiving: Cell,
    livedDays: int,
    livedMonths: real,
    livedYears: real)

  function DateCell(d: Option<Date>): Cell {
    match d
    case None => Missing
    case Some(date) => Dated(date)
  }

  function TextCell(t: Option<string>): Cell {
    match t
    case None => Missing
    case Some(text) => Text(text)
  }

  /** One cell under `fillna(v)`. */
  function Fill(c: Cell, v: Cell): Cell {
    if c == Missing then v else c
  }

  /** `fillna(v)`: every NaN cell becomes `v`, every other cell stays. */
  function FillNa(column: seq<Cell>, v: Cell): (r: seq<Cell>)
    ensures |r| == |column|
    ensures forall i :: 0 <= i < |r| && column[i] != Missing ==> r[i] == column[i]
    ensures forall i :: 0 <= i < |r| && column[i] == Missing ==> r[i] == v
  {
    seq(|column|, i requires 0 <= i < |column| => Fill(column[i], v))
  }

  /** Filling with a present value leaves no NaN, and filling again changes nothing. */
  lemma FillNaSettles(column: seq<Cell>, v: Cell)
    requires v != Missing
    ensures Missing !in FillNa(column, v)
    ensures FillNa(FillNa(column, v), v) == FillNa(column, v)
  {
  }

  /** `most_recent_date_living`: the death date, or today for a living subject. */
  function ReferenceDate(deathDate: Option<Date>, today: Date): Date {
    match deathDate
    case Some(d) => d
    case None => today
  }

  /** What lines 12-30 of the script make of one loaded row, given today's date. */
  function PrepareRow(r: Record, today: Date): Row {
    var reference := ReferenceDate(r.deathDate, today);
    var days := DaysBetween(r.birthDate, reference);
    Row(
      r.name,
      r.birthDate,
      Fill(DateCell(r.deathDate), Text(Living)),
      Fill(TextCell(r.locationOfDeath), Text(Living)),
      r.birthDate.year,
      Dated(reference),
      days,
      LivedMonths(days),
      LivedYears(days))
  }

  /** The whole table after the script's preparation: the loaded rows without
      the last one, each prepared against the same `today`. */
  function PreparedRows(loaded: seq<Record>, today: Date): seq<Row> {
    var kept := AllButLast(loaded);
    seq(|kept|, i requires 0 <= i < |kept| => PrepareRow(kept[i], today))
  }

  /** Shape of the prepared table: one row fewer than loaded (none for an
      empty load), and row `i` comes from loaded row `i`. */
  lemma PreparedRowsShape(loaded: seq<Record>, today: Date)
    ensures |loaded| > 0 ==> |PreparedRows(loaded, today)| == |loaded| - 1
    ensures |loaded| == 0 ==> PreparedRows(loaded, today) == []
    ensures forall i :: 0 <= i < |PreparedRows(loaded, today)| ==>
      PreparedRows(loaded, today)[i] == PrepareRow(loaded[i], today)
  {
  }

  /** The duration of a prepared row is measured up to its death date when it
      has one and up to today otherwise, and it is non-negative exactly when
      birth is not after that reference date. */
  lemma LivedDaysMeasured(r: Record, today: Date)
    ensures r.deathDate.Some? ==> PrepareRow(r, today).livedDays == DaysBetween(r.birthDate, r.deathDate.value)
    ensures r.deathDate.None? ==> PrepareRow(r, today).livedDays == DaysBetween(r.birthDate, today)
    ensures PrepareRow(r, today).livedDays >= 0 <==> !Precedes(ReferenceDate(r.deathDate, today), r.birthDate)
    ensures PrepareRow(r, today).livedDays == 0 <==> ReferenceDate(r.deathDate, today) == r.birthDate
  {
    DaysBetweenSign(r.birthDate, ReferenceDate(r.deathDate, today));
  }

  /** A prepared row carries the Living sentinel as its death date exactly
      when the loaded row had no death date. */
  lemma LivingMarksMissingDeath(r: Record, today: Date)
    ensures PrepareRow(r, today).deathDate == Text(Living) <==> r.deathDate.None?
  {
  }

  /** The DataFrame of the script, one sequence per column. Derived columns
      are empty until the statement that assigns them has run. */
  class Frame {
    var name: seq<string>
    var birthDate: seq<Date>
    var deathDate: seq<Cell>
    var locationOfDeath: seq<Cell>
    var yearOfBirth: seq<int>
    var mostRecentDateLiving: seq<Cell>
    var livedDays: seq<int>
    var livedMonths: seq<real>
    var livedYears: seq<real>

    /** Number of rows. */
    function Length(): nat
      reads this
    {
      |name|
    }

    /** Every column present has one cell per row. */
    ghost predicate Valid()
      reads this
    {
      && |birthDate| == Length()
      && |deathDate| == Length()
      && |locationOfDeath| == Length()
      && (yearOfBirth == [] || |yearOfBirth| == Length())
      && (mostRecentDateLiving == [] || |mostRecentDateLiving| == Length())
      && (livedDays == [] || |livedDays| == Length())
      && (livedMonths == [] || |livedMonths| == Length())
      && (livedYears == [] || |livedYears| == Length())
    }

    /** Every derived column has been assigned. */
    ghost predicate Complete()
      reads this
    {
      && Valid()
      && |yearOfBirth| == Length()
      && |mostRecentDateLiving| == Length()
      && |livedDays| == Length()
      && |livedMonths| == Length()
      && |livedYears| == Length()
    }

    /** `read_csv`: the loaded columns, NaN where a cell is empty. */
    constructor FromRecords(records: seq<Record>)
      ensures Valid() && Length() == |records|
      ensures forall i :: 0 <= i < |records| ==>
        && name[i] == records[i].name
        && birthDate[i] == records[i].birthDate
        && deathDate[i] == DateCell(records[i].deathDate)
        && locationOfDeath[i] == TextCell(records[i].locationOfDeath)
      ensures yearOfBirth == [] && mostRecentDateLiving == []
      ensures livedDays == [] && livedMonths == [] && livedYears == []
    {
      name := seq(|records|, i requires 0 <= i < |records| => records[i].name);
      birthDate := seq(|records|, i requires 0 <= i < |records| => records[i].birthDate);
      deathDate := seq(|records|, i requires 0 <= i < |records| => DateCell(records[i].deathDate));
      locationOfDeath := seq(|records|, i requires 0 <= i < |records| => TextCell(records[i].locationOfDeath));
      yearOfBirth, mostRecentDateLiving := [], [];
      livedDays, livedMonths, livedYears := [], [], [];
    }

    /** `dataframe = dataframe[:-1]`: the last row goes, in every column. */
    method DropLastRow()
      requires Valid()
      modifies this
      ensures Valid()
      ensures old(Length()) > 0 ==> Length() == old(Length()) - 1
      ensures old(Length()) == 0 ==> Length() == 0
      ensures name == AllButLast(old(name)) && birthDate == AllButLast(old(birthDate))
      ensures deathDate == AllButLast(old(deathDate))
      ensures locationOfDeath == AllButLast(old(locationOfDeath))
      ensures yearOfBirth == AllButLast(old(yearOfBirth))
      ensures mostRecentDateLiving == AllButLast(old(mostRecentDateLiving))
      ensures livedDays == AllButLast(old(livedDays))
      ensures livedMonths == AllButLast(old(livedMonths))
      ensures livedYears == AllButLast(old(livedYears))
    {
      name, birthDate := AllButLast(name), AllButLast(birthDate);
      deathDate, locationOfDeath := AllButLast(deathDate), AllButLast(locationOfDeath);
      yearOfBirth := AllButLast(yearOfBirth);
      mostRecentDateLiving := AllButLast(mostRecentDateLiving);
      livedDays, livedMonths, livedYears := AllButLast(livedDays), AllButLast(livedMonths), AllButLast(livedYears);
    }

    /** `year_of_birth`: the year of each birth date. */
    method ParseYearOfBirth()
      requires Valid()
      modifies this`yearOfBirth
      ensures Valid() && |yearOfBirth| == Length()
      ensures forall i :: 0 <= i < Length() ==> yearOfBirth[i] == birthDate[i].year
    {
      var births := birthDate;
      yearOfBirth := seq(|births|, i requires 0 <= i < |births| => births[i].year);
    }

    /** Unknown locations of death become "Living". */
    method FillLocation()
      requires Valid()
      modifies this`locationOfDeath
      ensures Valid()
      ensures locationOfDeath == FillNa(old(locationOfDeath), Text(Living))
    {
      locationOfDeath := FillNa(locationOfDeath, Text(Living));
    }

    /** `most_recent_date_living` starts as a copy of the death dates... */
    method CopyDeathDates()
      requires Valid()
      modifies this`mostRecentDateLiving
      ensures Valid()
      ensures mostRecentDateLiving == deathDate
    {
      mostRecentDateLiving := deathDate;
    }

    /** ...and its NaN cells are filled with today's date. */
    method FillMostRecent(today: Date)
      requires Valid()
      modifies this`mostRecentDateLiving
      ensures Valid()
      ensures mostRecentDateLiving == FillNa(old(mostRecentDateLiving), Dated(today))
    {
      mostRecentDateLiving := FillNa(mostRecentDateLiving, Dated(today));
    }

    /** `lived_days`, `lived_months` and `lived_years` from the reference and
        birth dates. Every reference cell must parse as a date, as
        `DatetimeIndex` requires. */
    method ComputeDurations()
      requires Valid() && |mostRecentDateLiving| == Length()
      requires forall i :: 0 <= i < |mostRecentDateLiving| ==> mostRecentDateLiving[i].Dated?
      modifies this`livedDays, this`livedMonths, this`livedYears
      ensures Valid()
      ensures |livedDays| == |livedMonths| == |livedYears| == Length()
      ensures forall i :: 0 <= i < Length() ==>
        && livedDays[i] == DaysBetween(birthDate[i], mostRecentDateLiving[i].date)
        && livedMonths[i] == LivedMonths(livedDays[i])
        && livedYears[i] == LivedYears(livedDays[i])
    {
      var n, births, references := |name|, birthDate, mostRecentDateLiving;
      var days := seq(n, i requires 0 <= i < n => DaysBetween(births[i], references[i].date));
      livedDays := days;
      livedMonths := seq(n, i requires 0 <= i < n => LivedMonths(days[i]));
      livedYears := seq(n, i requires 0 <= i < n => LivedYears(days[i]));
    }

    /** Empty death dates become "Living" once durations are computed; the
        duration columns are not touched. */
    method FillDeathDate()
      requires Valid()
      modifies this`deathDate
      ensures Valid()
      ensures deathDate == FillNa(old(deathDate), Text(Living))
      ensures livedDays == old(livedDays) && livedMonths == old(livedMonths)
      ensures livedYears == old(livedYears) && mostRecentDateLiving == old(mostRecentDateLiving)
    {
      deathDate := FillNa(deathDate, Text(Living));
    }

    /** The table read row by row. */
    function Rows(): (rows: seq<Row>)
      reads this
      requires Complete()
      ensures |rows| == Length()
    {
      seq(Length(), i requires 0 <= i < Length() && Complete() reads this =>
        Row(name[i], birthDate[i], deathDate[i], locationOfDeath[i], yearOfBirth[i],
            mostRecentDateLiving[i], livedDays[i], livedMonths[i], livedYears[i]))
    }
  }
}
