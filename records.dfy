/**
 * The catalog of titles and the clean-up `load_data` applies to every row
 * before the dashboard uses it: whitespace is stripped from the text columns,
 * `date_added` is parsed, and the calendar fields and the numeric year are
 * derived from it.
 */
module Records {
  import opened Wrappers
  import opened Text

  /** A calendar date as the date parser returns it. */
  datatype Date = Date(year: int, month: int, day: int)

  /**
   * One row as the CSV reader delivers it. A text cell is `None` when the
   * reader yields NaN for it (an empty cell or one of its missing-value
   * markers); `release_year` has already been read as a number by the reader.
   */
  datatype RawRow = RawRow(
    contentType: string,
    title: Option<string>,
    director: Option<string>,
    cast: Option<string>,
    country: Option<string>,
    dateAdded: Option<string>,
    releaseYear: Option<int>,
    listedIn: Option<string>)

  /** One normalised catalog entry. */
  datatype Record = Record(
    contentType: string,
    title: Option<string>,
    director: Option<string>,
    cast: Option<string>,
    country: Option<string>,
    dateAdded: Option<Date>,
    releaseYear: Option<int>,
    listedIn: Option<string>,
    yearAdded: Option<int>,
    monthAdded: Option<int>,
    year: Option<int>)

  /** A present text cell carries no leading or trailing whitespace. */
  predicate CellTrimmed(c: Option<string>) {
    c.Some? ==> IsTrimmed(c.value)
  }

  /** Strip a text cell; a missing cell stays missing. */
  function StripCell(c: Option<string>): (r: Option<string>)
    ensures r.None? <==> c.None?
    ensures c.Some? ==> r == Some(Trim(c.value))
    ensures CellTrimmed(r)
  {
    match c
    case None => None
    case Some(s) => Some(Trim(s))
  }

  /**
   * What every normalised record satisfies: its text columns are stripped, the
   * derived calendar fields are missing exactly when `date_added` is and are
   * otherwise its year and month, and the numeric `year` column is the release
   * year.
   */
  ghost predicate WellFormed(r: Record) {
    && IsTrimmed(r.contentType)
    && CellTrimmed(r.title) && CellTrimmed(r.director) && CellTrimmed(r.cast)
    && CellTrimmed(r.country) && CellTrimmed(r.listedIn)
    && (r.yearAdded.None? <==> r.dateAdded.None?)
    && (r.monthAdded.None? <==> r.dateAdded.None?)
    && (r.dateAdded.Some? ==>
          r.yearAdded.value == r.dateAdded.value.year && r.monthAdded.value == r.dateAdded.value.month)
    && r.year == r.releaseYear
  }

  /**
   * `date_added` after line 23: the cell is turned into text and stripped once
   * more, then handed to the date parser, which yields `None` (NaT) for text it
   * cannot read. A missing cell becomes the text "nan", which the parser reads
   * as NaT, so it stays missing.
   */
  function ParseDateCell(cell: Option<string>, parse: string -> Option<Date>): (d: Option<Date>)
    ensures cell.None? ==> d.None?
    ensures cell.Some? && IsTrimmed(cell.value) ==> d == parse(cell.value)
  {
    match cell
    case None => None
    case Some(s) =>
      assert IsTrimmed(s) ==> Trim(s) == s by {
        if IsTrimmed(s) {
          TrimOfTrimmed(s);
        }
      }
      parse(Trim(s))
  }

  /** The calendar year of an optional date (`.dt.year`). */
  function YearOf(d: Option<Date>): Option<int> {
    match d
    case None => None
    case Some(date) => Some(date.year)
  }

  /** The calendar month of an optional date (`.dt.month`). */
  function MonthOf(d: Option<Date>): Option<int> {
    match d
    case None => None
    case Some(date) => Some(date.month)
  }

  /**
   * `load_data` on one row. The result is well formed, a cell is missing
   * exactly when it was missing in the row, and the date parser sees the
   * stripped text of the cell: stripping a second time changes nothing.
   */
  function Normalize(row: RawRow, parse: string -> Option<Date>): (r: Record)
    ensures WellFormed(r)
    ensures r.title.None? <==> row.title.None?
    ensures r.director.None? <==> row.director.None?
    ensures r.cast.None? <==> row.cast.None?
    ensures r.country.None? <==> row.country.None?
    ensures r.listedIn.None? <==> row.listedIn.None?
    ensures r.contentType == Trim(row.contentType)
    ensures r.title == StripCell(row.title) && r.director == StripCell(row.director)
    ensures r.cast == StripCell(row.cast) && r.country == StripCell(row.country)
    ensures r.listedIn == StripCell(row.listedIn)
    ensures r.releaseYear == row.releaseYear
    ensures r.dateAdded == match row.dateAdded
                           case None => None
                           case Some(s) => parse(Trim(s))
  {
    // line 20: strip every text column
    var stripped := StripCell(row.dateAdded);
    // lines 23-24: strip again and parse
    var date := ParseDateCell(stripped, parse);
    StripCellIdempotent(row.dateAdded);
    Record(
      contentType := Trim(row.contentType),
      title := StripCell(row.title),
      director := StripCell(row.director),
      cast := StripCell(row.cast),
      country := StripCell(row.country),
      dateAdded := date,
      releaseYear := row.releaseYear,
      listedIn := StripCell(row.listedIn),
      // lines 27-29
      yearAdded := YearOf(date),
      monthAdded := MonthOf(date),
      year := row.releaseYear)
  }

  /** `load_data` on the whole table: one well-formed record per row, in row order. */
  function LoadData(rows: seq<RawRow>, parse: string -> Option<Date>): (catalog: seq<Record>)
    ensures |catalog| == |rows|
    ensures forall i :: 0 <= i < |rows| ==> catalog[i] == Normalize(rows[i], parse)
    ensures forall r :: r in catalog ==> WellFormed(r)
  {
    seq(|rows|, i requires 0 <= i < |rows| => Normalize(rows[i], parse))
  }

  /** Normalising is idempotent on the text columns: stripping a stripped cell changes nothing. */
  lemma {:induction false} StripCellIdempotent(c: Option<string>)
    ensures StripCell(StripCell(c)) == StripCell(c)
  {
    if c.Some? {
      TrimIdempotent(c.value);
    }
  }
}
