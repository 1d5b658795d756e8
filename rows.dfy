/** How `write_archives` and `row_year` (scraper/scrape_and_push.py:490-557)
    read one history row: its year, its UTC date, and its month. */
module HistoryRows {
  import opened JsonValues
  import opened Collections
  import opened IntParsing
  import opened Calendar
  import opened Series

  /** The first four characters of `str(row.get("timestamp_iso", ""))`. */
  function IsoHead(row: Row): (h: string)
    ensures |h| <= 4
  {
    var iso := if "timestamp_iso" in row then CellText(row["timestamp_iso"]) else "";
    if |iso| <= 4 then iso else iso[..4]
  }

  /** `row_year(row)`, with the current UTC year as nowYear: the number the
      ISO text begins with; failing that, the UTC year of the row's
      timestamp; failing that too, the current year. */
  function RowYear(row: Row, nowYear: int): int
  {
    match IntOfString(IsoHead(row))
    case Some(y) => y
    case None =>
      var ms := TimestampOf(row);
      if ms.Some? && InDatetimeRange(ms.value) then YearOfMs(ms.value) else nowYear
  }

  /** A row whose ISO text starts with a zero-padded year is filed under
      that year, whatever its timestamp says. */
  lemma RowYearFromIso(row: Row, nowYear: int, year: nat, rest: string)
    requires year < 10000
    requires "timestamp_iso" in row && row["timestamp_iso"] == Text(Pad(year, 4) + rest)
    ensures RowYear(row, nowYear) == year
  {
    assert Pow10(4) == 10000;
    var iso := Pad(year, 4) + rest;
    assert iso[..4] == Pad(year, 4);
    assert IsoHead(row) == Pad(year, 4);
    PadValue(year, 4);
    IntOfDigits(Pad(year, 4));
  }

  /** When int() rejects the head of the ISO text ("", "N/A", "12:0", ...)
      the row is filed under the UTC year of its timestamp, and under the
      current year when that timestamp is unusable. */
  lemma RowYearFallback(row: Row, nowYear: int)
    requires IntOfString(IsoHead(row)).None?
    ensures var ms := TimestampOf(row);
      RowYear(row, nowYear) == if ms.Some? && InDatetimeRange(ms.value) then YearOfMs(ms.value) else nowYear
  {
  }

  /** A row without ISO text (no such column, or a CSV line too short to
      have it) is filed under the UTC year of its timestamp, and under the
      current year when that timestamp is unusable. */
  lemma RowYearWithoutIso(row: Row, nowYear: int)
    requires "timestamp_iso" !in row || row["timestamp_iso"] == Missing
    ensures var ms := TimestampOf(row);
      ms.Some? && InDatetimeRange(ms.value) ==> RowYear(row, nowYear) == YearOfMs(ms.value)
    ensures var ms := TimestampOf(row);
      !(ms.Some? && InDatetimeRange(ms.value)) ==> RowYear(row, nowYear) == nowYear
  {
    var h := IsoHead(row);
    assert h == [] || h == "None";
    assert !IsDigit('N') && !IsDigit('o') && !IsDigit('n') && !IsDigit('e');
    IntOfStringNeedsDigit(h);
    RowYearFallback(row, nowYear);
  }

  /** The UTC date of the row's timestamp; None where int() rejects the
      timestamp or datetime cannot hold its year. */
  function RowDate(row: Row): (d: Option<Date>)
    ensures d.Some? ==> ValidDate(d.value) && 1 <= d.value.year <= 9999
  {
    var ms := TimestampOf(row);
    if ms.Some? && InDatetimeRange(ms.value) then Some(DateOfMs(ms.value)) else None
  }

  /** The `YYYY-MM` key of the month holding the row's timestamp. */
  function RowMonthKey(row: Row): Option<string>
  {
    match RowDate(row)
    case None => None
    case Some(d) => Some(MonthKey(d.year, d.month))
  }

  predicate HasDate(row: Row)
  {
    RowDate(row).Some?
  }

  /** Rows `write_archives` can file: on any other row its loop raises, and
      nothing catches it. */
  predicate Archivable(rows: seq<Row>)
  {
    forall i :: 0 <= i < |rows| ==> HasDate(rows[i])
  }

  /** Part of archivable rows is archivable, and has timestamps. */
  lemma ArchivableFilter(rows: seq<Row>, p: Row -> bool)
    requires Archivable(rows)
    ensures Archivable(Filter(rows, p)) && Timestamped(Filter(rows, p))
  {
    FilterKeepsAll(rows, p, HasDate);
    ArchivableTimestamped(Filter(rows, p));
  }

  /** A row whose timestamp int() accepts and datetime can hold has the
      date of that timestamp. */
  lemma StampedRowDate(row: Row, ms: int)
    requires TimestampOf(row) == Some(ms) && InDatetimeRange(ms)
    ensures RowDate(row) == Some(DateOfMs(ms))
  {
  }

  /** Archivable histories joined are archivable. */
  lemma ArchivableAppend(rows: seq<Row>, more: seq<Row>)
    requires Archivable(rows) && Archivable(more)
    ensures Archivable(rows + more)
  {
    var all := rows + more;
    assert forall i :: 0 <= i < |all| ==> all[i] == if i < |rows| then rows[i] else more[i - |rows|];
  }

  /** Rows with a date have a timestamp. */
  lemma ArchivableTimestamped(rows: seq<Row>)
    requires Archivable(rows)
    ensures Timestamped(rows)
  {
    forall i | 0 <= i < |rows|
      ensures TimestampOf(rows[i]).Some?
    {
      assert RowDate(rows[i]).Some?;
    }
  }

  /** The year bucket of a row. */
  function YearOf(nowYear: int): Row -> int
  {
    (row: Row) => RowYear(row, nowYear)
  }

  /** The month bucket of a row; "" stands in for the rows without a date,
      which `write_archives` never files (its loop raises on them). */
  function MonthOf(row: Row): string
  {
    match RowMonthKey(row)
    case Some(k) => k
    case None => ""
  }

  /** The month of a row as a number, twelve to a year: the numbers order
      the months as their keys do. 0 for the rows without a date. */
  function OrdinalOf(row: Row): int
  {
    match RowDate(row)
    case Some(d) => MonthNumber(d)
    case None => 0
  }

  /** Twelve numbers to a year, in calendar order. */
  function MonthNumber(d: Date): int
  {
    12 * d.year + (d.month - 1)
  }
}
