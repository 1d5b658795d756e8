/** The archive side of a cycle (scraper/scrape_and_push.py:490-557):
    `row_year`, the year and month buckets `write_archives` files the
    history rows into, the series of each bucket, and the sorted year and
    month indexes. */
module Archives {
  import opened JsonValues
  import opened Collections
  import opened IntParsing
  import opened Calendar
  import opened Series
  import opened HistoryRows

  /** `by_year[y]`: the rows of year y, in history order. */
  function YearBucket(rows: seq<Row>, y: int, nowYear: int): seq<Row>
  {
    Filter(rows, KeyIs(YearOf(nowYear), y))
  }

  /** `by_month[k]`: the rows of month k, in history order. */
  function MonthBucket(rows: seq<Row>, k: string): seq<Row>
  {
    Filter(rows, KeyIs(MonthOf, k))
  }

  /** `years_set`: the years of the rows. */
  function YearsOf(rows: seq<Row>, nowYear: int): set<int>
  {
    KeysOf(rows, YearOf(nowYear))
  }

  /** `months_set`: the month keys of the rows. */
  function MonthsOf(rows: seq<Row>): set<string>
  {
    KeysOf(rows, MonthOf)
  }

  /** A year has a bucket exactly when some row falls in it: no bucket is
      empty and no row goes unfiled. */
  lemma YearBucketOccupied(rows: seq<Row>, y: int, nowYear: int)
    ensures y in YearsOf(rows, nowYear) <==> YearBucket(rows, y, nowYear) != []
  {
    KeysOfOccupied(rows, YearOf(nowYear), y);
  }

  lemma MonthBucketOccupied(rows: seq<Row>, k: string)
    ensures k in MonthsOf(rows) <==> MonthBucket(rows, k) != []
  {
    KeysOfOccupied(rows, MonthOf, k);
  }

  /** Every row is in exactly one year bucket: the one of its own year
      holds it as often as the history does, every other bucket never. */
  lemma YearBucketsPartition(rows: seq<Row>, nowYear: int, y: int, row: Row)
    ensures multiset(YearBucket(rows, y, nowYear))[row]
      == if RowYear(row, nowYear) == y then multiset(rows)[row] else 0
  {
    FilterCount(rows, KeyIs(YearOf(nowYear), y), row);
  }

  /** Every row is in exactly one month bucket: the one of the month its
      timestamp falls in. */
  lemma MonthBucketsPartition(rows: seq<Row>, k: string, row: Row)
    ensures multiset(MonthBucket(rows, k))[row]
      == if MonthOf(row) == k then multiset(rows)[row] else 0
  {
    FilterCount(rows, KeyIs(MonthOf, k), row);
  }

  /** The loop of `write_archives` over the rows: `setdefault().append`
      into the two bucket maps, and the year and month sets, held as
      ascending lists (the month set by its month numbers). */
  method FileRows(rows: seq<Row>, nowYear: int)
    returns (byYear: map<int, seq<Row>>, byMonth: map<string, seq<Row>>, years: seq<int>, ords: seq<int>)
    requires Archivable(rows)
    ensures GroupedBy(byYear, rows, YearOf(nowYear))
    ensures GroupedBy(byMonth, rows, MonthOf)
    ensures StrictlyIncreasing(years) && forall y :: y in years <==> y in YearsOf(rows, nowYear)
    ensures StrictlyIncreasing(ords) && forall o :: o in ords <==> o in KeysOf(rows, OrdinalOf)
  {
    byYear, byMonth, years, ords := map[], map[], [], [];
    ghost var done: seq<Row> := [];
    var i := 0;
    while i < |rows|
      invariant 0 <= i <= |rows| && done == rows[..i]
      invariant GroupedBy(byYear, done, YearOf(nowYear))
      invariant GroupedBy(byMonth, done, MonthOf)
      invariant StrictlyIncreasing(years) && forall y :: y in years <==> y in KeysOf(done, YearOf(nowYear))
      invariant StrictlyIncreasing(ords) && forall o :: o in ords <==> o in KeysOf(done, OrdinalOf)
    {
      var row := rows[i];
      assert HasDate(row);
      var year := RowYear(row, nowYear);
      var d := RowDate(row).value;
      var key := MonthKey(d.year, d.month);
      assert year == YearOf(nowYear)(row) && key == MonthOf(row) && MonthNumber(d) == OrdinalOf(row);
      GroupedStep(byYear, done, YearOf(nowYear), row);
      GroupedStep(byMonth, done, MonthOf, row);
      KeysOfSnoc(done, YearOf(nowYear), row);
      KeysOfSnoc(done, OrdinalOf, row);
      byYear := AppendTo(byYear, year, row);
      byMonth := AppendTo(byMonth, key, row);
      years := Insert(years, year);
      ords := Insert(ords, MonthNumber(d));
      TakeOneMore(rows, i);
      done := done + [row];
      i := i + 1;
    }
    assert rows[..i] == rows;
  }

  /** The write loops of `write_archives`: for each bucket, the series of
      its rows. */
  method SeriesPerBucket<K>(buckets: map<K, seq<Row>>, names: seq<string>)
    returns (out: map<K, SeriesMap>)
    requires forall k :: k in buckets ==> Timestamped(buckets[k])
    ensures out.Keys == buckets.Keys
    ensures forall k :: k in out ==> out[k] == SeriesMapOf(buckets[k], names)
  {
    out := map[];
    var todo := buckets.Keys;
    while todo != {}
      invariant todo <= buckets.Keys
      invariant out.Keys == buckets.Keys - todo
      invariant forall k :: k in out ==> out[k] == SeriesMapOf(buckets[k], names)
      decreases |todo|
    {
      var k :| k in todo;
      var sm := BuildSeriesMap(buckets[k], names);
      out := out[k := sm];
      todo := todo - {k};
    }
  }

  /** Month numbers of the years 1 to 9999. */
  predicate ValidOrdinal(o: int)
  {
    12 <= o < 120000
  }

  function KeyOfOrdinal(o: int): string
    requires ValidOrdinal(o)
  {
    MonthKey(o / 12, o % 12 + 1)
  }

  /** The number of a row's month names its key. */
  lemma KeyOfRowOrdinal(row: Row)
    requires RowDate(row).Some?
    ensures ValidOrdinal(OrdinalOf(row)) && KeyOfOrdinal(OrdinalOf(row)) == MonthOf(row)
  {
    var d := RowDate(row).value;
    KeyOfMonth(d);
  }

  /** The number of a month names it. */
  lemma KeyOfMonth(d: Date)
    requires 1 <= d.year <= 9999 && 1 <= d.month <= 12
    ensures ValidOrdinal(MonthNumber(d)) && KeyOfOrdinal(MonthNumber(d)) == MonthKey(d.year, d.month)
  {
    var o := MonthNumber(d);
    assert o / 12 == d.year && o % 12 == d.month - 1;
  }

  /** Later month numbers have later keys in string order. */
  lemma KeyOfOrdinalOrder(o: int, o': int)
    requires ValidOrdinal(o) && ValidOrdinal(o') && o < o'
    ensures LexLess(KeyOfOrdinal(o), KeyOfOrdinal(o'))
  {
    MonthKeyOrder(o / 12, o % 12 + 1, o' / 12, o' % 12 + 1);
  }

  /** Strings in strictly ascending Python order. */
  predicate LexIncreasing(ks: seq<string>)
  {
    forall i, j :: 0 <= i < j < |ks| ==> LexLess(ks[i], ks[j])
  }

  /** `sorted(list(months_set))`, from the ascending month numbers. */
  function MonthIndex(ords: seq<int>): (ks: seq<string>)
    requires forall i :: 0 <= i < |ords| ==> ValidOrdinal(ords[i])
    ensures |ks| == |ords|
    ensures forall i :: 0 <= i < |ords| ==> ks[i] == KeyOfOrdinal(ords[i])
    ensures StrictlyIncreasing(ords) ==> LexIncreasing(ks)
  {
    var ks := seq(|ords|, i requires 0 <= i < |ords| => KeyOfOrdinal(ords[i]));
    forall i, j | 0 <= i < j < |ords| && StrictlyIncreasing(ords)
      ensures LexLess(ks[i], ks[j])
    {
      KeyOfOrdinalOrder(ords[i], ords[j]);
    }
    ks
  }

  /** The month numbers of the rows are valid, and the keys they name
      are the rows' month keys. */
  lemma MonthIndexKeys(rows: seq<Row>, ords: seq<int>)
    requires Archivable(rows)
    requires forall o :: o in ords <==> o in KeysOf(rows, OrdinalOf)
    ensures forall i :: 0 <= i < |ords| ==> ValidOrdinal(ords[i])
    ensures forall k :: k in MonthIndex(ords) <==> k in MonthsOf(rows)
  {
    forall i | 0 <= i < |ords|
      ensures ValidOrdinal(ords[i])
    {
      KeysOfMember(rows, OrdinalOf, ords[i]);
      var j :| 0 <= j < |rows| && OrdinalOf(rows[j]) == ords[i];
      KeyOfRowOrdinal(rows[j]);
    }
    var months := MonthIndex(ords);
    forall k
      ensures k in months <==> k in MonthsOf(rows)
    {
      KeysOfMember(rows, MonthOf, k);
      if k in months {
        var i :| 0 <= i < |months| && months[i] == k;
        KeysOfMember(rows, OrdinalOf, ords[i]);
        var j :| 0 <= j < |rows| && OrdinalOf(rows[j]) == ords[i];
        KeyOfRowOrdinal(rows[j]);
      }
      if k in MonthsOf(rows) {
        var j :| 0 <= j < |rows| && MonthOf(rows[j]) == k;
        KeyOfRowOrdinal(rows[j]);
        KeysOfMember(rows, OrdinalOf, OrdinalOf(rows[j]));
        var i :| 0 <= i < |ords| && ords[i] == OrdinalOf(rows[j]);
        assert months[i] == k;
      }
    }
  }

  /** What `write_archives` writes: the series of every year bucket
      (`yearly/<year>.json`) and of every month bucket
      (`monthly/<YYYY-MM>.json`), and the two indexes. */
  datatype Archive = Archive(
    yearly: map<int, SeriesMap>,
    monthly: map<string, SeriesMap>,
    years: seq<int>,
    months: seq<string>)

  /** `write_archives(rows, names)`, with the current UTC year as nowYear. */
  method WriteArchives(rows: seq<Row>, names: seq<string>, nowYear: int) returns (a: Archive)
    requires Archivable(rows)
    ensures a.yearly.Keys == YearsOf(rows, nowYear)
    ensures forall y :: y in a.yearly ==> a.yearly[y] == SeriesMapOf(YearBucket(rows, y, nowYear), names)
    ensures a.monthly.Keys == MonthsOf(rows)
    ensures forall k :: k in a.monthly ==> a.monthly[k] == SeriesMapOf(MonthBucket(rows, k), names)
    ensures StrictlyIncreasing(a.years) && forall y :: y in a.years <==> y in a.yearly
    ensures LexIncreasing(a.months) && forall k :: k in a.months <==> k in a.monthly
  {
    var byYear, byMonth, years, ords := FileRows(rows, nowYear);
    forall y | y in byYear
      ensures Timestamped(byYear[y])
    {
      ArchivableFilter(rows, KeyIs(YearOf(nowYear), y));
    }
    forall k | k in byMonth
      ensures Timestamped(byMonth[k])
    {
      ArchivableFilter(rows, KeyIs(MonthOf, k));
    }
    MonthIndexKeys(rows, ords);
    var months := MonthIndex(ords);
    assert byYear.Keys == YearsOf(rows, nowYear) && byMonth.Keys == MonthsOf(rows);
    var yearly := SeriesPerBucket(byYear, names);
    var monthly := SeriesPerBucket(byMonth, names);
    a := Archive(yearly, monthly, years, months);
  }
}
