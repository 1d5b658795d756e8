/** From the listener history to the charts' series
    (scraper/scrape_and_push.py:428-488): `build_series_map` turns the rows
    into one `(timestamp_ms, value)` list per column name,
    `filter_series_by_year` keeps the points from a cutoff year on, and
    `write_json_outputs` clips the unfiltered series to a rolling window. */
module Series {
  import opened JsonValues
  import opened Collections
  import opened IntParsing
  import opened Calendar

  /** A value of a history row. Rows read back from the CSV file hold
      strings, the ints those were coerced to, and None for cells the line
      does not have; the row of the current cycle holds ints and the ISO
      text. */
  datatype Cell = Missing | Number(n: int) | Text(s: string)

  /** `int(c)`; None where int() raises (on None, or on text it rejects). */
  function CellInt(c: Cell): Option<int>
  {
    match c
    case Missing => None
    case Number(n) => Some(n)
    case Text(s) => IntOfString(s)
  }

  /** `str(c)`. */
  function CellText(c: Cell): string
  {
    match c
    case Missing => "None"
    case Number(n) => ShowInt(n)
    case Text(s) => s
  }

  /** Taking `str()` of a cell and reading that text back as an int gives
      what reading the cell as an int directly gives. */
  lemma CellTextInt(c: Cell)
    ensures CellInt(Text(CellText(c))) == CellInt(c)
  {
    match c
    case Missing =>
      assert !IsDigit('N') && !IsDigit('o') && !IsDigit('n') && !IsDigit('e');
      IntOfStringNeedsDigit("None");
    case Number(n) =>
      IntOfStringShowInt(n);
    case Text(_) =>
  }

  /** A history row: column name to value. */
  type Row = map<string, Cell>

  datatype Point = Point(ts: int, value: int)

  /** Series name to its points; the order of the names in the written
      payload is not modelled. */
  type SeriesMap = map<string, seq<Point>>

  /** `int(row.get("timestamp_ms", 0))`, None where int() raises. */
  function TimestampOf(row: Row): Option<int>
  {
    if "timestamp_ms" in row then CellInt(row["timestamp_ms"]) else Some(0)
  }

  /** Rows whose timestamp int() accepts; on any other row the loop of
      `build_series_map` raises, and nothing catches it. */
  predicate Timestamped(rows: seq<Row>)
  {
    forall i :: 0 <= i < |rows| ==> TimestampOf(rows[i]).Some?
  }

  /** The point a row holds for a name: its value when the row has the
      column and int() accepts the value, stamped with the row's time. */
  function Entry(row: Row, ts: int, name: string): (e: seq<Point>)
    ensures |e| <= 1
    ensures |e| == 1 <==> name in row && CellInt(row[name]).Some?
    ensures |e| == 1 ==> e[0] == Point(ts, CellInt(row[name]).value)
  {
    if name in row && CellInt(row[name]).Some? then [Point(ts, CellInt(row[name]).value)] else []
  }

  /** What one pass of the inner loop over names appends to the series of
      name: the row's entry once for each time name is listed. */
  function RowPoints(row: Row, ts: int, names: seq<string>, name: string): seq<Point>
    decreases |names|
  {
    if names == [] then []
    else
      RowPoints(row, ts, names[..|names| - 1], name)
      + (if names[|names| - 1] == name then Entry(row, ts, name) else [])
  }

  /** The series of name after the outer loop has seen the rows (a row
      without a valid timestamp adds nothing here, but never gets this far:
      the loop raises on it). */
  function SeriesOf(rows: seq<Row>, names: seq<string>, name: string): seq<Point>
    decreases |rows|
  {
    if rows == [] then []
    else
      var last := rows[|rows| - 1];
      var ts := TimestampOf(last);
      SeriesOf(rows[..|rows| - 1], names, name) + (if ts.Some? then RowPoints(last, ts.value, names, name) else [])
  }

  /** `build_series_map(rows, names)`: one series per distinct name. */
  function SeriesMapOf(rows: seq<Row>, names: seq<string>): SeriesMap
  {
    map n | n in names :: SeriesOf(rows, names, n)
  }

  /** One pass of the inner loop of `build_series_map`: for each listed
      name the row has an int-parseable value for, the point is appended
      to that name's series. */
  method AppendRow(sm: SeriesMap, row: Row, ts: int, names: seq<string>) returns (sm': SeriesMap)
    requires forall n :: n in names ==> n in sm
    ensures sm'.Keys == sm.Keys
    ensures forall n :: n in sm ==> sm'[n] == sm[n] + RowPoints(row, ts, names, n)
  {
    sm' := sm;
    var j := 0;
    while j < |names|
      invariant 0 <= j <= |names|
      invariant sm'.Keys == sm.Keys
      invariant forall n :: n in sm ==> sm'[n] == sm[n] + RowPoints(row, ts, names[..j], n)
    {
      assert names[..j + 1][..j] == names[..j];
      var name := names[j];
      if name in row {
        var v := CellInt(row[name]);
        if v.Some? {
          sm' := sm'[name := sm'[name] + [Point(ts, v.value)]];
        }
      }
      j := j + 1;
    }
    assert names[..j] == names;
  }

  /** `build_series_map`: the series start empty, then each row appends to
      the series of each name it has an int-parseable value for. */
  method BuildSeriesMap(rows: seq<Row>, names: seq<string>) returns (sm: SeriesMap)
    requires Timestamped(rows)
    ensures sm == SeriesMapOf(rows, names)
  {
    sm := map n | n in names :: [];
    var i := 0;
    while i < |rows|
      invariant 0 <= i <= |rows|
      invariant Timestamped(rows[..i])
      invariant forall n :: n in sm <==> n in names
      invariant forall n :: n in sm ==> sm[n] == SeriesOf(rows[..i], names, n)
    {
      assert rows[..i + 1][..i] == rows[..i];
      var row := rows[i];
      sm := AppendRow(sm, row, TimestampOf(row).value, names);
      i := i + 1;
    }
    assert rows[..i] == rows;
  }

  /** k copies of s, one after the other. */
  function Repeat(s: seq<Point>, k: nat): seq<Point>
  {
    if k == 0 then [] else Repeat(s, k - 1) + s
  }

  lemma {:induction false} RepeatLength(s: seq<Point>, k: nat)
    ensures |Repeat(s, k)| == |s| * k
  {
    if k > 0 {
      RepeatLength(s, k - 1);
    }
  }

  /** A row adds its entry to a series once per listing of the name, and
      nothing to the series of a name that is not listed. */
  lemma {:induction false} RowPointsRepeat(row: Row, ts: int, names: seq<string>, name: string)
    ensures RowPoints(row, ts, names, name) == Repeat(Entry(row, ts, name), multiset(names)[name])
    decreases |names|
  {
    if names != [] {
      var init := names[..|names| - 1];
      var x := names[|names| - 1];
      assert names == init + [x];
      assert multiset(names)[name] == multiset(init)[name] + (if x == name then 1 else 0);
      RowPointsRepeat(row, ts, init, name);
      if x != name {
        var r := RowPoints(row, ts, init, name);
        assert r + [] == r;
      }
    }
  }

  /** The series of a name read on its own: for each row, in order, the
      row's entry for that name. */
  function Column(rows: seq<Row>, name: string): seq<Point>
    decreases |rows|
  {
    if rows == [] then []
    else
      var last := rows[|rows| - 1];
      var ts := TimestampOf(last);
      Column(rows[..|rows| - 1], name) + (if ts.Some? then Entry(last, ts.value, name) else [])
  }

  /** For a name listed once, the series is exactly that column: one point
      per row that has an int-parseable value for it, in row order. */
  lemma {:induction false} SeriesOfListedOnce(rows: seq<Row>, names: seq<string>, name: string)
    requires Timestamped(rows)
    requires multiset(names)[name] == 1
    ensures SeriesOf(rows, names, name) == Column(rows, name)
    decreases |rows|
  {
    if rows != [] {
      var last := rows[|rows| - 1];
      SeriesOfListedOnce(rows[..|rows| - 1], names, name);
      RowPointsRepeat(last, TimestampOf(last).value, names, name);
      var e := Entry(last, TimestampOf(last).value, name);
      assert Repeat(e, 1) == [] + e;
    }
  }

  function HasValue(name: string): Row -> bool
  {
    (row: Row) => name in row && CellInt(row[name]).Some?
  }

  /** A column has as many points as there are rows with a value for it,
      so never more points than rows. */
  lemma {:induction false} ColumnLength(rows: seq<Row>, name: string)
    requires Timestamped(rows)
    ensures |Column(rows, name)| == |Filter(rows, HasValue(name))| <= |rows|
    decreases |rows|
  {
    if rows != [] {
      ColumnLength(rows[..|rows| - 1], name);
    }
  }

  /** A series holds at most one point per row for each listing of its
      name. */
  lemma {:induction false} SeriesLength(rows: seq<Row>, names: seq<string>, name: string)
    requires Timestamped(rows)
    ensures |SeriesOf(rows, names, name)| <= |rows| * multiset(names)[name]
    decreases |rows|
  {
    if rows != [] {
      var last := rows[|rows| - 1];
      var k := multiset(names)[name];
      SeriesLength(rows[..|rows| - 1], names, name);
      RowPointsRepeat(last, TimestampOf(last).value, names, name);
      var e := Entry(last, TimestampOf(last).value, name);
      RepeatLength(e, k);
      AtMostOnce(|e|, k);
      NextMultiple(|rows| - 1, k);
    }
  }

  lemma AtMostOnce(a: nat, k: nat)
    requires a <= 1
    ensures a * k <= k
  {
  }

  lemma NextMultiple(n: nat, k: nat)
    ensures (n + 1) * k == n * k + k
  {
  }

  /** The timestamps of the rows never go back. */
  predicate RowsInTimeOrder(rows: seq<Row>)
    requires Timestamped(rows)
  {
    forall i, j :: 0 <= i <= j < |rows| ==> TimestampOf(rows[i]).value <= TimestampOf(rows[j]).value
  }

  predicate InTimeOrder(pts: seq<Point>)
  {
    forall i, j :: 0 <= i <= j < |pts| ==> pts[i].ts <= pts[j].ts
  }

  predicate AllAtMost(pts: seq<Point>, bound: int)
  {
    forall i :: 0 <= i < |pts| ==> pts[i].ts <= bound
  }

  lemma {:induction false} RowPointsStamped(row: Row, ts: int, names: seq<string>, name: string)
    ensures forall i :: 0 <= i < |RowPoints(row, ts, names, name)| ==> RowPoints(row, ts, names, name)[i].ts == ts
    decreases |names|
  {
    if names != [] {
      RowPointsStamped(row, ts, names[..|names| - 1], name);
    }
  }

  /** No point of a series is later than the latest row. */
  lemma {:induction false} SeriesBounded(rows: seq<Row>, names: seq<string>, name: string, bound: int)
    requires Timestamped(rows)
    requires forall i :: 0 <= i < |rows| ==> TimestampOf(rows[i]).value <= bound
    ensures AllAtMost(SeriesOf(rows, names, name), bound)
    decreases |rows|
  {
    if rows != [] {
      var last := rows[|rows| - 1];
      SeriesBounded(rows[..|rows| - 1], names, name, bound);
      RowPointsStamped(last, TimestampOf(last).value, names, name);
    }
  }

  /** Rows in time order give series in time order. */
  lemma {:induction false} SeriesInTimeOrder(rows: seq<Row>, names: seq<string>, name: string)
    requires Timestamped(rows) && RowsInTimeOrder(rows)
    ensures InTimeOrder(SeriesOf(rows, names, name))
    decreases |rows|
  {
    if rows != [] {
      var init := rows[..|rows| - 1];
      var last := rows[|rows| - 1];
      var ts := TimestampOf(last).value;
      SeriesInTimeOrder(init, names, name);
      SeriesBounded(init, names, name, ts);
      RowPointsStamped(last, ts, names, name);
    }
  }

  /** The point's UTC year is the cutoff year or later. */
  function YearAtLeast(cutoffYear: int): Point -> bool
  {
    (p: Point) => YearOfMs(p.ts) >= cutoffYear
  }

  /** The point is at or after the cutoff instant. */
  function AtOrAfter(cutoffMs: int): Point -> bool
  {
    (p: Point) => p.ts >= cutoffMs
  }

  /** Every point's year is one Python's datetime can hold. */
  predicate PointsInRange(pts: seq<Point>)
  {
    forall i :: 0 <= i < |pts| ==> InDatetimeRange(pts[i].ts)
  }

  predicate AllInRange(sm: SeriesMap)
  {
    forall n :: n in sm ==> PointsInRange(sm[n])
  }

  /** Every series of sm, with the points that satisfy p. */
  function FilterEach(sm: SeriesMap, p: Point -> bool): (r: SeriesMap)
    ensures r.Keys == sm.Keys
  {
    map n | n in sm :: Filter(sm[n], p)
  }

  /** A map built series by series agrees with FilterEach. */
  lemma FilterEachPointwise(sm: SeriesMap, r: SeriesMap, p: Point -> bool)
    requires r.Keys == sm.Keys
    requires forall n :: n in sm ==> r[n] == Filter(sm[n], p)
    ensures r == FilterEach(sm, p)
  {
  }

  /** `filter_series_by_year(series_map, cutoff_year)`; None where a point's
      year is outside 1..9999, for which `datetime.fromtimestamp` raises
      ValueError. */
  function YearFiltered(sm: SeriesMap, cutoffYear: int): (r: Option<SeriesMap>)
    ensures r.Some? <==> AllInRange(sm)
    ensures r.Some? ==> r.value.Keys == sm.Keys
  {
    if AllInRange(sm) then Some(FilterEach(sm, YearAtLeast(cutoffYear)))
    else None
  }

  lemma InRangeOneMore(pts: seq<Point>, k: nat)
    requires k < |pts| && PointsInRange(pts[..k]) && InDatetimeRange(pts[k].ts)
    ensures PointsInRange(pts[..k + 1])
  {
    assert forall i :: 0 <= i <= k ==> pts[..k + 1][i] == pts[i];
    assert forall i :: 0 <= i < k ==> pts[..k][i] == pts[i];
  }

  /** The inner loop of `filter_series_by_year` over one series: the points
      of the cutoff year or later, in order; None at the first point whose
      year is not representable. */
  method KeepFromYear(pts: seq<Point>, cutoffYear: int) returns (kept: Option<seq<Point>>)
    ensures kept.None? <==> !PointsInRange(pts)
    ensures kept.Some? ==> kept.value == Filter(pts, YearAtLeast(cutoffYear))
  {
    var acc := [];
    var k := 0;
    while k < |pts|
      invariant 0 <= k <= |pts|
      invariant PointsInRange(pts[..k])
      invariant acc == Filter(pts[..k], YearAtLeast(cutoffYear))
    {
      if !InDatetimeRange(pts[k].ts) {
        return None;
      }
      InRangeOneMore(pts, k);
      FilterOneMore(pts, YearAtLeast(cutoffYear), k);
      if YearOfMs(pts[k].ts) >= cutoffYear {
        acc := acc + [pts[k]];
      }
      k := k + 1;
    }
    assert pts[..k] == pts;
    return Some(acc);
  }

  /** `filter_series_by_year`: the loop over the series, each filtered by
      the inner loop over its points. */
  method FilterSeriesByYear(sm: SeriesMap, cutoffYear: int) returns (r: Option<SeriesMap>)
    ensures r == YearFiltered(sm, cutoffYear)
  {
    var filtered: SeriesMap := map n | n in sm :: [];
    var todo := sm.Keys;
    while todo != {}
      invariant todo <= sm.Keys
      invariant filtered.Keys == sm.Keys
      invariant forall n :: n in sm && n !in todo ==>
        PointsInRange(sm[n]) && filtered[n] == Filter(sm[n], YearAtLeast(cutoffYear))
      decreases |todo|
    {
      var name :| name in todo;
      var kept := KeepFromYear(sm[name], cutoffYear);
      if kept.None? {
        assert !AllInRange(sm) by {
          assert name in sm && !PointsInRange(sm[name]);
        }
        return None;
      }
      filtered := filtered[name := kept.value];
      todo := todo - {name};
    }
    assert AllInRange(sm);
    FilterEachPointwise(sm, filtered, YearAtLeast(cutoffYear));
    return Some(filtered);
  }

  /** The 24-hour clip of `write_json_outputs`: every series, with the
      points at or after cutoffMs. */
  function Clip(sm: SeriesMap, cutoffMs: int): (c: SeriesMap)
    ensures c.Keys == sm.Keys
  {
    FilterEach(sm, AtOrAfter(cutoffMs))
  }

  /** The year filter keeps every series name, and of each series exactly
      the points of the cutoff year or later, as often as they occur and in
      their original order. */
  lemma YearFilterKeeps(sm: SeriesMap, cutoffYear: int, n: string, p: Point)
    requires YearFiltered(sm, cutoffYear).Some?
    ensures YearFiltered(sm, cutoffYear).value.Keys == sm.Keys
    ensures n in sm ==>
      multiset(YearFiltered(sm, cutoffYear).value[n])[p]
        == if YearOfMs(p.ts) >= cutoffYear then multiset(sm[n])[p] else 0
  {
    if n in sm {
      FilterCount(sm[n], YearAtLeast(cutoffYear), p);
    }
  }

  /** The clip keeps every series name, and of each series exactly the
      points at or after the cutoff, as often as they occur. */
  lemma ClipKeeps(sm: SeriesMap, cutoffMs: int, n: string, p: Point)
    requires n in sm
    ensures multiset(Clip(sm, cutoffMs)[n])[p] == if p.ts >= cutoffMs then multiset(sm[n])[p] else 0
  {
    FilterCount(sm[n], AtOrAfter(cutoffMs), p);
  }

  /** Of a series in time order the clip keeps a tail: the latest points. */
  lemma ClipKeepsTail(sm: SeriesMap, cutoffMs: int, n: string)
    requires n in sm && InTimeOrder(sm[n])
    ensures var c := Clip(sm, cutoffMs)[n]; c == sm[n][|sm[n]| - |c|..]
  {
    FilterSuffix(sm[n], AtOrAfter(cutoffMs));
  }

  /** Filtering by a cutoff year is clipping at the first instant of that
      year. */
  lemma YearFilterIsClip(sm: SeriesMap, cutoffYear: int)
    requires AllInRange(sm)
    ensures YearFiltered(sm, cutoffYear) == Some(Clip(sm, NewYearMs(cutoffYear)))
  {
    forall n | n in sm
      ensures Filter(sm[n], YearAtLeast(cutoffYear)) == Filter(sm[n], AtOrAfter(NewYearMs(cutoffYear)))
    {
      forall i | 0 <= i < |sm[n]|
        ensures YearAtLeast(cutoffYear)(sm[n][i]) == AtOrAfter(NewYearMs(cutoffYear))(sm[n][i])
      {
        YearFromNewYear(sm[n][i].ts, cutoffYear);
      }
      FilterCongruent(sm[n], YearAtLeast(cutoffYear), AtOrAfter(NewYearMs(cutoffYear)));
    }
    FilterEachPointwise(sm, FilterEach(sm, YearAtLeast(cutoffYear)), AtOrAfter(NewYearMs(cutoffYear)));
  }

  /** The two series maps `write_json_outputs` writes: `data_all.json`'s and
      `data_24h.json`'s. */
  datatype Outputs = Outputs(all: SeriesMap, window: SeriesMap)

  /** The cutoff year `ARCHIVE_CUTOFF_YEAR` sets: none when it is unset or
      empty, or when int() rejects it. */
  function CutoffYear(setting: Option<string>): (y: Option<int>)
    ensures setting.None? || setting.value == [] ==> y.None?
  {
    if setting.Some? && setting.value != [] then IntOfString(setting.value) else None
  }

  const MsPerHour: int := 3600000

  /** `write_json_outputs`, with the setting, the clock reading and the
      window length as inputs: the year-filtered series for the full view
      when a cutoff year is set and every point's year is representable,
      else the series unchanged; and the unfiltered series clipped to the
      last windowHours hours. */
  function JsonOutputs(sm: SeriesMap, setting: Option<string>, nowMs: int, windowHours: int): (o: Outputs)
    ensures o.all.Keys == sm.Keys && o.window.Keys == sm.Keys
  {
    var cutoff := CutoffYear(setting);
    var filtered := if cutoff.Some? then YearFiltered(sm, cutoff.value) else None;
    Outputs(if filtered.Some? then filtered.value else sm, Clip(sm, nowMs - windowHours * MsPerHour))
  }

  /** `write_json_outputs` without the writing: the year filter is tried
      when a cutoff year is set, and the window is clipped from the
      unfiltered series. */
  method WriteJsonOutputs(sm: SeriesMap, setting: Option<string>, nowMs: int, windowHours: int) returns (o: Outputs)
    ensures o == JsonOutputs(sm, setting, nowMs, windowHours)
  {
    var all := sm;
    var cutoff := CutoffYear(setting);
    if cutoff.Some? {
      var filtered := FilterSeriesByYear(sm, cutoff.value);
      if filtered.Some? {
        all := filtered.value;
      }
    }
    o := Outputs(all, Clip(sm, nowMs - windowHours * MsPerHour));
  }

  /** The full view is the year filter's result when there is one and the
      series unchanged otherwise; the window view ignores the cutoff year. */
  lemma JsonOutputsViews(sm: SeriesMap, setting: Option<string>, nowMs: int, windowHours: int, p: Point)
    ensures var o := JsonOutputs(sm, setting, nowMs, windowHours);
      && (CutoffYear(setting).None? ==> o.all == sm)
      && (CutoffYear(setting).Some? && !AllInRange(sm) ==> o.all == sm)
      && (CutoffYear(setting).Some? && AllInRange(sm) ==>
            o.all == Clip(sm, NewYearMs(CutoffYear(setting).value)))
      && o.window == JsonOutputs(sm, None, nowMs, windowHours).window
  {
    if CutoffYear(setting).Some? && AllInRange(sm) {
      YearFilterIsClip(sm, CutoffYear(setting).value);
    }
  }

  /** Every point of either view is a point of the series it came from. */
  lemma JsonOutputsSubseries(sm: SeriesMap, setting: Option<string>, nowMs: int, windowHours: int, n: string)
    requires n in sm
    ensures var o := JsonOutputs(sm, setting, nowMs, windowHours);
      multiset(o.all[n]) <= multiset(sm[n]) && multiset(o.window[n]) <= multiset(sm[n])
  {
    FilterSubMultiset(sm[n], AtOrAfter(nowMs - windowHours * MsPerHour));
    var cutoff := CutoffYear(setting);
    if cutoff.Some? {
      FilterSubMultiset(sm[n], YearAtLeast(cutoff.value));
    }
  }
}
