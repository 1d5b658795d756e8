/** One run of `main` (scraper/scrape_and_push.py:639-667) without the
    printing, the history file and git: the tower data, the record of this
    cycle appended to the history, the column names, the series, the two
    views written for the site, and the archives. The clock readings, the
    settings and the fetch outcomes are inputs. */
module Cycle {
  import opened JsonValues
  import opened Collections
  import opened Calendar
  import opened StatusJson
  import opened StatusHtml
  import opened Towers
  import opened Series
  import opened HistoryRows
  import opened Archives

  /** The names of the towers kept in the history, in configuration order. */
  function Labels(towers: seq<Tower>): (ls: seq<string>)
    ensures |ls| <= |towers|
    decreases |towers|
  {
    if towers == [] then []
    else
      var last := towers[|towers| - 1];
      Labels(towers[..|towers| - 1]) + (if last.includeInHistory then [last.displayName] else [])
  }

  /** `names`: the history towers' names, then "Total". */
  function HistoryNames(towers: seq<Tower>): seq<string>
  {
    Labels(towers) + ["Total"]
  }

  function InHistory(t: Tower): bool
  {
    t.includeInHistory
  }

  /** The history names are the names of the towers kept in the history,
      one for each, in order. */
  lemma {:induction false} LabelsAreHistoryTowers(towers: seq<Tower>)
    ensures |Labels(towers)| == |Filter(towers, InHistory)|
    ensures forall j :: 0 <= j < |Labels(towers)| ==> Labels(towers)[j] == Filter(towers, InHistory)[j].displayName
    decreases |towers|
  {
    if towers != [] {
      LabelsAreHistoryTowers(towers[..|towers| - 1]);
    }
  }

  /** The two columns every record starts with. */
  function Stamps(isoNow: string, tsMs: int): Row
  {
    map["timestamp_iso" := Text(isoNow), "timestamp_ms" := Number(tsMs)]
  }

  /** r with the listener count of each history tower, in order, under its
      name: a later tower of the same name overwrites an earlier one. */
  function WithCounts(r: Row, towers: seq<Tower>): Row
    decreases |towers|
  {
    if towers == [] then r
    else
      var last := towers[|towers| - 1];
      var before := WithCounts(r, towers[..|towers| - 1]);
      if last.includeInHistory then before[last.displayName := Number(last.listeners)] else before
  }

  /** The record `main` appends to the history. */
  function Record(isoNow: string, tsMs: int, towers: seq<Tower>, total: int): Row
  {
    WithCounts(Stamps(isoNow, tsMs), towers)["Total" := Number(total)]
  }

  /** The record, filled in one tower at a time. */
  method BuildRecord(isoNow: string, tsMs: int, towers: seq<Tower>, total: int) returns (record: Row)
    ensures record == Record(isoNow, tsMs, towers, total)
  {
    record := map["timestamp_iso" := Text(isoNow), "timestamp_ms" := Number(tsMs)];
    var i := 0;
    while i < |towers|
      invariant 0 <= i <= |towers|
      invariant record == WithCounts(Stamps(isoNow, tsMs), towers[..i])
    {
      assert towers[..i + 1][..i] == towers[..i];
      if towers[i].includeInHistory {
        record := record[towers[i].displayName := Number(towers[i].listeners)];
      }
      i := i + 1;
    }
    assert towers[..i] == towers;
    record := record["Total" := Number(total)];
  }

  /** The counts add exactly the history towers' names as columns, and
      leave every other column as it was. */
  lemma {:induction false} WithCountsKeys(r: Row, towers: seq<Tower>, k: string)
    ensures k in WithCounts(r, towers) <==> k in r || k in Labels(towers)
    ensures k !in Labels(towers) && k in r ==> WithCounts(r, towers)[k] == r[k]
    decreases |towers|
  {
    if towers != [] {
      WithCountsKeys(r, towers[..|towers| - 1], k);
    }
  }

  /** A history tower's column holds its listener count, unless a later
      history tower has the same name. */
  lemma {:induction false} WithCountsValue(r: Row, towers: seq<Tower>, i: nat)
    requires i < |towers| && towers[i].includeInHistory
    requires forall j :: i < j < |towers| && towers[j].includeInHistory ==> towers[j].displayName != towers[i].displayName
    ensures towers[i].displayName in WithCounts(r, towers)
    ensures WithCounts(r, towers)[towers[i].displayName] == Number(towers[i].listeners)
    decreases |towers|
  {
    if i < |towers| - 1 {
      WithCountsValue(r, towers[..|towers| - 1], i);
    }
  }

  /** The history towers have distinct names, none of them a column the
      record sets itself. */
  predicate PlainLabels(towers: seq<Tower>)
  {
    && (forall i, j :: 0 <= i < j < |towers| && towers[i].includeInHistory && towers[j].includeInHistory ==>
          towers[i].displayName != towers[j].displayName)
    && (forall i :: 0 <= i < |towers| && towers[i].includeInHistory ==>
          towers[i].displayName != "timestamp_iso" && towers[i].displayName != "timestamp_ms"
          && towers[i].displayName != "Total")
  }

  /** The same condition on the configuration the towers come from. */
  predicate PlainConfig(config: seq<TowerConfig>)
  {
    && (forall i, j :: 0 <= i < j < |config| && config[i].includeInHistory && config[j].includeInHistory ==>
          config[i].displayName != config[j].displayName)
    && (forall i :: 0 <= i < |config| && config[i].includeInHistory ==>
          config[i].displayName != "timestamp_iso" && config[i].displayName != "timestamp_ms"
          && config[i].displayName != "Total")
  }

  lemma PlainTowers(config: seq<TowerConfig>, mounts: Mounts)
    requires PlainConfig(config)
    ensures PlainLabels(TowersOf(config, mounts))
  {
    var ts := TowersOf(config, mounts);
    assert forall i :: 0 <= i < |ts| ==>
      ts[i].displayName == config[i].displayName && ts[i].includeInHistory == config[i].includeInHistory;
  }

  /** The columns of the record: the two timestamps, "Total" and the
      history towers' names, and no others. */
  lemma RecordKeys(isoNow: string, tsMs: int, towers: seq<Tower>, total: int)
    ensures var rec := Record(isoNow, tsMs, towers, total);
      forall k :: k in rec <==> k == "timestamp_iso" || k == "timestamp_ms" || k == "Total" || k in Labels(towers)
  {
    forall k
      ensures k in Record(isoNow, tsMs, towers, total) <==>
        k == "timestamp_iso" || k == "timestamp_ms" || k == "Total" || k in Labels(towers)
    {
      WithCountsKeys(Stamps(isoNow, tsMs), towers, k);
    }
  }

  /** The record holds the two clock readings and the total. */
  lemma RecordStamps(isoNow: string, tsMs: int, towers: seq<Tower>, total: int)
    requires PlainLabels(towers)
    ensures var rec := Record(isoNow, tsMs, towers, total);
      && "timestamp_iso" in rec && rec["timestamp_iso"] == Text(isoNow)
      && "timestamp_ms" in rec && rec["timestamp_ms"] == Number(tsMs)
      && "Total" in rec && rec["Total"] == Number(total)
  {
    var r := Stamps(isoNow, tsMs);
    NotALabel(towers, "timestamp_iso");
    NotALabel(towers, "timestamp_ms");
    WithCountsKeys(r, towers, "timestamp_iso");
    WithCountsKeys(r, towers, "timestamp_ms");
  }

  /** The record holds each history tower's listener count under its
      name. */
  lemma RecordCounts(isoNow: string, tsMs: int, towers: seq<Tower>, total: int)
    requires PlainLabels(towers)
    ensures var rec := Record(isoNow, tsMs, towers, total);
      forall i :: 0 <= i < |towers| && towers[i].includeInHistory ==>
        towers[i].displayName in rec && rec[towers[i].displayName] == Number(towers[i].listeners)
  {
    forall i | 0 <= i < |towers| && towers[i].includeInHistory
      ensures towers[i].displayName in Record(isoNow, tsMs, towers, total)
      ensures Record(isoNow, tsMs, towers, total)[towers[i].displayName] == Number(towers[i].listeners)
    {
      WithCountsValue(Stamps(isoNow, tsMs), towers, i);
    }
  }

  /** A name no history tower has is not among the labels. */
  lemma {:induction false} NotALabel(towers: seq<Tower>, name: string)
    requires forall i :: 0 <= i < |towers| && towers[i].includeInHistory ==> towers[i].displayName != name
    ensures multiset(Labels(towers))[name] == 0
    decreases |towers|
  {
    if towers != [] {
      NotALabel(towers[..|towers| - 1], name);
    }
  }

  /** With distinct names, a history tower's name is listed once. */
  lemma {:induction false} LabelListedOnce(towers: seq<Tower>, i: nat)
    requires PlainLabels(towers)
    requires i < |towers| && towers[i].includeInHistory
    ensures multiset(Labels(towers))[towers[i].displayName] == 1
    decreases |towers|
  {
    var init := towers[..|towers| - 1];
    var last := towers[|towers| - 1];
    assert PlainLabels(init);
    if i == |towers| - 1 {
      NotALabel(init, last.displayName);
    } else {
      LabelListedOnce(init, i);
    }
  }

  /** Appending the record extends the series of a name listed once by the
      record's entry for it, and leaves the earlier points alone. */
  lemma AppendedSeries(history: seq<Row>, rec: Row, tsMs: int, names: seq<string>, name: string)
    requires TimestampOf(rec) == Some(tsMs)
    requires multiset(names)[name] == 1
    ensures SeriesOf(history + [rec], names, name) == SeriesOf(history, names, name) + Entry(rec, tsMs, name)
  {
    assert (history + [rec])[..|history|] == history;
    RowPointsRepeat(rec, tsMs, names, name);
    var e := Entry(rec, tsMs, name);
    assert Repeat(e, 1) == [] + e;
  }

  /** After a cycle, the "Total" series ends with the cycle's total and
      each history tower's series with its listener count, all stamped with
      the cycle's time, after the points the history already gave. */
  lemma CycleSeries(history: seq<Row>, isoNow: string, tsMs: int, towers: seq<Tower>, total: int)
    requires PlainLabels(towers)
    ensures var rows := history + [Record(isoNow, tsMs, towers, total)];
      var names := HistoryNames(towers);
      && SeriesOf(rows, names, "Total") == SeriesOf(history, names, "Total") + [Point(tsMs, total)]
      && forall i :: 0 <= i < |towers| && towers[i].includeInHistory ==>
           SeriesOf(rows, names, towers[i].displayName)
             == SeriesOf(history, names, towers[i].displayName) + [Point(tsMs, towers[i].listeners)]
  {
    var rec := Record(isoNow, tsMs, towers, total);
    var names := HistoryNames(towers);
    RecordStamps(isoNow, tsMs, towers, total);
    RecordCounts(isoNow, tsMs, towers, total);
    assert TimestampOf(rec) == Some(tsMs);
    NotALabel(towers, "Total");
    assert multiset(names)[("Total")] == 1;
    AppendedSeries(history, rec, tsMs, names, "Total");
    forall i | 0 <= i < |towers| && towers[i].includeInHistory
      ensures SeriesOf(history + [rec], names, towers[i].displayName)
        == SeriesOf(history, names, towers[i].displayName) + [Point(tsMs, towers[i].listeners)]
    {
      LabelListedOnce(towers, i);
      assert multiset(names)[towers[i].displayName] == 1;
      AppendedSeries(history, rec, tsMs, names, towers[i].displayName);
    }
  }

  /** When the ISO text starts with the year of the millisecond clock (the
      two readings fall in the same year), the record is filed under that
      year and under the month of its timestamp. */
  lemma RecordFiled(isoNow: string, tsMs: int, towers: seq<Tower>, total: int, nowYear: int, rest: string)
    requires PlainLabels(towers)
    requires InDatetimeRange(tsMs)
    requires isoNow == Pad(YearOfMs(tsMs), 4) + rest
    ensures var rec := Record(isoNow, tsMs, towers, total);
      && RowYear(rec, nowYear) == YearOfMs(tsMs)
      && RowDate(rec) == Some(DateOfMs(tsMs))
      && MonthOf(rec) == MonthKey(DateOfMs(tsMs).year, DateOfMs(tsMs).month)
  {
    var rec := Record(isoNow, tsMs, towers, total);
    RecordStamps(isoNow, tsMs, towers, total);
    assert TimestampOf(rec) == Some(tsMs);
    StampedRowDate(rec, tsMs);
    RowYearFromIso(rec, nowYear, YearOfMs(tsMs), rest);
  }

  /** The tracked configuration meets the naming condition, and its
      history columns are "Tower 1", "Tower 2" and "Total". */
  lemma TrackedNames(mounts: Mounts)
    ensures PlainConfig(TrackedMountpoints)
    ensures HistoryNames(TowersOf(TrackedMountpoints, mounts)) == ["Tower 1", "Tower 2", "Total"]
  {
    var ts := TowersOf(TrackedMountpoints, mounts);
    assert TrackedMountpoints[0].displayName == "Tower 1" && TrackedMountpoints[0].includeInHistory;
    assert TrackedMountpoints[1].displayName == "Tower 2" && TrackedMountpoints[1].includeInHistory;
    assert ts[0].displayName == "Tower 1" && ts[0].includeInHistory;
    assert ts[1].displayName == "Tower 2" && ts[1].includeInHistory;
    var first := ts[..1];
    assert first[..0] == [] && first[0] == ts[0];
    assert Labels(first) == ["Tower 1"];
    assert ts[..|ts| - 1] == first;
    assert Labels(ts) == ["Tower 1", "Tower 2"];
  }

  /** `main`, after the fetch: the record, the history with it appended,
      the series, the two views and the archives. */
  method RunCycle(
    payload: Option<Json>, page: Option<seq<Table>>, config: seq<TowerConfig>,
    history: seq<Row>, isoNow: string, tsMs: int,
    cutoffSetting: Option<string>, nowMs: int, windowHours: int, nowYear: int)
    returns (towers: seq<Tower>, total: int, rows: seq<Row>, names: seq<string>, outputs: Outputs, archive: Archive)
    requires Archivable(history)
    requires PlainConfig(config)
    requires InDatetimeRange(tsMs)
    ensures towers == TowersOf(config, SelectMounts(payload, page)) && total == ChartTotal(towers)
    ensures names == HistoryNames(towers)
    ensures rows == history + [Record(isoNow, tsMs, towers, total)]
    ensures outputs == JsonOutputs(SeriesMapOf(rows, names), cutoffSetting, nowMs, windowHours)
    ensures archive.yearly.Keys == YearsOf(rows, nowYear) && archive.monthly.Keys == MonthsOf(rows)
    ensures forall y :: y in archive.yearly ==> archive.yearly[y] == SeriesMapOf(YearBucket(rows, y, nowYear), names)
    ensures forall k :: k in archive.monthly ==> archive.monthly[k] == SeriesMapOf(MonthBucket(rows, k), names)
    ensures StrictlyIncreasing(archive.years) && forall y :: y in archive.years <==> y in archive.yearly
    ensures LexIncreasing(archive.months) && forall k :: k in archive.months <==> k in archive.monthly
  {
    var mounts;
    mounts, towers, total := FetchListenerData(payload, page, config);
    PlainTowers(config, mounts);
    var record := BuildRecord(isoNow, tsMs, towers, total);
    RecordStamps(isoNow, tsMs, towers, total);
    names := HistoryNames(towers);
    rows := history + [record];
    assert TimestampOf(record) == Some(tsMs);
    StampedRowDate(record, tsMs);
    assert Archivable([record]);
    ArchivableAppend(history, [record]);
    ArchivableTimestamped(rows);
    var sm := BuildSeriesMap(rows, names);
    outputs := WriteJsonOutputs(sm, cutoffSetting, nowMs, windowHours);
    archive := WriteArchives(rows, names, nowYear);
  }
}
