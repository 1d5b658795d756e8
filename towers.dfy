/** The tower view of `fetch_listener_data`
    (scraper/scrape_and_push.py:338-388): the JSON status when it has
    mounts, the HTML status otherwise, then one record per configured tower
    and the listener total over the towers shown in the charts. */
module Towers {
  import opened JsonValues
  import opened Collections
  import opened StatusJson
  import opened StatusHtml

  /** One entry of the tracked-mount configuration. */
  datatype TowerConfig = TowerConfig(
    id: string,
    mountpoint: string,
    displayName: string,
    includeInCharts: bool,
    includeInHistory: bool)

  /** `TRACKED_MOUNTPOINTS`: Tower 1 and Tower 2, both charted and kept in
      the history (a third tower is deliberately not tracked). */
  const TrackedMountpoints: seq<TowerConfig> := [
    TowerConfig("tower1", "/tower1", "Tower 1", true, true),
    TowerConfig("tower2", "/tower2", "Tower 2", true, true)
  ]

  /** One entry of `result["towers"]`. */
  datatype Tower = Tower(
    id: string,
    displayName: string,
    mountpoint: string,
    listeners: int,
    peak: Option<int>,
    title: Json,
    includeInCharts: bool,
    includeInHistory: bool)

  /** The status used: the JSON one when it was fetched and has mounts,
      else the HTML one when it was fetched, else none at all. */
  function SelectMounts(payload: Option<Json>, page: Option<seq<Table>>): (m: Mounts)
    ensures payload.Some? && Normalize(payload.value) != map[] ==> m == Normalize(payload.value)
    ensures (payload.None? || Normalize(payload.value) == map[]) && page.Some? ==> m == HtmlMounts(page.value)
    ensures (payload.None? || Normalize(payload.value) == map[]) && page.None? ==> m == map[]
  {
    if payload.Some? && Normalize(payload.value) != map[] then Normalize(payload.value)
    else if page.Some? then HtmlMounts(page.value)
    else map[]
  }

  /** The record of one configured tower; a mount the status does not have
      reads as `{}`. */
  function TowerFor(config: TowerConfig, mounts: Mounts): (t: Tower)
    ensures t.id == config.id && t.displayName == config.displayName && t.mountpoint == config.mountpoint
    ensures t.includeInCharts == config.includeInCharts && t.includeInHistory == config.includeInHistory
    ensures KText(config.mountpoint) !in mounts ==> t.listeners == 0 && t.peak == None && t.title == JNull
    ensures KText(config.mountpoint) in mounts ==>
      var info := mounts[KText(config.mountpoint)];
      t.listeners == info.listeners && t.peak == info.peak && t.title == info.title
  {
    var k := KText(config.mountpoint);
    var listeners := if k in mounts then mounts[k].listeners else 0;
    var peak := if k in mounts then mounts[k].peak else None;
    var title := if k in mounts then mounts[k].title else JNull;
    Tower(config.id, config.displayName, config.mountpoint, listeners, peak, title,
      config.includeInCharts, config.includeInHistory)
  }

  /** The running total: the listeners of the charted towers, in order. */
  function ChartTotal(towers: seq<Tower>): int
    decreases |towers|
  {
    if towers == [] then 0
    else
      var last := towers[|towers| - 1];
      ChartTotal(towers[..|towers| - 1]) + (if last.includeInCharts then last.listeners else 0)
  }

  function Charted(t: Tower): bool
  {
    t.includeInCharts
  }

  function SumListeners(towers: seq<Tower>): int
    decreases |towers|
  {
    if towers == [] then 0 else SumListeners(towers[..|towers| - 1]) + towers[|towers| - 1].listeners
  }

  /** The records of the configured towers, in configuration order. */
  function TowersOf(config: seq<TowerConfig>, mounts: Mounts): (ts: seq<Tower>)
    ensures |ts| == |config|
    ensures forall i :: 0 <= i < |config| ==> ts[i] == TowerFor(config[i], mounts)
  {
    seq(|config|, i requires 0 <= i < |config| => TowerFor(config[i], mounts))
  }

  /** `fetch_listener_data()`, with the two fetches' outcomes as inputs
      (None where the fetch failed) and the configuration as a parameter. */
  method FetchListenerData(payload: Option<Json>, page: Option<seq<Table>>, config: seq<TowerConfig>)
    returns (mounts: Mounts, towers: seq<Tower>, total: int)
    ensures mounts == SelectMounts(payload, page)
    ensures towers == TowersOf(config, mounts)
    ensures total == ChartTotal(towers)
  {
    mounts := SelectMounts(payload, page);
    towers := [];
    total := 0;
    var i := 0;
    while i < |config|
      invariant 0 <= i <= |config|
      invariant |towers| == i
      invariant forall j :: 0 <= j < i ==> towers[j] == TowerFor(config[j], mounts)
      invariant total == ChartTotal(towers)
    {
      var c := config[i];
      var k := KText(c.mountpoint);
      var listeners := if k in mounts then mounts[k].listeners else 0;
      var peak := if k in mounts then mounts[k].peak else None;
      var title := if k in mounts then mounts[k].title else JNull;
      var t := Tower(c.id, c.displayName, c.mountpoint, listeners, peak, title, c.includeInCharts, c.includeInHistory);
      assert (towers + [t])[..i] == towers;
      towers := towers + [t];
      if c.includeInCharts {
        total := total + listeners;
      }
      i := i + 1;
    }
  }

  /** The total is the sum over the charted towers and no others. */
  lemma {:induction false} ChartTotalIsChartedSum(towers: seq<Tower>)
    ensures ChartTotal(towers) == SumListeners(Filter(towers, Charted))
    decreases |towers|
  {
    if towers != [] {
      ChartTotalIsChartedSum(towers[..|towers| - 1]);
      var kept := Filter(towers[..|towers| - 1], Charted);
      var last := towers[|towers| - 1];
      if last.includeInCharts {
        assert (kept + [last])[..|kept + [last]| - 1] == kept;
      } else {
        assert kept + [] == kept;
      }
    }
  }

  /** A tower left out of the charts does not move the total. */
  lemma UnchartedTowerIgnored(a: seq<Tower>, t: Tower, b: seq<Tower>)
    requires !t.includeInCharts
    ensures ChartTotal(a + [t] + b) == ChartTotal(a + b)
  {
    ChartTotalIsChartedSum(a + [t] + b);
    ChartTotalIsChartedSum(a + b);
    FilterAppend(a + [t], b, Charted);
    FilterAppend(a, [t], Charted);
    FilterAppend(a, b, Charted);
    assert Filter([t], Charted) == [];
    assert Filter(a, Charted) + [] == Filter(a, Charted);
  }

  /** With the tracked configuration there are two records, Tower 1's and
      Tower 2's, each present whether or not its mount was found, and the
      total is their two listener counts. */
  lemma TrackedTowers(mounts: Mounts)
    ensures var ts := TowersOf(TrackedMountpoints, mounts);
      && |ts| == 2
      && ts[0].id == "tower1" && ts[1].id == "tower2"
      && (KText("/tower1") !in mounts ==> ts[0].listeners == 0 && ts[0].peak == None)
      && (KText("/tower2") !in mounts ==> ts[1].listeners == 0 && ts[1].peak == None)
      && ChartTotal(ts) == ts[0].listeners + ts[1].listeners
  {
    var ts := TowersOf(TrackedMountpoints, mounts);
    assert TrackedMountpoints[0].mountpoint == "/tower1";
    assert TrackedMountpoints[1].mountpoint == "/tower2";
    var first := ts[..1];
    assert first[..0] == [];
    assert ChartTotal(first) == ts[0].listeners;
    assert ts[..|ts| - 1] == first;
  }
}
