/** The fallback reader of Icecast's `status.xsl` page
    (`parse_icecast_html`, scraper/scrape_and_push.py:264-336), over the
    text the page's tables hold: the header texts pick the mount, listener
    and peak columns, and each row with a mount name yields one record. */
module StatusHtml {
  import opened JsonValues
  import opened IntParsing
  import opened Text
  import opened StatusJson

  /** One `<table>` of the page: the stripped text of each of its `th`
      cells, and for each `tr` the stripped text of its `td` and `th`
      cells. */
  datatype Table = Table(headers: seq<string>, rows: seq<seq<string>>)

  /** The chosen column indices; the HTML parser needs a mount column and a
      listeners column, the peak column is optional. */
  datatype Columns = Columns(mount: Option<nat>, listeners: Option<nat>, peak: Option<nat>)

  /** The three tests of the header loop, in their `if`/`elif` order. */
  predicate IsMountHeader(h: string)
  {
    Contains(h, "mount")
  }

  predicate IsListenersHeader(h: string)
  {
    !IsMountHeader(h) && h == "listeners"
  }

  predicate IsPeakHeader(h: string)
  {
    !IsMountHeader(h) && h != "listeners" && Contains(h, "peak")
  }

  /** The index the header loop leaves behind for a test: the last header
      that passes it, since each pass overwrites the previous one. */
  function LastWhere(hs: seq<string>, p: string -> bool): (r: Option<nat>)
    ensures r.Some? ==> r.value < |hs| && p(hs[r.value])
    ensures r.Some? ==> forall j :: r.value < j < |hs| ==> !p(hs[j])
    ensures r.None? ==> forall j :: 0 <= j < |hs| ==> !p(hs[j])
    decreases |hs|
  {
    if hs == [] then None
    else if p(hs[|hs| - 1]) then Some(|hs| - 1)
    else LastWhere(hs[..|hs| - 1], p)
  }

  /** The column choice the header loop makes. */
  function ColumnsOf(hs: seq<string>): Columns
  {
    Columns(LastWhere(hs, IsMountHeader), LastWhere(hs, IsListenersHeader), LastWhere(hs, IsPeakHeader))
  }

  /** The header loop: one pass over the lower-cased headers, each matching
      test overwriting its index. */
  method ChooseColumns(hs: seq<string>) returns (c: Columns)
    ensures c == ColumnsOf(hs)
  {
    c := Columns(None, None, None);
    var i := 0;
    while i < |hs|
      invariant 0 <= i <= |hs|
      invariant c == ColumnsOf(hs[..i])
    {
      assert hs[..i + 1][..i] == hs[..i];
      if Contains(hs[i], "mount") {
        c := c.(mount := Some(i));
      } else if hs[i] == "listeners" {
        c := c.(listeners := Some(i));
      } else if Contains(hs[i], "peak") {
        c := c.(peak := Some(i));
      }
      i := i + 1;
    }
    assert hs[..i] == hs;
  }

  /** A header that mentions "mount" is the mount column's and no other's. */
  lemma MountHeaderWins(hs: seq<string>, i: nat)
    requires i < |hs| && IsMountHeader(hs[i])
    ensures ColumnsOf(hs).mount.Some? && ColumnsOf(hs).mount.value >= i
    ensures ColumnsOf(hs).listeners != Some(i) && ColumnsOf(hs).peak != Some(i)
  {
  }

  function Max(a: nat, b: nat): nat
  {
    if a >= b then a else b
  }

  /** The mount name and record one row yields; None for a row that is too
      short, has an empty mount cell, or is a repeated header row. */
  function RowEntry(cells: seq<string>, mountCol: nat, listenersCol: nat, peakCol: Option<nat>): (r: Option<(string, MountInfo)>)
    ensures r.Some? ==> StartsWith(r.value.0, "/") && r.value.1.mountpoint == JStr(r.value.0)
  {
    if |cells| <= Max(mountCol, listenersCol) then None
    else
      var name := cells[mountCol];
      if name == [] || Lower(name) == "mount point" then None
      else
        var mount := if StartsWith(name, "/") then name else "/" + name;
        var listeners := SafeInt(JStr(DigitsOnly(cells[listenersCol])), Some(0)).value;
        var peak :=
          if peakCol.Some? && |cells| > peakCol.value
          then SafeInt(JStr(DigitsOnly(cells[peakCol.value])), None)
          else None;
        Some((mount, MountInfo(JStr(mount), listeners, peak, JNull, None)))
  }

  /** The rows of one table, stored in order into acc. */
  function RowsInto(acc: Mounts, rows: seq<seq<string>>, mountCol: nat, listenersCol: nat, peakCol: Option<nat>): Mounts
    decreases |rows|
  {
    if rows == [] then acc
    else
      var before := RowsInto(acc, rows[..|rows| - 1], mountCol, listenersCol, peakCol);
      match RowEntry(rows[|rows| - 1], mountCol, listenersCol, peakCol)
      case None => before
      case Some(e) => before[KText(e.0) := e.1]
  }

  function LowerAll(hs: seq<string>): (r: seq<string>)
    ensures |r| == |hs|
  {
    seq(|hs|, i requires 0 <= i < |hs| => Lower(hs[i]))
  }

  /** One table, stored into acc; a table without headers, or without a
      mount or a listeners column, adds nothing. */
  function TableInto(acc: Mounts, t: Table): Mounts
  {
    var hs := LowerAll(t.headers);
    var c := ColumnsOf(hs);
    if hs == [] || c.mount.None? || c.listeners.None? then acc
    else RowsInto(acc, t.rows, c.mount.value, c.listeners.value, c.peak)
  }

  /** `parse_icecast_html(html)["mounts"]`, over the page's tables. */
  function HtmlMounts(tables: seq<Table>): Mounts
    decreases |tables|
  {
    if tables == [] then map[]
    else TableInto(HtmlMounts(tables[..|tables| - 1]), tables[|tables| - 1])
  }

  lemma RowsIntoOneMore(acc: Mounts, rows: seq<seq<string>>, j: nat, mountCol: nat, listenersCol: nat, peakCol: Option<nat>)
    requires j < |rows|
    ensures RowsInto(acc, rows[..j + 1], mountCol, listenersCol, peakCol) ==
      match RowEntry(rows[j], mountCol, listenersCol, peakCol)
      case None => RowsInto(acc, rows[..j], mountCol, listenersCol, peakCol)
      case Some(e) => RowsInto(acc, rows[..j], mountCol, listenersCol, peakCol)[KText(e.0) := e.1]
  {
    assert rows[..j + 1][..j] == rows[..j];
  }

  /** The loop over one table's rows, storing each row's record into acc. */
  method StoreRows(acc: Mounts, rows: seq<seq<string>>, mountCol: nat, listenersCol: nat, peakCol: Option<nat>)
    returns (mounts: Mounts)
    ensures mounts == RowsInto(acc, rows, mountCol, listenersCol, peakCol)
  {
    mounts := acc;
    var j := 0;
    while j < |rows|
      invariant 0 <= j <= |rows|
      invariant mounts == RowsInto(acc, rows[..j], mountCol, listenersCol, peakCol)
    {
      RowsIntoOneMore(acc, rows, j, mountCol, listenersCol, peakCol);
      var e := RowEntry(rows[j], mountCol, listenersCol, peakCol);
      if e.Some? {
        mounts := mounts[KText(e.value.0) := e.value.1];
      }
      j := j + 1;
    }
    assert rows[..j] == rows;
  }

  /** `parse_icecast_html`: the loop over the tables and, inside it, the
      loop over the rows (`StoreRows`). */
  method ParseIcecastHtml(tables: seq<Table>) returns (mounts: Mounts)
    ensures mounts == HtmlMounts(tables)
  {
    mounts := map[];
    var i := 0;
    while i < |tables|
      invariant 0 <= i <= |tables|
      invariant mounts == HtmlMounts(tables[..i])
    {
      assert tables[..i + 1][..i] == tables[..i];
      var t := tables[i];
      var hs := LowerAll(t.headers);
      if hs != [] {
        var c := ChooseColumns(hs);
        if c.mount.Some? && c.listeners.Some? {
          mounts := StoreRows(mounts, t.rows, c.mount.value, c.listeners.value, c.peak);
        }
      }
      i := i + 1;
    }
    assert tables[..i] == tables;
  }

  /** The listener cell is read as the number its digits spell, 0 when it
      has none: thousands separators and labels around it are ignored. */
  lemma ListenerCellValue(cell: string)
    ensures SafeInt(JStr(DigitsOnly(cell)), Some(0)) == Some(DecimalValue(DigitsOnly(cell)))
  {
    var d := DigitsOnly(cell);
    if d == [] {
      IntOfStringNeedsDigit(d);
    } else {
      IntOfDigits(d);
    }
  }

  /** The peak cell likewise, except that a cell without digits gives None. */
  lemma PeakCellValue(cell: string)
    ensures SafeInt(JStr(DigitsOnly(cell)), None) == if DigitsOnly(cell) == [] then None else Some(DecimalValue(DigitsOnly(cell)))
  {
    var d := DigitsOnly(cell);
    if d == [] {
      IntOfStringNeedsDigit(d);
    } else {
      IntOfDigits(d);
    }
  }

  /** What every record the page yields looks like: stored under its own
      name, which starts with '/', with the counts its cells spell and no
      title. */
  predicate HtmlEntry(k: Key, info: MountInfo)
  {
    && k.KText?
    && StartsWith(k.text, "/")
    && info.mountpoint == JStr(k.text)
    && info.listeners >= 0
    && (info.peak.Some? ==> info.peak.value >= 0)
    && info.title == JNull
    && info.details.None?
  }

  predicate AllHtmlEntries(m: Mounts)
  {
    forall k :: k in m ==> HtmlEntry(k, m[k])
  }

  /** A row yields a record exactly when it reaches both columns and its
      mount cell is neither empty nor a repeated "Mount Point" header. The
      record is stored under the mount cell, with '/' put in front when it
      lacks one; its counts are the numbers the digits of its cells spell,
      and a peak cell that is missing or has no digits gives None. */
  lemma RowEntryShape(cells: seq<string>, mountCol: nat, listenersCol: nat, peakCol: Option<nat>)
    ensures RowEntry(cells, mountCol, listenersCol, peakCol).Some? <==>
      && mountCol < |cells| && listenersCol < |cells|
      && cells[mountCol] != [] && Lower(cells[mountCol]) != "mount point"
    ensures RowEntry(cells, mountCol, listenersCol, peakCol).Some? ==>
      var e := RowEntry(cells, mountCol, listenersCol, peakCol).value;
      var name := cells[mountCol];
      && e.0 == (if StartsWith(name, "/") then name else "/" + name)
      && HtmlEntry(KText(e.0), e.1)
      && e.1.listeners == DecimalValue(DigitsOnly(cells[listenersCol]))
      && e.1.peak == (if peakCol.Some? && peakCol.value < |cells| && DigitsOnly(cells[peakCol.value]) != []
                      then Some(DecimalValue(DigitsOnly(cells[peakCol.value]))) else None)
  {
    if RowEntry(cells, mountCol, listenersCol, peakCol).Some? {
      ListenerCellValue(cells[listenersCol]);
      if peakCol.Some? && |cells| > peakCol.value {
        PeakCellValue(cells[peakCol.value]);
      }
    }
  }

  lemma {:induction false} RowsIntoEntries(acc: Mounts, rows: seq<seq<string>>, mountCol: nat, listenersCol: nat, peakCol: Option<nat>)
    requires AllHtmlEntries(acc)
    ensures AllHtmlEntries(RowsInto(acc, rows, mountCol, listenersCol, peakCol))
    decreases |rows|
  {
    if rows != [] {
      RowsIntoEntries(acc, rows[..|rows| - 1], mountCol, listenersCol, peakCol);
      var r := rows[|rows| - 1];
      if RowEntry(r, mountCol, listenersCol, peakCol).Some? {
        RowEntryShape(r, mountCol, listenersCol, peakCol);
      }
    }
  }

  /** Every mount the page yields starts with '/', is stored under that
      name, and has a non-negative listener count and peak. */
  lemma {:induction false} HtmlMountsEntries(tables: seq<Table>)
    ensures AllHtmlEntries(HtmlMounts(tables))
    decreases |tables|
  {
    if tables != [] {
      var before := HtmlMounts(tables[..|tables| - 1]);
      HtmlMountsEntries(tables[..|tables| - 1]);
      var t := tables[|tables| - 1];
      var c := ColumnsOf(LowerAll(t.headers));
      if t.headers != [] && c.mount.Some? && c.listeners.Some? {
        RowsIntoEntries(before, t.rows, c.mount.value, c.listeners.value, c.peak);
      }
    }
  }
}
