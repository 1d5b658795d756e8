# Icecast listener scraper, modelled in Dafny

This project models one collection cycle of the radio station's listener
scraper (`scraper/scrape_and_push.py`).

- **Reading a status.** The scraper reads the status of the Icecast
  server: the JSON payload of `status-json.xsl` first, and the tables of
  the `status.xsl` HTML page when that yields no mounts. It normalises
  either into a map from mountpoint to mount record.
- **Building the snapshot.** It picks out the tracked towers (Tower 1 and
  Tower 2) and sums the listeners of the charted ones.
- **Recording the cycle.** It appends a record to the listener history.
  It rebuilds one time series per history column ("Tower 1", "Tower 2",
  "Total").
- **Writing the views.** It writes the full view, optionally restricted
  to a cutoff year, and the 24-hour view.
- **Archiving.** It files every history row into a yearly and a monthly
  archive, and writes the sorted year and month indexes.

The model follows the program's own structure:

| file | module | what it holds |
|---|---|---|
| `json.dfy` | `JsonValues` | decoded JSON values, `dict.get`, Python truthiness and `or`, and the identity of dict keys (`1`, `1.0` and `True` are one key; lists and dicts are unhashable) |
| `intparse.dfy` | `IntParsing` | Python's `int()` on text (whitespace stripping, sign, digits with single underscores) and on decoded values; `safe_int`; `str()` of an integer |
| `text.dfy` | `Text` | `find`, `rfind`, `lower`, substring tests |
| `calendar.dfy` | `Calendar` | `datetime.fromtimestamp(ms / 1000, utc)` as a proleptic Gregorian date; its 1..9999 year range; zero padding; Python string order; `YYYY-MM` month keys |
| `collections.dfy` | `Collections` | order-keeping filters, `setdefault(k, []).append(x)` grouping, ascending integer lists |
| `status_json.dfy` | `StatusJson` | `parse_mount_source` (including `urlparse(...).path` and its regex fallback) and `parse_icecast_json` |
| `status_html.dfy` | `StatusHtml` | `parse_icecast_html` over the page's tables, as lists of cell texts |
| `towers.dfy` | `Towers` | `TRACKED_MOUNTPOINTS` and `fetch_listener_data` |
| `series.dfy` | `Series` | history rows, `build_series_map`, `filter_series_by_year`, `write_json_outputs` |
| `rows.dfy` | `HistoryRows` | `row_year` and the date of a row's timestamp |
| `archives.dfy` | `Archives` | `write_archives` |
| `cycle.dfy` | `Cycle` | the part of `main` after the fetch: the record, the history names, and the calls in order |

Code that changes state step by step is written as methods with loops,
each proved against a function that specifies it. This covers:

- the loop over the sources;
- the header and row loops of the HTML parser;
- the tower loop;
- the two loops of `build_series_map`;
- the loops of `filter_series_by_year`;
- the filing loop and the write loops of `write_archives`;
- the record-filling loop of `main`.

The properties the program relies on are proved as lemmas about those
functions.

The clocks and the fetches are parameters:

- `isoNow`, `tsMs` and `nowMs` are the clock readings;
- `nowYear` is the current UTC year;
- `ARCHIVE_CUTOFF_YEAR` and `WINDOW_HOURS` are the environment settings;
- the fetched payload and the fetched page are each `None` when their
  fetch failed.

Two behaviours of the code are worth stating plainly:

- **Unhashable mountpoints.** `parse_mount_source` has its own handler
  (scraper/scrape_and_push.py:200-238), which drops only a failing source.
  A source whose `mount` is a list or an object passes it, and then raises
  TypeError when it is stored at line 181. That is inside the single `try`
  of `parse_icecast_json` (scraper/scrape_and_push.py:178-184), so the loop
  ends there and every later source is lost as well
  (`StatusJson.UnhashableStopsWalk`).
- **No sorting, no sign check.** `build_series_map` does not sort. A series
  is in time order when the history rows are (`Series.SeriesInTimeOrder`).
  A listener count is whatever `int()` makes of the cell, so it can be
  negative.

## Model

| member | source | states |
|---|---|---|
| IntParsing.IntOfString | scraper/scrape_and_push.py:106-113 | `int(s)` for text: the optional sign and digits (with single underscores) left after the whitespace `int()` ignores; its lemmas below give the accepted forms, the round trip with `str()` and the rejection of text without digits |
| IntParsing.SafeIntFallsBack | scraper/scrape_and_push.py:106-113 | `safe_int` returns the default for None, for lists and dicts, and for any text without an ASCII digit |
| IntParsing.SafeIntShownInt | scraper/scrape_and_push.py:106-113 | `safe_int` never falls back on the text of an integer: it returns that integer, whatever the default |
| IntParsing.IntOfStringShowInt | scraper/scrape_and_push.py:106-113 | round trip: `int(str(i)) == i` for every integer, negative ones included |
| IntParsing.IntOfDigits | scraper/scrape_and_push.py:106-113 | a non-empty string of ASCII digits parses to its decimal value, leading zeros allowed |
| IntParsing.IntOfNegated | scraper/scrape_and_push.py:106-113 | a minus sign before n's digits parses to -n |
| IntParsing.IntOfStringNeedsDigit | scraper/scrape_and_push.py:106-113 | text without an ASCII digit is never an integer: `int()` raises ValueError on it |
| IntParsing.DecimalValueShowNat | scraper/scrape_and_push.py:106-113 | the digits `str(n)` writes read back as n |
| IntParsing.SafeInt | scraper/scrape_and_push.py:106-113 | `safe_int` is `int(value)` wherever `int()` accepts the value, and the default wherever it raises (None included); a non-None default always gives a number |
| IntParsing.Strip | scraper/scrape_and_push.py:106-113 | the text `int()` reads is a slice of the input; everything before and after the slice is whitespace, and the slice neither starts nor ends with whitespace |
| IntParsing.SeparatorIsNotSpace | scraper/scrape_and_push.py:106-113 | `int()` does not skip the separator U+001C, so `"\x1c5"` is rejected and `safe_int` falls back |
| StatusJson.ParseMountSource | scraper/scrape_and_push.py:188-238 | a record comes only from a non-empty object, always has a truthy mountpoint and carries the details; the lemmas below give the mountpoint and the counts |
| StatusJson.Normalize | scraper/scrape_and_push.py:148-186 | `parse_icecast_json`'s mounts: the walk over `icestats.source`, characterised by the lemmas from `LoneSourceIsList` to `DroppedSourceIgnored` below |
| StatusJson.ParseIcecastJson | scraper/scrape_and_push.py:148-186 | the loop over the sources leaves exactly the mounts of the specification walk over `icestats.source` |
| StatusJson.LoneSourceIsList | scraper/scrape_and_push.py:172-175 | in any payload, a lone source object normalises exactly as the one-element list holding it, whatever other fields the payload and `icestats` carry |
| StatusJson.MissingSourcesGiveNoMounts | scraper/scrape_and_push.py:165-177 | a payload without `icestats`, or without a list or object `source`, gives no mounts |
| StatusJson.MountIdentity | scraper/scrape_and_push.py:178-181 | without an unhashable mountpoint, a key is in the result exactly when some source is stored under it |
| StatusJson.LaterWins | scraper/scrape_and_push.py:178-181 | of the sources stored under one key, the last one's record is kept |
| StatusJson.DroppedSourceIgnored | scraper/scrape_and_push.py:178-181 | a source `parse_mount_source` rejects changes nothing: its siblings give the same result without it |
| StatusJson.UnhashableStopsWalk | scraper/scrape_and_push.py:178-184 | at the first unhashable mountpoint the loop stops; the result is what the sources before it gave, and every later source is lost |
| StatusJson.WalkIdentity | scraper/scrape_and_push.py:178-181 | over parsed sources: a key is stored exactly when some parsed source carries it |
| StatusJson.WalkLaterWins | scraper/scrape_and_push.py:178-181 | over parsed sources: the last record stored under a key is the one kept |
| StatusJson.WalkRaises | scraper/scrape_and_push.py:178-184 | over parsed sources: the walk keeps what it had before the first record whose key raises |
| StatusJson.WalkDropped | scraper/scrape_and_push.py:178-181 | over parsed sources: a rejected source (None) leaves the walk unchanged |
| StatusJson.WalkAbortedStays | scraper/scrape_and_push.py:178-184 | once the walk has stopped, later sources change nothing |
| StatusJson.WalkNoAbort | scraper/scrape_and_push.py:178-184 | without a record whose key raises, the walk reaches the end |
| StatusJson.MountFromListenUrl | scraper/scrape_and_push.py:204-211 | a non-empty text `listenurl` with a non-empty URL path names the mount by that path |
| StatusJson.MountFromMountField | scraper/scrape_and_push.py:204-222 | when the `listenurl` is missing, falsy, or text that yields no mountpoint (an empty path and no regex tail), the `mount` field names the mount, and a source with neither is dropped |
| StatusJson.MountDefaults | scraper/scrape_and_push.py:224-234 | a stored mount's listeners, peak, bitrate and connected time are `int()` of their fields; where `int()` raises or the field is missing, listeners fall back to 0 and the others to None |
| StatusJson.UrlPath | scraper/scrape_and_push.py:206-211 | `urlparse(url).path` is no longer than the URL; the model's urlparse raises only when the URL holds a bracket (an unmatched one in the network location) |
| StatusJson.UrlMount | scraper/scrape_and_push.py:204-216 | a text `listenurl` gives its URL path whenever urlparse does not raise; otherwise the regex tail, or nothing; never anything longer than the URL |
| StatusJson.UrlPathOfListenUrl | scraper/scrape_and_push.py:206-211 | `urlparse("scheme://host:port/mount").path` is `/mount`, for any host and port without '/', '?', '#' or brackets |
| StatusJson.MountOfUrlWithPort | scraper/scrape_and_push.py:204-211 | the typical `listenurl` `http://host:port/mount`, with a port of digits, names the mount `/mount` |
| StatusJson.MountOfUrlWithoutPath | scraper/scrape_and_push.py:204-219 | a `listenurl` that ends after `host:port` has an empty path and yields no mountpoint, so the `mount` field decides |
| StatusJson.RegexTail | scraper/scrape_and_push.py:212-216 | the fallback regex matches exactly when the URL has a '/' followed by a last non-empty segment without '/'; the match is that tail |
| StatusJson.PathOf | scraper/scrape_and_push.py:210-211 | the URL path is a prefix of what follows the network location |
| StatusHtml.ChooseColumns | scraper/scrape_and_push.py:289-299 | the header loop picks, for each test in `if`/`elif` order, the last header that passes it |
| StatusHtml.LastWhere | scraper/scrape_and_push.py:293-299 | the chosen index passes the test and no later header does; None when no header passes |
| StatusHtml.MountHeaderWins | scraper/scrape_and_push.py:293-299 | a header mentioning "mount" is taken for the mount column, at that index or later, and never for listeners or peak |
| StatusHtml.StoreRows | scraper/scrape_and_push.py:305-331 | the row loop of one table stores, in row order, the record of every row that yields one, so a later row with the same name replaces an earlier one |
| StatusHtml.ParseIcecastHtml | scraper/scrape_and_push.py:264-336 | the table and row loops leave exactly the mounts of the specification fold over the tables |
| StatusHtml.ListenerCellValue | scraper/scrape_and_push.py:319-320 | a listener cell reads as the number its digits spell, and 0 when it has none |
| StatusHtml.PeakCellValue | scraper/scrape_and_push.py:322-324 | a peak cell reads as the number its digits spell, and None when it has none |
| StatusHtml.RowEntry | scraper/scrape_and_push.py:308-331 | a row's record is keyed by a name starting with '/', which is also its mountpoint; `RowEntryShape` gives the rest |
| StatusHtml.RowEntryShape | scraper/scrape_and_push.py:308-331 | a row yields a record exactly when it reaches both columns and its mount cell is neither empty nor "mount point"; the key is the mount cell, with '/' put in front when it lacks one; the listeners and peak are the numbers their cells' digits spell (0 and None without digits), and there is no title |
| StatusHtml.HtmlMountsEntries | scraper/scrape_and_push.py:282-331 | every mount the page yields has that shape |
| Towers.SelectMounts | scraper/scrape_and_push.py:348-364 | the JSON status is used when it has mounts; else the HTML status when it was fetched; else no mounts |
| Towers.TowerFor | scraper/scrape_and_push.py:366-382 | a tower record carries its configuration's id, label, mountpoint and flags; the counts and title come from its mount, or 0, None and None when the mount is missing |
| Towers.TowersOf | scraper/scrape_and_push.py:366-382 | one record per configured tower, in configuration order; no tower is omitted |
| Towers.FetchListenerData | scraper/scrape_and_push.py:338-388 | the tower loop yields the selected mounts, the tower records and the running total |
| Towers.ChartTotalIsChartedSum | scraper/scrape_and_push.py:384-386 | the total is the sum of the listeners of the charted towers and no others |
| Towers.UnchartedTowerIgnored | scraper/scrape_and_push.py:384-386 | a tower left out of the charts does not move the total |
| Towers.TrackedTowers | scraper/scrape_and_push.py:55-68 | the tracked configuration gives Tower 1's and Tower 2's records, each present whether or not its mount was found, and totals their listeners |
| Series.CellTextInt | scraper/scrape_and_push.py:402-408 | reading `str()` of a cell back as an int gives what reading the cell as an int gives |
| Series.Entry | scraper/scrape_and_push.py:435-439 | a row gives a name a point exactly when it has the column and `int()` accepts the value; the point is stamped with the row's time |
| Series.AppendRow | scraper/scrape_and_push.py:434-439 | one pass of the inner loop appends each listed name's points and touches no other series |
| Series.BuildSeriesMap | scraper/scrape_and_push.py:428-441 | the loops build exactly the series map of the specification fold over the rows |
| Series.RowPointsRepeat | scraper/scrape_and_push.py:434-439 | a row adds its point to a series once per listing of the name, and nothing when the name is not listed |
| Series.SeriesOfListedOnce | scraper/scrape_and_push.py:428-441 | for a name listed once, the series is one point per row with an int value for it, in row order |
| Series.ColumnLength | scraper/scrape_and_push.py:428-441 | that series has as many points as there are rows with a value, so no more points than rows |
| Series.SeriesLength | scraper/scrape_and_push.py:428-441 | a series has at most one point per row for each listing of its name |
| Series.SeriesBounded | scraper/scrape_and_push.py:428-441 | no point is later than the latest row |
| Series.SeriesInTimeOrder | scraper/scrape_and_push.py:428-441 | rows in time order give series in time order |
| Series.KeepFromYear | scraper/scrape_and_push.py:448-452 | the inner loop keeps, in order, the points of the cutoff year or later; it fails exactly when some point's year is outside what `datetime` can hold |
| Series.YearFiltered | scraper/scrape_and_push.py:443-453 | the year filter succeeds exactly when every point's year is one `datetime` can hold, and then keeps every series name |
| Series.FilterSeriesByYear | scraper/scrape_and_push.py:443-453 | the outer loop gives the specification's year filter: every series filtered, or failure (ValueError) |
| Series.YearFilterKeeps | scraper/scrape_and_push.py:443-453 | the year filter keeps every series name and, of each series, exactly the points of the cutoff year or later, with their multiplicity |
| Series.YearFilterIsClip | scraper/scrape_and_push.py:443-453 | filtering by a cutoff year is clipping at the first instant of that year |
| Series.Clip | scraper/scrape_and_push.py:478-482 | the 24-hour clip keeps every series name; `ClipKeeps` gives the points kept |
| Series.ClipKeeps | scraper/scrape_and_push.py:478-482 | the 24-hour clip keeps every name and, of each series, exactly the points at or after the cutoff |
| Series.ClipKeepsTail | scraper/scrape_and_push.py:478-482 | of a series in time order the clip keeps a suffix, the latest points |
| Series.CutoffYear | scraper/scrape_and_push.py:460-467 | an unset or empty `ARCHIVE_CUTOFF_YEAR` sets no cutoff |
| Series.WriteJsonOutputs | scraper/scrape_and_push.py:455-488 | the outputs are the two views of the specification function |
| Series.JsonOutputsViews | scraper/scrape_and_push.py:455-488 | the full view is the year filter's result when a cutoff is set and every year is representable, and the unfiltered series otherwise; the 24-hour view ignores the cutoff |
| Series.JsonOutputsSubseries | scraper/scrape_and_push.py:455-488 | every point of either view is a point of its series |
| HistoryRows.RowYear | scraper/scrape_and_push.py:490-499 | `row_year`: the ISO text's leading year, else the timestamp's UTC year, else the current year, as `RowYearFromIso` and `RowYearFallback` state |
| HistoryRows.RowYearFromIso | scraper/scrape_and_push.py:490-493 | a row whose ISO text starts with a zero-padded year is filed under that year, whatever its timestamp says |
| HistoryRows.RowYearFallback | scraper/scrape_and_push.py:490-499 | whenever `int()` rejects the first four characters of the ISO text, the row takes its timestamp's UTC year, or the current year when the timestamp is unusable |
| HistoryRows.RowYearWithoutIso | scraper/scrape_and_push.py:490-499 | in particular a row without ISO text (no column, or a short CSV line) takes its timestamp's UTC year, or the current year |
| HistoryRows.RowDate | scraper/scrape_and_push.py:513-514 | a row's date, when it has one, is a valid date in the years 1 to 9999 |
| HistoryRows.StampedRowDate | scraper/scrape_and_push.py:513-514 | a row whose timestamp parses and is in range has that timestamp's date |
| HistoryRows.ArchivableFilter | scraper/scrape_and_push.py:517-518 | every bucket of archivable rows is archivable and has timestamps |
| Archives.FileRows | scraper/scrape_and_push.py:511-520 | the filing loop groups the rows by year and by month, in history order, and collects the sets of years and months as ascending lists |
| Archives.YearBucketOccupied | scraper/scrape_and_push.py:517-519 | a year has a bucket exactly when some row falls in it |
| Archives.MonthBucketOccupied | scraper/scrape_and_push.py:518-520 | a month has a bucket exactly when some row falls in it |
| Archives.YearBucketsPartition | scraper/scrape_and_push.py:511-519 | every row is in the bucket of its own year, as often as in the history, and in no other year bucket |
| Archives.MonthBucketsPartition | scraper/scrape_and_push.py:511-520 | every row is in the bucket of its own month, and in no other month bucket |
| Archives.SeriesPerBucket | scraper/scrape_and_push.py:525-548 | the write loops give every bucket the series map of its rows |
| Archives.KeyOfMonth | scraper/scrape_and_push.py:515 | a month's number is valid and names its `YYYY-MM` key |
| Archives.KeyOfOrdinalOrder | scraper/scrape_and_push.py:555 | later month numbers have later keys in Python string order |
| Archives.MonthIndex | scraper/scrape_and_push.py:555 | ascending month numbers give keys in ascending string order |
| Archives.MonthIndexKeys | scraper/scrape_and_push.py:515-520 | the month numbers of the rows name exactly the rows' month keys |
| Archives.WriteArchives | scraper/scrape_and_push.py:501-557 | the archives: one yearly and one monthly series map per occupied bucket, each from that bucket's rows; the sorted year index; the month index sorted in string order; each index listing exactly the archives written |
| Calendar.DayOf | scraper/scrape_and_push.py:514 | the UTC day of an instant is the floor of its milliseconds over the day length, before 1970 too |
| Calendar.CivilFromDaysFromCivil | scraper/scrape_and_push.py:514 | days and valid dates correspond one to one |
| Calendar.YearOfMsMonotone | scraper/scrape_and_push.py:448-449 | later instants never fall in earlier years |
| Calendar.YearFromNewYear | scraper/scrape_and_push.py:448-450 | an instant is in year y or later exactly when it is not before y's first instant |
| Calendar.PadValue | scraper/scrape_and_push.py:515 | the zero-padded digits read back as the number |
| Calendar.MonthKeyRoundTrip | scraper/scrape_and_push.py:515 | the month key gives back its year and month |
| Calendar.MonthKeyOrder | scraper/scrape_and_push.py:515 | month keys sort as strings in calendar order |
| Cycle.LabelsAreHistoryTowers | scraper/scrape_and_push.py:664 | the history names are the labels of the towers kept in the history, one each, in order |
| Cycle.Record | scraper/scrape_and_push.py:648-660 | the cycle's history record: the two timestamps, each history tower's count under its label, and the total, as `RecordKeys`, `RecordStamps` and `RecordCounts` state |
| Cycle.BuildRecord | scraper/scrape_and_push.py:648-660 | the record loop yields the record of the specification function |
| Cycle.WithCountsKeys | scraper/scrape_and_push.py:656-658 | the counts add exactly the history towers' names as columns and leave every other column as it was |
| Cycle.WithCountsValue | scraper/scrape_and_push.py:656-658 | a history tower's column holds its listener count unless a later history tower has the same name |
| Cycle.RecordKeys | scraper/scrape_and_push.py:648-660 | the record's columns are the two timestamps, "Total" and the history towers' names, and no others |
| Cycle.RecordStamps | scraper/scrape_and_push.py:648-660 | the record holds the two clock readings and the total |
| Cycle.RecordCounts | scraper/scrape_and_push.py:656-658 | the record holds each history tower's listener count under its name |
| Cycle.AppendedSeries | scraper/scrape_and_push.py:667-671 | appending a row extends the series of a name listed once by that row's point, leaving the earlier points as they were |
| Cycle.CycleSeries | scraper/scrape_and_push.py:648-671 | after a cycle, "Total" ends with the cycle's total, and each history tower's series ends with its listener count, both stamped with the cycle's time |
| Cycle.RecordFiled | scraper/scrape_and_push.py:648-653 | when both clock readings fall in one year, the record is filed under that year and the month of its timestamp |
| Cycle.TrackedNames | scraper/scrape_and_push.py:55-68 | the tracked configuration has the history columns "Tower 1", "Tower 2" and "Total", and meets the naming condition of `Cycle.RunCycle` |
| Cycle.RunCycle | scraper/scrape_and_push.py:638-673 | one cycle: the towers and total from the selected status; the history with the record appended; the two views of its series; the archives, each bucket holding the series map of its rows, with indexes that are sorted and that list exactly the archives written |

## Left out

- Fetching (`fetch_icecast_status_json`, `fetch_icecast_status_html`): the HTTP requests become the `payload` and `page` parameters.
- Parsing HTML into tables: BeautifulSoup's parsing becomes the `Table` values the parser walks over. Without BeautifulSoup the parser returns no mounts; that path is not modelled.
- `load_history`, `save_history`, every `json.dump`, the directory creation and the index files: file I/O is not modelled. History rows are `Row` maps whose cells are the values `load_history` leaves (text, the ints it coerced, None for short lines).
- `write_pi_health`, `git_commit_and_push`, and all printing and logging.
- `iso_now`, `ts_now_ms` and `datetime.now`: clock readings are parameters.
- `ts_now_ms` and `ms / 1000.0` use floating point, which is not modelled. Timestamps are whole milliseconds and the 24-hour cutoff is `nowMs - WINDOW_HOURS * 3600000`.
- `fromtimestamp` outside the platform's `time_t` range raises OverflowError or OSError rather than ValueError; only the 1..9999 year bound is modelled.
- `int()` rejects text over 4300 digits and accepts non-ASCII Unicode digits; neither is modelled. Floats are exact reals, and JSON NaN and infinities are not represented.
- `urlparse`: only the scheme, the network location with its matched-bracket check, the fragment, the query and the `;params` split are modelled. Scheme-specific details beyond these are not.
- StatusJson.UrlPath: does not model the check `urlsplit` makes in Python 3.7.3 and later on a non-ASCII network location. That check raises ValueError when the NFKC normal form contains '/', '?', '#', '@' or ':'. For `"http://a\u2100b/x/y"` ('\u2100' normalises to "a/c"), Python raises and the regex fallback gives `/y`, while the model gives `/x/y`.
- `urlsplit` in Python 3.6.14, 3.7.11, 3.8.11, 3.9.5 and later removes every '\t', '\r' and '\n' from the URL first. This is not modelled.
- `urlsplit` in Python 3.7.17, 3.8.17, 3.9.17, 3.10.12, 3.11.4 and later strips leading C0 control characters and spaces. This is not modelled: for `" http://h/x"` Python gives the path `/x` and the model gives `" http://h/x"`.
- `urlsplit` in Python 3.11.4 and later checks that a bracketed host is an IPv6 or IPvFuture address and raises otherwise. This is not modelled: for `"http://[abc]/a/b"` Python raises and the regex fallback gives `/b`, while the model gives `/a/b`.
- `str.lower()` lowers every Unicode letter; `Text.Lower` lowers only ASCII letters. Python lowers the Kelvin sign U+212A to 'k', so a header "PEA" followed by the Kelvin sign reads as "peak" and is taken for the peak column in Python, but not in the model. No other non-ASCII character changes what the header tests and the "mount point" test decide.
- Order of series in written payloads: series maps are Dafny maps, so the order of the `series` list is not modelled. The order of `by_year.items()` and `by_month.items()` is not modelled either: the write loops iterate over the key set.
- `years_set` and `months_set` are held as ascending lists of years and of month numbers. The model proves that these lists, and the month keys they give, are `sorted()` of the sets.
- `LISTENER_LABELS` is computed but never used, so it is not modelled.
- `fetched_at` timestamps and the `mounts` value of `fetch_listener_data`'s result, beyond the selected map, are not modelled.
- The HTML parser keeps no `description`, `bitrate`, `genre`, `stream_start` or `connected`: `details` is None for its records.
- Series.BuildSeriesMap: requires every row's timestamp to parse, because otherwise `build_series_map` raises and nothing catches it.
- Archives.WriteArchives: requires every row to have an in-range timestamp, because otherwise `write_archives` raises and nothing catches it.
- HistoryRows.MonthOf: gives "" for a row without a date. Such a row never reaches the filing loop, because `Archivable` excludes it.
- Cycle.RunCycle: requires the history labels to be distinct and to differ from the record's own columns. `Cycle.TrackedNames` shows that the tracked configuration meets this.
- Cycle.RecordFiled: assumes the ISO text and the millisecond clock fall in the same year. The two readings are taken separately and may straddle a new year.
