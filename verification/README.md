# WiFi traffic monitor core, modelled in Dafny

This project models the non-UI core of a Streamlit dashboard that samples per-interface network
counters, keeps a bounded history of per-interval deltas and flags unusual intervals with an
outlier detector. The model covers three pieces:

- **The sampler tick** (`NetworkUtils`, from `network_utils.py`). Cumulative byte counters become
  delta rows. A map of previous counters gives each interface its baseline. An interface seen
  for the first time gets zero deltas, and a counter that went backwards is clamped to zero,
  field by field. Each row carries the interface's first IPv4 address and a location label.
  The label is "Localhost", "Private Network", a joined "city, region, country", or "Unknown".
- **The page state** (`History` and `Realtime`, from `realtime.py`). This covers the default
  interface heuristic, the history (append at the tail, keep the last 500), the 200-row recent
  slice, and the choice of rows shown as anomalies.
- **The detector guard** (`Anomaly`, from `anomaly.py`). Frames that are missing or have fewer
  than 10 rows give None. Non-numeric cells are coerced to 0. A failed fit gives None. Otherwise
  the result has the same rows in the same order, each tagged 1 or -1.

Modules: `Wrappers` (Option), `Seqs` (order-preserving filter, subsequence, last-n window),
`Text` (ASCII lower-casing, substring test, `join`, integer literals), `NetworkUtils`,
`History`, `Anomaly`, `Realtime`.

Outside collaborators become parameters:
- `NetworkUtils.Env` holds the private-address test, the HTTP location lookup (None when the
  request raises) and the protocol pick.
- The operating system's counter and address tables are plain maps passed to `Tick`.
- The isolation forest is an `Anomaly.Predictor`: a deterministic function from points to an
  optional sequence of labels.
- Session state (`prev_counters`, `history`) is the explicit `Realtime.Session` value.
  `Realtime.Start` is the empty state that `app.py` sets up at start-up.

Delta and counter fields are `nat`, so no row can carry a negative delta.

Two promises hold by construction and need no lemma. Every operation is a pure function of its
arguments, so the detector gives identical results on identical input. And no caller's frame is
ever mutated.

## Model

| member | source | states |
|---|---|---|
| NetworkUtils.TickRowsFollowSelection | network_utils.py:53-67 | The interfaces of the emitted rows are exactly the selected interfaces that have stats, in selection order; one without stats yields no row |
| NetworkUtils.TickRowsReportCurrent | network_utils.py:91-101 | Every row carries the tick's instant, its interface's current cumulative counters, the address cells of that interface and its protocol label |
| NetworkUtils.TickUpdatesPrev | network_utils.py:84-89 | After a tick each interface that produced a row maps to its current counters and the tick's instant; all other entries are unchanged and no other key is added |
| NetworkUtils.TickDeltas | network_utils.py:69-82 | With a repeat-free selection, a row's deltas are 0 on first observation, else current minus previous per field, clamped to 0 independently per field |
| NetworkUtils.ClampedDelta | network_utils.py:72-78 | The delta is exactly current minus previous when current is at least previous, and 0 when the counter went backwards; equivalently, the least non-negative amount that brings previous up to current |
| NetworkUtils.Tick | network_utils.py:40-104 | A tick emits at most one row per selected interface and never drops a key from the previous-counter map |
| NetworkUtils.RepeatedInterfaceSeesOwnUpdate | network_utils.py:70-89 | In any selection that lists an interface again after an earlier occurrence, the row of the later occurrence has zero deltas, because the earlier one already stored its counters; that row directly follows the rows of everything selected before it |
| NetworkUtils.TickConcat | network_utils.py:53-89 | A tick over two consecutive parts of a selection equals the tick over the first part followed by a tick over the second part, started from the map the first part left |
| NetworkUtils.CounterResetScenario | network_utils.py:69-89 | Previous (1000, 2000) and current (1500, 1800) give deltas (500, 0), and the map then holds (1500, 1800) |
| NetworkUtils.SettledTickZeroDeltas | network_utils.py:70-89 | When every recorded entry already holds the current counters, every row of a tick has zero deltas, for any selection including repeats, and the map stays that way |
| NetworkUtils.FirstIPv4 | network_utils.py:55-60 | The result is None exactly when no address is IPv4; otherwise it is the address of the first IPv4 entry |
| NetworkUtils.AddressCells | network_utils.py:56-62 | Without an IPv4 address the cells are "N/A" and "Unknown". When the first IPv4 address is non-empty, the cells are that address and its geolocation. When it is empty, they are "N/A" and "Unknown". The location is never empty |
| NetworkUtils.Geolocate | network_utils.py:16-33 | Empty or loopback gives "Localhost", then a private address gives "Private Network", then a status-200 reply gives its place label; a failed request or any other reply gives "Unknown"; never empty |
| NetworkUtils.GeolocateSentinels | network_utils.py:17-20 | "127.0.0.1" and a missing address give "Localhost"; a private address gives "Private Network"; a public address whose lookup raises gives "Unknown" |
| NetworkUtils.PlaceLabel | network_utils.py:26-30 | The label is never empty and is "Unknown" when city, region and country are all empty |
| NetworkUtils.PlaceLabelMentionsParts | network_utils.py:29-30 | Every non-empty place field occurs in the label |
| NetworkUtils.PlaceLabelShapes | network_utils.py:26-30 | For each of the eight combinations of present fields, the label is the present fields joined by ", " in city, region, country order, or "Unknown" when none is present |
| Text.Join | network_utils.py:29 | No parts join to the empty string and one part to itself. The joined string starts with the first part, and its length is the parts' total length plus one separator between each adjacent pair |
| Text.JoinSnoc | network_utils.py:29 | Joining one more part appends the separator and that part, so the parts appear in order with one separator between neighbours |
| Text.JoinContainsParts | network_utils.py:29 | Every part occurs as a contiguous block in the joined string |
| Text.ContainsIff | realtime.py:21 | The left-to-right substring scan succeeds exactly when the keyword occurs at some position of the name |
| Realtime.DefaultInterfaces | realtime.py:19-24 | No interfaces give no defaults, and the defaults are never longer than the interface list |
| Realtime.DefaultInterfacesSpec | realtime.py:19-24 | The defaults are a subsequence of the interfaces. When any interface looks wireless they are exactly the wireless-looking ones, counted with multiplicity. Otherwise they are the first interface, or nothing for an empty list |
| Realtime.LooksWirelessReduced | realtime.py:21 | Matching the five keywords is the same as matching "wi-fi", "wifi" or "wl" in the lower-cased name |
| History.Append | realtime.py:42-54 | An empty batch leaves the history unchanged. Otherwise the result is old plus new when that fits in 500, else its last 500 records; it is at most 500 long and ends with the batch's last record |
| History.AppendIsLastN | realtime.py:51-54 | On a history within the cap, an append equals "concatenate, then keep the last 500", empty batch included |
| History.AppendAllKeepsMostRecent | realtime.py:51-54 | After any sequence of batches the history is exactly the last 500 of all records ever appended, in arrival order |
| History.AppendAllBounded | realtime.py:53-54 | The history stays within 500 records across any number of appends |
| History.AppendKeepsBatch | realtime.py:51-54 | A batch of at most 500 records is kept whole, in order, at the tail of the history |
| History.OverflowScenario | realtime.py:53-54 | Appending records 1..510 to an empty history keeps 500 records, from record 11 to record 510 |
| History.Recent | realtime.py:80 | The recent slice is the last min(200, length) history rows, in order |
| Realtime.Refresh | realtime.py:31-54 | Without a selection the session is unchanged; a refresh keeps the history within 500 rows and never forgets a previous counter |
| Realtime.FirstRefreshRecordsZeroDeltas | realtime.py:58 | From the start-up state, every row a first refresh stores has zero deltas, whatever the selection (repeats included), and the map it leaves holds the readings just taken |
| Realtime.RefreshAppendsTickRows | realtime.py:39-51 | After a refresh the session map is the one the tick left. The newest history rows are exactly the tick's rows, one per selected interface with stats, in selection order. Each reports the current counters, instant, address cells and protocol. With each interface selected once, each row's deltas are measured against the map from before the refresh |
| Realtime.RefreshKeepsEarlierRows | realtime.py:39-54 | A refresh with a selection keeps the earlier history: the new history is the last 500 of the old rows followed by the tick's rows, and a tick with no rows leaves the history unchanged |
| Realtime.ReplayIsAppendAll | realtime.py:39-54 | A run of refreshes changes the history exactly as appending each refresh's sampled batch in turn |
| Realtime.ReplayKeepsMostRecent | realtime.py:39-54 | After any run of refreshes from a bounded history, the history is the last 500 rows of the earlier history and of everything sampled since, in arrival order |
| Realtime.CountAndDisplayCanDisagree | realtime.py:71-84 | With over 200 rows and a predictor that flags only the first point of each fit, the count is 1 for the oldest row, while the display shows the first row of the recent slice, which the full fit scored 1 |
| Realtime.Flagged | realtime.py:76 | The rows kept are a subsequence of the rows, in their original order, and their number equals the number of -1 tags |
| Realtime.FlaggedExactly | realtime.py:84 | A row is kept exactly when it stands at a position tagged -1 |
| Realtime.AnomalyView | realtime.py:57-89 | An empty history shows nothing. Under 10 rows there are no verdicts. Shown rows come from the recent slice. The fallback display holds only -1 verdicts |
| Realtime.AnomalyViewCases | realtime.py:71-86 | For every history the display follows the detectors. A failed full-history detection gives no verdicts. No -1 verdict gives the all-clear. Otherwise the view is aligned exactly when re-scoring the recent slice succeeds, with the count of -1 verdicts. The fallback shows exactly the full-history rows tagged -1, in order |
| Realtime.AlignedViewExact | realtime.py:71-86 | The count is the number of -1 verdicts over the whole history. The rows shown are exactly the recent rows that re-scoring the recent slice tags -1: as many as it has -1 verdicts, in history order |
| Realtime.TotalPredictorAlwaysAligns | realtime.py:80-86 | With a predictor that never fails, 10 or more rows always give verdicts and the flagged rows are always shown aligned with the recent slice |
| Anomaly.Detect | anomaly.py:4-24 | A missing frame or one under 10 rows gives None. A failed fit gives None and nothing partial. Otherwise every row is kept in order with its coerced counts and its verdict |
| Anomaly.Coerce | anomaly.py:13-14 | A value that is not numeric becomes 0, and a number is kept as it is |
| Anomaly.Points | anomaly.py:13-19 | The predictor receives one point per row: that row's coerced sent and received counts |
| Anomaly.DetectSeesOnlyCoercedValues | anomaly.py:13-19 | Two frames that coerce to the same points get the same result |
| Anomaly.CoerceRenderedInteger | anomaly.py:13 | A number written as decimal text counts as numeric and coerces back to that number |
| Anomaly.DetectIgnoresRendering | anomaly.py:13-19 | Storing a count as decimal text instead of a number does not change the detector's result |
| Text.ParseShowInteger | anomaly.py:13 | Reading back the decimal rendering of any integer gives that integer |

## Left out

- Operating-system reads are not modelled. The counter table and the address table are inputs to `Tick`.
- The HTTP location request is not modelled, and neither is its 2-second timeout. It is the `lookup` oracle.
- The library test for private addresses is not modelled. It is the `isPrivate` oracle, false on unparsable input.
- The random protocol pick is the `protocolOf` oracle, and the location request is the `lookup` oracle. The model fixes the protocol's range (TCP, UDP, ICMP or OTHER). Each oracle is a function of its argument, while `random.choice` (network_utils.py:38) and `requests.get` (network_utils.py:23) can answer differently on every call. So here an interface selected twice gets the same protocol label both times, and two interfaces that share an IPv4 address get the same location.
- `datetime.now()` is an opaque `Instant`. It is copied into rows and snapshots and never compared.
- The location lookup is also made for interfaces that are then skipped. It has no effect on any result, so the model does not make it.
- A lookup reply that is JSON but not an object makes the source raise. That path is not modelled; an unreadable body maps to "Unknown", like a raised request.
- The isolation forest's internals are not modelled: contamination 0.05, seed 42, randomised trees, floating-point scores. `Anomaly.Detect` keeps only its promise of one label of 1 or -1 per point.
- Anomaly.Detect: its `requires` is that promise. A predictor that broke it would make the source raise at anomaly.py:23.
- Anomaly.Coerce: reads integer literals only (optional sign, ASCII digits). Decimal, exponent and whitespace-padded text become 0 here, although numeric conversion in the source would parse text such as "1.5" or " 12" to a number. "inf" text and float cells are not modelled.
- Realtime.LooksWirelessReduced: lower-casing is ASCII-only, while Python's `str.lower` is Unicode-aware.
- Realtime.DefaultInterfaces: same ASCII-only lower-casing.
- NetworkUtils.TickDeltas: stated for a selection without repeats, which is what the multiselect widget returns. `NetworkUtils.RepeatedInterfaceSeesOwnUpdate` covers a repeated interface.
- Realtime.RefreshAppendsTickRows: its delta clause is stated for a selection without repeats, as for `NetworkUtils.TickDeltas`. Its history clauses need a tick of at most 500 rows; a larger tick keeps only its own last 500 rows (`History.Append`).
- Streamlit widgets, warnings, auto-refresh, tables, the protocol pie chart and the top-IP bar chart (realtime.py:26-37, 56-62, 87-115) are display glue.
- The timestamp conversion (realtime.py:61) and the guarded column selection (realtime.py:66-69) are left out. The selection cannot fail, because the history always has both byte columns.
- Charts, statistics, PDF export and page navigation are left out: visualization.py, statistics.py, pdf_utils.py, download.py, ui_utils.py and app.py.

## Notes on the source

- The anomaly count and the rows displayed come from different fits. The count is over the whole history (realtime.py:71-77). The displayed rows come from re-scoring only the last 200 rows (realtime.py:80-84). `Realtime.AlignedViewExact` states both, and `Realtime.CountAndDisplayCanDisagree` gives a history of more than 200 rows on which they differ.
- The keyword list tests "wlan" and "wlp" as well as "wl". Both are redundant (`Realtime.LooksWirelessReduced`).
- An empty or missing address gives "Localhost" inside the lookup (network_utils.py:17). The sampler never passes one, because it takes the "Unknown" branch first (network_utils.py:62).
