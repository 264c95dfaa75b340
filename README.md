# Coquetel Smart System — a verified model of its order core

Coquetel Smart System takes cocktail orders from tables at an event. Three
programs share one JSON file of orders:

- the **API server** (`backend/server_api.py`) accepts new orders (`POST /pedido`),
  lists them newest first with an optional status filter (`GET /pedidos`), sets
  an order's status to any of *pendente*, *preparando*, *pronto* or *entregue*
  (`PUT /pedido/<id>/status`; the order of the transitions is not checked) and
  empties the store (`POST /reset`). After every
  change it recomputes a statistics snapshot: total orders, orders today, orders
  per drink, and the set of tables with an order not yet delivered;
- the **monitor** (`scripts/monitor.py`) analyses the orders every 30 seconds.
  It writes an insights snapshot: the top 5 drinks, the top 3 hours, the top 5
  tables and recommendations. It pauses 5 seconds after a failed cycle and
  stops on Ctrl-C;
- the **report tool** (`scripts/analyze.py`) prints a report (status histogram,
  top drinks and tables, peak hour, hour distribution, advice) or exports the
  orders as CSV.

The Dafny project models these three files:

- `wrappers.dfy`: `Option` and `Result`.
- `sorting.dfy`: Python's stable `sort(reverse=True)`, written as a stable
  descending insertion sort over any preorder. It proves the result is a
  permutation, is sorted, and keeps the input order among equal keys.
- `counting.dfy`: `collections.Counter` and `most_common(k)`. A counter is an
  insertion-ordered list of (element, count) entries. `most_common` is a stable
  sort by count, cut to `k` entries. The same counter also models the server's
  hand-written `dict.get(d, 0) + 1` loop.
- `orders.dfy`: the order record, the statuses, building an order from a
  request, the hour of an ISO timestamp, and the lists each script projects
  out of the orders.
- `store.dfy`: the server. Class `OrderStore` holds the order list and the
  statistics snapshot as fields. Its methods are the four handlers and
  `estatisticas`, each stated with its HTTP outcome and its new state.
- `monitor.dfy`: `analyze_patterns` as a function. Class `CocktailMonitor`
  runs the loop over a sequence of events: one file read, one clock reading and
  one write result per cycle, or an interrupt.
- `analyze.dfy`: `generate_report` as a report value, and `export_csv` as a
  list of lines. It proves that the CSV row splits back into its six fields.

I/O and the clock are parameters:

- A `Clock` carries the id millis, the ISO "now" and today's date.
- In the monitor, the read of the orders file is an `Option` (`None` when the
  JSON cannot be read). Writing the insights file has three results: it
  succeeds, it fails at `open` before the file is touched, or it fails inside
  `json.dump` after `open(..., 'w')` has emptied the file, which leaves no
  readable snapshot.

## Model

| member | source | states |
|---|---|---|
| `Sorting.SortDesc` | backend/server_api.py:122 | sorting returns a permutation of its input |
| `Sorting.SortDescSorted` | backend/server_api.py:122 | with `reverse=True` over a total preorder, the result is in descending order |
| `Sorting.SortDescTies` | backend/server_api.py:122 | the sort is stable: among equal keys the input order is kept (needs only transitivity) |
| `Counting.Tally` | backend/server_api.py:51-54 | a counter has no more entries than elements counted, and is empty only for an empty list |
| `Counting.TallyIsCounter` | backend/server_api.py:51-54 | counting into a dict gives each distinct element once, with its exact count, in order of first occurrence |
| `Counting.TallyTotal` | backend/server_api.py:51-54 | the counts of a counter add up to the number of elements counted |
| `Counting.MostCommonAll` | scripts/analyze.py:38-41 | `most_common()` holds exactly the counter's entries, reordered |
| `Counting.MostCommon` | scripts/monitor.py:46 | `most_common(k)` is a prefix of `most_common()` with at most k entries |
| `Counting.MostCommonAllSpec` | scripts/analyze.py:38-41 | `most_common()` lists every distinct element once with its exact count, largest first, ties in first-occurrence order |
| `Counting.MostCommonAllTotal` | scripts/analyze.py:38-41 | the counts `most_common()` lists add up to the number of elements |
| `Counting.MostCommonSpec` | scripts/monitor.py:45-46 | `most_common(k)` gives at most k distinct elements with exact counts, descending; an element is left out only when k were listed, and it occurs no more often than the last one listed |
| `Counting.MostCommonFirstIsMax` | scripts/monitor.py:59-60 | on a non-empty list, the first entry of `most_common(k)` has the largest count of all elements |
| `Counting.MostCommonEmpty` | scripts/analyze.py:51-52 | `most_common(k)` is empty exactly when nothing was counted or k is 0 |
| `Counting.TopKey` | scripts/monitor.py:60 | `most_common(1)[0][0]` occurs in the list and no element occurs more often |
| `Orders.ParseStatus` | backend/server_api.py:130-133 | a value is accepted exactly when it names one of the four statuses, and maps to that status |
| `Orders.NewOrder` | backend/server_api.py:84-92 | a new order has the clock's millis as id, status pendente, the request's drink and table, and the given timestamp and event, or else now and "N/A" |
| `Orders.HourOf` | scripts/monitor.py:49 | an hour is read only from a timestamp of date layout, and is below 24 |
| `Orders.HourOfLayout` | scripts/monitor.py:49 | `YYYY-MM-DDTHH...` has the two digits HH as its hour |
| `Orders.HoursOf` | scripts/analyze.py:59 | the hour list has one valid hour per order, or some order's timestamp has no hour (the exception) |
| `Orders.HoursCount` | scripts/monitor.py:49-50 | counting hours counts the orders placed in that hour |
| `Orders.HoursValid` | scripts/monitor.py:49 | every counted hour is below 24 |
| `Orders.TruthyTables` | scripts/monitor.py:54 | keeps at most one table per order, and never an empty table name |
| `Orders.PendingCount` | scripts/monitor.py:72 | the pending count is at most the number of orders, and is zero exactly when no order is pending |
| `Orders.TruthyTablesCount` | scripts/monitor.py:54-55 | the tables counted are the truthy ones: an empty table name is never counted, any other counts once per order at it |
| `Orders.TruthyTablesEmpty` | scripts/analyze.py:51-52 | no table is counted exactly when no order has a truthy table |
| `Store.StrLeTotal` | backend/server_api.py:122 | string comparison is total |
| `Store.StrLeTransitive` | backend/server_api.py:122 | string comparison is transitive |
| `Store.StrLeAntisymmetric` | backend/server_api.py:122 | string comparison is antisymmetric |
| `Store.ByTimestampIsPreorder` | backend/server_api.py:122 | ordering orders by timestamp is a total preorder |
| `Store.WithStatus` | backend/server_api.py:119 | the filtered list holds every order with that status as many times as the store does, and nothing else |
| `Store.Selected` | backend/server_api.py:118-119 | an absent or empty filter keeps every order; any other keeps exactly the orders with that status |
| `Store.UnknownFilterSelectsNothing` | backend/server_api.py:118-119 | a non-empty filter that names no status lists nothing |
| `Store.TodayCount` | backend/server_api.py:45 | at most every order was placed today |
| `Store.ComputeStats` | backend/server_api.py:39-66 | the one-pass loop yields the snapshot: total, today's count, a counter of drinks whose counts add up to the total, and the tables with an undelivered order |
| `Store.StatsFacts` | backend/server_api.py:43-58 | in any snapshot, the drink counter is exact and sums to the total, and today's orders are at most the total |
| `Store.OpenTables` | backend/server_api.py:56-58 | the active tables are never more than the orders |
| `Store.ActiveTableHasOpenOrder` | backend/server_api.py:56-58 | a table is active exactly when some order at it is not delivered |
| `Store.EmptyStats` | backend/server_api.py:43-49 | the snapshot of no orders has zero counts, no drinks and no tables |
| `Store.FirstWithId` | backend/server_api.py:137-138 | finds the first order with the id, or reports that none has it |
| `Store.OrderStore.constructor` | backend/server_api.py:176 | startup computes the statistics of the stored orders |
| `Store.OrderStore.UpdateStats` | backend/server_api.py:150-154 | `/estatisticas` recomputes and returns the snapshot of the current orders |
| `Store.OrderStore.SubmitOrder` | backend/server_api.py:77-110 | a JSON object appends exactly the new order, answers 201 with its id and refreshes the statistics; any other body answers 400 and changes nothing |
| `Store.OrderStore.ListOrders` | backend/server_api.py:112-124 | returns exactly the selected orders (as a multiset), newest timestamp first, equal timestamps in stored order |
| `Store.OrderStore.UpdateStatus` | backend/server_api.py:126-148 | 400 for a bad body or a status outside the four; 404 exactly when no order has the id; otherwise only the first order with the id gets the new status and update time, it is returned, and the statistics are refreshed |
| `Store.OrderStore.Reset` | backend/server_api.py:156-163 | `confirm == 'RESET'` empties the orders and refreshes the statistics; another value answers 400; a JSON body that is not an object is an uncaught error (500); only success changes state |
| `Monitor.Snapshot` | scripts/monitor.py:33-76 | the snapshot carries the time and the order count, no preparation time, at most 5 drinks, 3 hours and 5 tables, and two or three tips |
| `Monitor.AnalyzePatterns` | scripts/monitor.py:26-78 | nothing to analyse exactly for an empty list; an error exactly when some timestamp has no hour; a snapshot otherwise |
| `Monitor.DrinksRanking` | scripts/monitor.py:33-46 | the snapshot has the time, the order count and no preparation time; its drink ranking is `most_common(5)` of the drink names |
| `Monitor.PeakHoursRanking` | scripts/monitor.py:48-51 | at most 3 distinct valid hours, each with the non-zero number of orders placed in it, descending; an hour left out has no more orders than the last listed |
| `Monitor.BusiestTablesRanking` | scripts/monitor.py:53-56 | at most 5 distinct non-empty tables, each the table of some order, with their exact order counts, descending; a non-empty table left out has no more orders than the last listed |
| `Monitor.RecommendationsShape` | scripts/monitor.py:58-76 | two tips, plus a backlog tip with the pending count exactly when more than 5 orders are pending |
| `Monitor.PopularDrinkTip` | scripts/monitor.py:59-63 | the first tip names a drink that was ordered, and no drink was ordered more often |
| `Monitor.PeakHourTip` | scripts/monitor.py:65-69 | the second tip names an hour below 24, and no hour has more orders |
| `Monitor.RunCycle` | scripts/monitor.py:80-95 | a cycle saves exactly the snapshot the analysis returns when the write succeeds; it has nothing to save exactly for an empty list; it fails when the read, a timestamp or the write fails; it leaves the insights file cut off exactly when the dump of a snapshot fails |
| `Monitor.OutcomesSpec` | scripts/monitor.py:90-113 | the loop runs exactly one cycle per event before the first interrupt, in order |
| `Monitor.PausesSpec` | scripts/monitor.py:109-116 | one pause per cycle: 5 after a failed cycle, 30 otherwise |
| `Monitor.NothingSaved` | scripts/monitor.py:80-95 | cycles that do not write the insights file (nothing to save, a failed read or analysis, a failed `open`) leave it as it was |
| `Monitor.LastSnapshotSaved` | scripts/monitor.py:80-95 | the insights file is what the last cycle that wrote it left: that cycle's snapshot, or nothing readable when its dump failed |
| `Monitor.EmptyOrdersWriteNothing` | scripts/monitor.py:30-31 | when every read finds no orders, every cycle saves nothing and the insights file is unchanged |
| `Monitor.CocktailMonitor.constructor` | scripts/monitor.py:14-17 | the monitor starts with its two file names and the start time |
| `Monitor.CocktailMonitor.RunOnce` | scripts/monitor.py:80-95 | one cycle's outcome; the insights file holds the new snapshot when one was saved, nothing readable when the dump failed, and is unchanged otherwise |
| `Monitor.CocktailMonitor.Run` | scripts/monitor.py:85-116 | the loop stops exactly when an interrupt comes; its pauses and the final insights file are those of the cycles before the interrupt |
| `Analyze.Summarize` | scripts/analyze.py:35-81 | the report counts every order, shows at most 5 drinks and 5 tables, names as peak an hour some order was placed in, and gives the advice of `Advise` |
| `Analyze.GenerateReport` | scripts/analyze.py:21-85 | no report exactly for an empty list; an error exactly when some timestamp has no hour |
| `Analyze.StatusHistogram` | scripts/analyze.py:38-41 | the status histogram lists every status present once and no other, with exact counts adding up to the total, largest first |
| `Analyze.TopDrinks` | scripts/analyze.py:44-46 | at most 5 distinct drinks with exact counts, descending; a drink left out has no more orders than the last listed |
| `Analyze.TopTables` | scripts/analyze.py:51-55 | at most 5 distinct non-empty tables, each the table of some order, with exact counts, descending; a non-empty table left out has no more orders than the last listed |
| `Analyze.TablesShown` | scripts/analyze.py:51-52 | the table section is printed exactly when some order has a truthy table |
| `Analyze.PeakHour` | scripts/analyze.py:59-63 | the peak hour is below 24, is shown with its order count, and no hour has more orders |
| `Analyze.HourDistribution` | scripts/analyze.py:65-69 | the distribution lists hours in ascending order, each with the number of orders in it |
| `Analyze.HourDistributionComplete` | scripts/analyze.py:67-69 | every order's hour is listed, and the counts add up to the total |
| `Analyze.HoursFrom` | scripts/analyze.py:67-69 | the distribution from hour h lists only hours from h to 23 |
| `Analyze.HoursFromTotal` | scripts/analyze.py:67-69 | the per-hour counts of valid hours add up to the number of hours |
| `Analyze.Advise` | scripts/analyze.py:71-81 | the advice names a drink ordered at least as often as any other, warns of a backlog exactly when more than 5 orders are pending, and notes high volume exactly when there are more than 50 orders |
| `Analyze.RecommendationsShape` | scripts/analyze.py:74-81 | the advice starts with exactly one stock tip |
| `Analyze.NatToString` | scripts/analyze.py:103 | an id prints as a non-empty string of digits, with no leading zero unless it is 0 |
| `Analyze.ParseNatToString` | scripts/analyze.py:103 | a printed id reads back as the same number |
| `Analyze.Fields` | scripts/analyze.py:103-104 | an order's CSV line has six values |
| `Analyze.Row` | scripts/analyze.py:103-104 | an order's CSV line has five separating commas plus those inside its values |
| `Analyze.ExportCsv` | scripts/analyze.py:87-104 | nothing to export exactly for an empty list; otherwise the header, then one row per order, in order |
| `Analyze.SplitLength` | scripts/analyze.py:103-104 | splitting a line on a separator yields one more part than it has separators |
| `Analyze.SplitJoin` | scripts/analyze.py:103-104 | fields that do not contain the separator split back out of their joined line |
| `Analyze.RowRoundTrip` | scripts/analyze.py:103-104 | a joined line splits back into its fields exactly when no field contains the separator |
| `Analyze.RowColumnCount` | scripts/analyze.py:99-104 | an order's row has the header's six columns exactly when none of its values contains a comma |
| `Analyze.RowValues` | scripts/analyze.py:103-104 | a comma-free row splits into six columns: digits that read back as the id, the drink and the table (an absent one printed as "None"), the timestamp, a status name that parses back to the status, and the event |
| `Analyze.HeaderColumns` | scripts/analyze.py:99 | the header line splits into the six column names |

## Left out

- HTTP, Flask, CORS and JSON encoding are not modelled. Handlers take a parsed body and return a `Reply`, one constructor per status code.
- The `/status` endpoint (backend/server_api.py:68-75) is not modelled: it only reports the clock and constant text.
- The lock and the file writes are not modelled. The store is one object with no concurrent requests, and a failing file write in the server is not modelled.
- In the server, a missing orders file reads as an empty list. The initial orders given to the constructor play that role.
- The clock is a parameter (`Clock`), and `time.sleep` is a returned list of pauses. Elapsed time is not modelled.
- Messages are not modelled: console prints, recommendation text, percentages, the bars of the hour distribution, and the export file's name.
- Orders.HourOf: accepts more than `datetime.fromisoformat`. It checks neither that the month and day are in range nor the text after the two hour digits, so some timestamps Python rejects get an hour. It also reads only the `YYYY-MM-DD` and `YYYY-MM-DD?HH...` layouts (`?` is any one character), so some other ISO forms Python accepts, such as `YYYYMMDD`, get no hour.
- JSON values of other types are not modelled: a request field is either a string or absent (`None`). An explicit `null` for `timestamp` or `evento`, and non-string values, are not modelled.
- The defaults `'Desconhecido'`, `'N/A'` in `p.get('status', 'N/A')`, and `''` in the CSV export are not modelled: every stored record carries every key, so those defaults never apply, and a missing value prints as "None".
- The statistics' `mesas_ativas` is `list(set(...))`, whose order is arbitrary. It is modelled as a set.
- The server does not check the drink name (backend/server_api.py:84-92), and a wrong reset confirmation gets 400 (backend/server_api.py:163). Two orders can get the same id, because the id is the millisecond clock (backend/server_api.py:85), even though the comment at line 83 calls it unique.
- Monitor.CocktailMonitor.Run: an interrupt is modelled only between cycles. An exception raised mid-cycle is a failed cycle as a whole.
- The console lines the report prints before a bad timestamp raises are not modelled. The model returns only the error.
- Analyze.RowValues: does not cover values that contain a newline, which would split a CSV row across lines.
- The QR code generator and the web dashboard server are not part of this model.
