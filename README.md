# Shein stock monitor: change-detection engine

This project models the sampling core of `SheinStockMonitor` (`bot_controller.py`).
The monitor watches one catalogue page. At each interval its background loop runs one
cycle (`check_stock`):

- the cycle does nothing unless the `monitoring` flag is on;
- it extracts a stock count, where 0 means "not found" and skips the cycle;
- it reads the last recorded count, or 0 when the `stock_history` table is empty;
- it appends exactly one row `(total_stock, stock_change)`;
- it sends a Telegram alert only when the change reaches `min_increase_threshold` and the
  count reaches `min_stock_threshold`, both inclusively.

`start` sets the flag and launches the loop unless the flag is already on.

The model has three modules:

- `StockEngine` (`history.dfy`) holds the table rows, the thresholds and the alert predicate.
  It also has the specification functions `Cycle`, `Run` (a run of cycles over successive
  extracted counts) and `RunSends` (the alerts of such a run). Its lemmas state what runs
  do to the table. The main one is the history invariant: every row's change is its total
  minus the previous row's total, with 0 before the first row.
- `Monitor` (`monitor.dfy`) is the class `SheinStockMonitor`. Its fields are the monitoring
  flag, the loop handle `monitorThread`, the number of loops launched, the table as a
  `seq<Row>`, and an `outbox` of every message handed to Telegram. Each entry of the outbox
  records whether the message was delivered and how many rows the table held when it was
  sent. Its methods mirror the Python methods. `CheckStock` is proved against `Cycle` and
  `CycleSends`, and `MonitorLoop` against `Run` and `RunSends`. Its invariant
  `Valid()` says at most one loop is ever launched, and that one is launched exactly when
  monitoring is on.
- `Scenarios` (`scenarios.dfy`) holds client runs with the shipped thresholds (10 and 50).
  Each one's result is fixed by the class contracts alone.

The outside world becomes parameters. A method that would call the extractor takes its
count (`current`, `startupCount`, `Sample.count`). A method that would send a message takes
the channel's answer (`delivered`).

Notes on the code's behaviour:

- The code never writes the `notified` column: every row keeps its default FALSE, even on
  the alert branch (`bot_controller.py:41`, `103-104`).
- A cycle is skipped only when the count is exactly 0 (`bot_controller.py:124`). The
  model's count is an `int`, so a negative count is recorded like any other.
- The code has no `stop` method and no forced-check mode.

## Model

| member | source | states |
|---|---|---|
| `StockEngine.AlertThresholdsInclusive` | bot_controller.py:132-133 | Both threshold comparisons are inclusive. A change equal to `min_increase_threshold` alerts, and one less does not. A count one below `min_stock_threshold` never alerts. |
| `StockEngine.Run` | bot_controller.py:161-162 | A run of cycles only appends: the table before the run is a prefix of the table after it. |
| `StockEngine.CyclePreservesChanges` | bot_controller.py:123-155 | One cycle keeps the history invariant (each change is its total minus the previous total, 0 before the first row). It also keeps every row un-notified. |
| `StockEngine.RunPreservesChanges` | bot_controller.py:161-163 | Any run of cycles from a table that satisfies the history invariant keeps it. |
| `StockEngine.RunTotals` | bot_controller.py:123-128 | A run appends one row per non-zero extracted count, in order, and each row carries its count. Zero counts leave no row. |
| `StockEngine.RunFromEmpty` | bot_controller.py:93-105 | From an empty table, the totals column of a run is exactly its non-zero counts. The change column is their successive differences, starting from 0. No row is notified. |
| `StockEngine.ChangesTelescope` | bot_controller.py:96-104 | In a consistent table, the changes add up to the latest total, which is the count the next cycle compares with. |
| `StockEngine.HistoryDeterminedByTotals` | bot_controller.py:100-105 | Any consistent, never-notified table without zero totals is exactly the table a run from empty over its own totals produces. So the totals determine the changes. |
| `StockEngine.RunPrefix` | bot_controller.py:100-105 | The table after any earlier part of a run is a prefix of the table after the whole run. |
| `StockEngine.RunSendsAnnounceRows` | bot_controller.py:132-152 | Every message a run sends is an alert whose row was already written. That row holds the alert's count and change. The alert's previous count is the total of the row before it. Its change is current minus previous and crosses both thresholds. |
| `Monitor.SheinStockMonitor.constructor` | bot_controller.py:24-45 | Monitoring is off, no loop is running, and the table is whatever is already stored. |
| `Monitor.SheinStockMonitor.GetPreviousStock` | bot_controller.py:93-98 | Returns `PreviousStock` of the table: the most recent row's total, or 0 when the table is empty. On a table that keeps the history invariant, this equals the sum of all recorded changes. |
| `Monitor.SheinStockMonitor.SaveCurrentStock` | bot_controller.py:100-105 | Appends exactly one row `(current, change)` with `notified` FALSE. Earlier rows and all other state are unchanged. |
| `Monitor.SheinStockMonitor.SendTelegramMessage` | bot_controller.py:107-116 | Records the send attempt and returns True exactly when the channel accepted the message. The table is untouched. |
| `Monitor.SheinStockMonitor.CheckStock` | bot_controller.py:118-155 | With monitoring off, or a count of 0, nothing is written or sent. Otherwise exactly one row `(current, current - previous)` is appended on both branches. An alert `(current, previous, change)` is sent if and only if both thresholds are reached. It is sent after the row is written, and the row stays even if the send fails. |
| `Monitor.SheinStockMonitor.StartMonitoringLoop` | bot_controller.py:157-168 | Launches one new loop and stores its handle in `monitorThread`. |
| `Monitor.SheinStockMonitor.SendStartupMessage` | bot_controller.py:184-199 | Sends one startup message carrying the count extracted at start. It writes no row. |
| `Monitor.SheinStockMonitor.Start` | bot_controller.py:170-182 | When monitoring is already on, nothing changes and no loop is launched. Otherwise monitoring goes on, exactly one loop is launched and the startup message is sent. `Valid()` (at most one loop ever) is preserved. |
| `Monitor.SheinStockMonitor.MonitorLoop` | bot_controller.py:159-164 | While monitoring is on, each iteration is one cycle. The table afterwards is `Run` over the extracted counts, and the messages are `RunSends`. With monitoring off, the loop does nothing. |
| `Scenarios.StartTwiceLaunchesOneLoop` | bot_controller.py:170-177 | Two `start` calls on a new monitor launch exactly one loop and send one startup message. |
| `Scenarios.CycleBeforeStartIsNoOp` | bot_controller.py:118-121 | A cycle before `start` leaves the table and the outbox unchanged, whatever the extractor returns. |
| `Scenarios.IncreaseAfterHundred` | bot_controller.py:118-155 | With thresholds 10 and 50 and a last count of 100: count 160 alerts with change +60, and count 0 is skipped. Count 130 is recorded with change -30 and no alert. Count 180 (change exactly 50) alerts, and its failed send keeps the row. Count 229 (change 49) does not alert. |

## Left out

- `get_shein_stock_count` (`bot_controller.py:47-91`) is left out: HTTP requests, HTML and JSON parsing, and regular expressions. Its result is a parameter, with 0 for "not found or error".
- The SQLite connection and schema (`bot_controller.py:31-45`) are left out. The table is an in-memory sequence. The `id` and `timestamp` columns are left out, and "most recent by timestamp" is the last appended row. SQLite's choice among rows with the same `timestamp` is unspecified; the model takes the last appended row.
- Telegram sending and message text (`bot_controller.py:107-116`, `138-150`, `188-196`) are left out. A message is only its numbers, and the channel's answer is a parameter.
- Threads, `time.sleep` and concurrency are left out. `MonitorLoop` runs a finite list of iterations in sequence. It does not model interleaving with `start` or with the startup message's own extractor call.
- `main` and its keep-alive loop (`bot_controller.py:201-228`) are left out. Its KeyboardInterrupt handler clears `monitoring` just before the process exits. That is the only place the flag is cleared, so stopping and restarting is not modelled.
- `SaveCurrentStock`: the Python default `change=0` is not modelled. Every caller passes the change.
- Integer widths are left out: Python integers are unbounded, and SQLite's 64-bit limit is not modelled.
- Console prints and `datetime.now()` are left out because they do not affect behaviour.
