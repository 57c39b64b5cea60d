/**
  The change-detection engine of the Shein stock monitor, on values.

  The `stock_history` table is an append-only sequence of rows; a sampling
  cycle compares the extracted count with the most recent row's count, appends
  one row and decides whether the change is worth an alert. The functions here
  are the specification the `SheinStockMonitor` class is proved against, and
  the lemmas state what a whole run of cycles does to the table.
 */
module StockEngine {

  /** One row of `stock_history`; its `id` and `timestamp` columns are kept only
      as the row's position in the sequence. */
  datatype Row = Row(totalStock: int, stockChange: int, notified: bool)

  /** The two alert thresholds of the configuration. */
  datatype Config = Config(minStockThreshold: int, minIncreaseThreshold: int)

  /** The thresholds as the monitor ships them. */
  const DefaultConfig := Config(10, 50)

  /** A message handed to the messaging channel. */
  datatype Message =
    | StockAlert(current: int, previous: int, change: int)
    | Startup(current: int)

  /** One send attempt: the message, whether the channel accepted it, and how
      many rows the table held when it was sent. */
  datatype Outgoing = Outgoing(msg: Message, delivered: bool, rowsAtSend: nat)

  /** What one iteration of the monitoring loop sees from the outside world:
      the extractor's count (0 for "not found") and whether an alert sent in
      that iteration would be delivered. */
  datatype Sample = Sample(count: int, delivered: bool)

  /** The count a new sample is compared with: the most recent row's total,
      or 0 when the table is empty. */
  function PreviousStock(h: seq<Row>): int
  {
    if h == [] then 0 else h[|h| - 1].totalStock
  }

  /** The alert predicate; both comparisons are inclusive. */
  predicate AlertWorthy(cfg: Config, change: int, current: int)
  {
    change >= cfg.minIncreaseThreshold && current >= cfg.minStockThreshold
  }

  /** The row a successful sample of `current` appends to `h`. The `notified`
      column is never written, so it keeps its default FALSE. */
  function Observe(h: seq<Row>, current: int): Row
  {
    Row(current, current - PreviousStock(h), false)
  }

  /** The table after one cycle with monitoring on: a count of 0 changes
      nothing, any other count appends exactly one row. */
  function Cycle(h: seq<Row>, current: int): seq<Row>
  {
    if current == 0 then h else h + [Observe(h, current)]
  }

  /** The table after a run of cycles over the samples `ss`, in order. */
  function Run(h: seq<Row>, ss: seq<Sample>): (r: seq<Row>)
    ensures |h| <= |r| && r[..|h|] == h
    decreases |ss|
  {
    if ss == [] then h else Cycle(Run(h, ss[..|ss| - 1]), ss[|ss| - 1].count)
  }

  /** The messages one cycle with monitoring on sends, given the table before it. */
  function CycleSends(cfg: Config, h: seq<Row>, s: Sample): seq<Outgoing>
  {
    if s.count == 0 then []
    else
      var previous := PreviousStock(h);
      var change := s.count - previous;
      if AlertWorthy(cfg, change, s.count)
      then [Outgoing(StockAlert(s.count, previous, change), s.delivered, |h| + 1)]
      else []
  }

  /** The messages a run of cycles sends, in order. */
  function RunSends(cfg: Config, h: seq<Row>, ss: seq<Sample>): seq<Outgoing>
    decreases |ss|
  {
    if ss == [] then []
    else
      var init := ss[..|ss| - 1];
      RunSends(cfg, h, init) + CycleSends(cfg, Run(h, init), ss[|ss| - 1])
  }

  /** Extending a run by one sample extends it by one cycle. */
  lemma RunStep(cfg: Config, h: seq<Row>, ss: seq<Sample>, i: nat)
    requires i < |ss|
    ensures Run(h, ss[..i + 1]) == Cycle(Run(h, ss[..i]), ss[i].count)
    ensures RunSends(cfg, h, ss[..i + 1]) == RunSends(cfg, h, ss[..i]) + CycleSends(cfg, Run(h, ss[..i]), ss[i])
  {
    assert ss[..i + 1][..i] == ss[..i];
  }

  /** The totals column of a table. */
  function Totals(h: seq<Row>): (ts: seq<int>)
    ensures |ts| == |h|
  {
    if h == [] then [] else Totals(h[..|h| - 1]) + [h[|h| - 1].totalStock]
  }

  /** The counts of a run that were found (were not 0). */
  function Found(ss: seq<Sample>): seq<int>
  {
    if ss == [] then []
    else Found(ss[..|ss| - 1]) + (if ss[|ss| - 1].count == 0 then [] else [ss[|ss| - 1].count])
  }

  /** The sum of the change column. */
  function SumChanges(h: seq<Row>): int
  {
    if h == [] then 0 else SumChanges(h[..|h| - 1]) + h[|h| - 1].stockChange
  }

  /** The history invariant: each row's change is its total minus the previous
      row's total, with 0 before the first row. */
  ghost predicate ChangesConsistent(h: seq<Row>)
  {
    forall i :: 0 <= i < |h| ==> ChangeAt(h, i)
  }

  /** Row `i`'s change is its total minus the total of row `i - 1` (0 for the first row). */
  ghost predicate ChangeAt(h: seq<Row>, i: nat)
    requires i < |h|
  {
    h[i].stockChange == h[i].totalStock - (if i == 0 then 0 else h[i - 1].totalStock)
  }

  /** The history invariant of a table carries over to its prefix without the last row. */
  lemma ChangesConsistentInit(h: seq<Row>)
    requires h != [] && ChangesConsistent(h)
    ensures ChangesConsistent(h[..|h| - 1])
  {
    var init := h[..|h| - 1];
    forall i | 0 <= i < |init| ensures ChangeAt(init, i) {
      assert ChangeAt(h, i);
      assert init[i] == h[i];
      if i > 0 { assert init[i - 1] == h[i - 1]; }
    }
  }

  /** No row was ever marked as notified. */
  ghost predicate NoneNotified(h: seq<Row>)
  {
    forall i :: 0 <= i < |h| ==> !h[i].notified
  }

  /** A change exactly at the increase threshold alerts, one less does not. */
  lemma AlertThresholdsInclusive(cfg: Config, current: int)
    ensures current >= cfg.minStockThreshold ==>
      AlertWorthy(cfg, cfg.minIncreaseThreshold, current)
      && !AlertWorthy(cfg, cfg.minIncreaseThreshold - 1, current)
    ensures current == cfg.minStockThreshold - 1 ==>
      forall change :: !AlertWorthy(cfg, change, current)
  {
  }

  /** One cycle keeps the history invariant and the earlier rows. */
  lemma CyclePreservesChanges(h: seq<Row>, current: int)
    requires ChangesConsistent(h) && NoneNotified(h)
    ensures ChangesConsistent(Cycle(h, current)) && NoneNotified(Cycle(h, current))
  {
    var r := Cycle(h, current);
    if current != 0 {
      forall i | 0 <= i < |r| ensures ChangeAt(r, i) {
        if i < |h| {
          assert ChangeAt(h, i);
          assert r[i] == h[i];
          if i > 0 { assert r[i - 1] == h[i - 1]; }
        } else if i > 0 {
          assert r[i - 1] == h[|h| - 1];
        }
      }
      assert forall i :: 0 <= i < |r| ==> !r[i].notified by {
        forall i | 0 <= i < |r| ensures !r[i].notified {
          if i < |h| { assert r[i] == h[i]; }
        }
      }
    }
  }

  /** Any run of cycles keeps the history invariant. */
  lemma {:induction false} RunPreservesChanges(h: seq<Row>, ss: seq<Sample>)
    requires ChangesConsistent(h) && NoneNotified(h)
    ensures ChangesConsistent(Run(h, ss)) && NoneNotified(Run(h, ss))
    decreases |ss|
  {
    if ss != [] {
      RunPreservesChanges(h, ss[..|ss| - 1]);
      CyclePreservesChanges(Run(h, ss[..|ss| - 1]), ss[|ss| - 1].count);
    }
  }

  /** A run appends one row per found count, carrying that count, in order. */
  lemma {:induction false} RunTotals(h: seq<Row>, ss: seq<Sample>)
    ensures Totals(Run(h, ss)) == Totals(h) + Found(ss)
    decreases |ss|
  {
    if ss != [] {
      var init, c := ss[..|ss| - 1], ss[|ss| - 1].count;
      var r := Run(h, init);
      RunTotals(h, init);
      if c != 0 {
        var r' := r + [Observe(r, c)];
        assert r'[..|r'| - 1] == r;
      }
    }
  }

  /** From an empty table, a run of counts c0, c1, ... records exactly the
      found counts, each row's change being its count minus the previous
      found count (0 before the first), and no row marked as notified. */
  lemma RunFromEmpty(ss: seq<Sample>)
    ensures Totals(Run([], ss)) == Found(ss)
    ensures ChangesConsistent(Run([], ss)) && NoneNotified(Run([], ss))
  {
    RunTotals([], ss);
    RunPreservesChanges([], ss);
  }

  /** The changes of a consistent table add up to its latest total. */
  lemma {:induction false} ChangesTelescope(h: seq<Row>)
    requires ChangesConsistent(h)
    ensures SumChanges(h) == PreviousStock(h)
    decreases |h|
  {
    if h != [] {
      var init := h[..|h| - 1];
      ChangesConsistentInit(h);
      ChangesTelescope(init);
      assert ChangeAt(h, |h| - 1);
      if |init| > 0 { assert init[|init| - 1] == h[|h| - 2]; }
    }
  }

  /** A consistent, never-notified table without zero totals is exactly what
      a run from the empty table over samples of its own totals produces,
      whatever the delivery outcomes: the totals column determines the table. */
  lemma {:induction false} HistoryDeterminedByTotals(h: seq<Row>, ss: seq<Sample>)
    requires ChangesConsistent(h) && NoneNotified(h)
    requires forall i :: 0 <= i < |h| ==> h[i].totalStock != 0
    requires |ss| == |h| && forall i :: 0 <= i < |h| ==> ss[i].count == h[i].totalStock
    ensures Run([], ss) == h
    decreases |h|
  {
    if h != [] {
      var init, last := h[..|h| - 1], h[|h| - 1];
      ChangesConsistentInit(h);
      assert NoneNotified(init) by {
        forall i | 0 <= i < |init| ensures !init[i].notified { assert init[i] == h[i]; }
      }
      assert forall i :: 0 <= i < |init| ==> init[i].totalStock != 0 by {
        forall i | 0 <= i < |init| ensures init[i].totalStock != 0 { assert init[i] == h[i]; }
      }
      HistoryDeterminedByTotals(init, ss[..|ss| - 1]);
      assert ChangeAt(h, |h| - 1);
      if |init| > 0 { assert init[|init| - 1] == h[|h| - 2]; }
      assert Observe(init, last.totalStock) == last;
      assert init + [last] == h;
    }
  }

  /** Earlier runs are prefixes of later ones: the table is append-only. */
  lemma {:induction false} RunPrefix(h: seq<Row>, ss: seq<Sample>, j: nat)
    requires j <= |ss|
    ensures |Run(h, ss[..j])| <= |Run(h, ss)|
    ensures Run(h, ss)[..|Run(h, ss[..j])|] == Run(h, ss[..j])
    decreases |ss|
  {
    if j < |ss| {
      var init := ss[..|ss| - 1];
      assert ss[..j] == init[..j];
      RunPrefix(h, init, j);
      var a, b := Run(h, init[..j]), Run(h, init);
      var c := Run(h, ss);
      assert c == Cycle(b, ss[|ss| - 1].count);
      assert c[..|b|] == b;
      assert c[..|a|] == b[..|a|];
    } else {
      assert ss[..j] == ss;
    }
  }

  /** Every message a run sends is an alert for a row it has already written:
      the row at position `rowsAtSend - 1` holds the alert's count and change,
      the alert's previous count is the total of the row before it, and the
      change crosses both thresholds. */
  lemma {:induction false} RunSendsAnnounceRows(cfg: Config, h: seq<Row>, ss: seq<Sample>)
    ensures forall k :: 0 <= k < |RunSends(cfg, h, ss)| ==>
      var o := RunSends(cfg, h, ss)[k];
      var r := Run(h, ss);
      && o.msg.StockAlert?
      && |h| < o.rowsAtSend <= |r|
      && r[o.rowsAtSend - 1] == Row(o.msg.current, o.msg.change, false)
      && o.msg.previous == PreviousStock(r[..o.rowsAtSend - 1])
      && o.msg.change == o.msg.current - o.msg.previous
      && AlertWorthy(cfg, o.msg.change, o.msg.current)
    decreases |ss|
  {
    if ss != [] {
      var init, s := ss[..|ss| - 1], ss[|ss| - 1];
      var a := Run(h, init);
      var r := Run(h, ss);
      var old_sends := RunSends(cfg, h, init);
      var sends := RunSends(cfg, h, ss);
      RunSendsAnnounceRows(cfg, h, init);
      assert r == Cycle(a, s.count);
      assert r[..|a|] == a;
      forall k | 0 <= k < |sends|
        ensures var o := sends[k];
          && o.msg.StockAlert?
          && |h| < o.rowsAtSend <= |r|
          && r[o.rowsAtSend - 1] == Row(o.msg.current, o.msg.change, false)
          && o.msg.previous == PreviousStock(r[..o.rowsAtSend - 1])
          && o.msg.change == o.msg.current - o.msg.previous
          && AlertWorthy(cfg, o.msg.change, o.msg.current)
      {
        var o := sends[k];
        if k < |old_sends| {
          assert o == old_sends[k];
          assert r[o.rowsAtSend - 1] == a[o.rowsAtSend - 1];
          assert r[..o.rowsAtSend - 1] == a[..o.rowsAtSend - 1];
        } else {
          assert r == a + [Observe(a, s.count)];
          assert r[..|a|] == a;
        }
      }
    }
  }
}
