/**
  Client runs of the monitor with its shipped thresholds (minimum stock 10,
  minimum increase 50): what callers can conclude from the contracts alone.
 */
module Scenarios {
  import opened StockEngine
  import opened Monitor

  /** Calling `start` twice launches the loop once; the second call sends nothing. */
  method StartTwiceLaunchesOneLoop(stored: seq<Row>, count1: int, count2: int, delivered: bool)
    returns (loops: nat, thread: Option<nat>, sent: seq<Outgoing>)
    ensures loops == 1 && thread == Some(0)
    ensures sent == [Outgoing(Startup(count1), delivered, |stored|)]
  {
    var m := new SheinStockMonitor(DefaultConfig, stored);
    m.Start(count1, delivered);
    m.Start(count2, delivered);
    loops, thread, sent := m.loopsLaunched, m.monitorThread, m.outbox;
  }

  /** Before `start`, a cycle writes and sends nothing whatever it extracts. */
  method CycleBeforeStartIsNoOp(stored: seq<Row>, current: int, delivered: bool)
    returns (rows: seq<Row>, sent: seq<Outgoing>)
    ensures rows == stored && sent == []
  {
    var m := new SheinStockMonitor(DefaultConfig, stored);
    m.CheckStock(current, delivered);
    rows, sent := m.history, m.outbox;
  }

  /** From a last recorded count of 100: 160 alerts with change +60, 130 does
      not alert but is still recorded, 0 is skipped, and a failed send keeps
      the row it announces. */
  method IncreaseAfterHundred(earlier: seq<Row>, delivered: bool)
    returns (rows: seq<Row>, alerts: seq<Outgoing>)
    ensures rows == earlier + [Row(100, 100, false)] + [Row(160, 60, false)]
      + [Row(130, -30, false)] + [Row(180, 50, false)] + [Row(229, 49, false)]
    ensures alerts == [
      Outgoing(StockAlert(160, 100, 60), delivered, |earlier| + 2),
      Outgoing(StockAlert(180, 130, 50), false, |earlier| + 4)]
  {
    var m := new SheinStockMonitor(DefaultConfig, earlier + [Row(100, 100, false)]);
    m.Start(100, true);
    var started := m.outbox;
    m.CheckStock(160, delivered);
    m.CheckStock(0, true);
    m.CheckStock(130, true);
    // a change exactly at the threshold alerts, even when the send fails
    m.CheckStock(180, false);
    // one less than the threshold does not
    m.CheckStock(229, true);
    rows := m.history;
    alerts := m.outbox[|started|..];
  }
}
