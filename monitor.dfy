/**
  The `SheinStockMonitor` object: the monitoring flag, the handle of the
  background loop, the `stock_history` table and the messages handed to the
  messaging channel.

  The extractor and the channel are outside the model: each call that would
  reach them takes their answer as a parameter (`current` for the extracted
  count, `delivered` for whether the channel accepted a message).
 */
module Monitor {
  import opened StockEngine

  datatype Option<T> = None | Some(value: T)

  class SheinStockMonitor {
    const config: Config
    var monitoring: bool
    /** The background loop, by the ordinal of its launch; `None` until started. */
    var monitorThread: Option<nat>
    /** How many background loops were ever launched. */
    var loopsLaunched: nat
    /** The rows of `stock_history`, oldest first. */
    var history: seq<Row>
    /** Every message handed to the channel, oldest first. */
    var outbox: seq<Outgoing>

    /** At most one loop is ever launched, and one is exactly when monitoring is on. */
    ghost predicate Valid()
      reads this
    {
      && loopsLaunched <= 1
      && (monitoring <==> loopsLaunched == 1)
      && monitorThread == (if monitoring then Some(0) else None)
    }

    /** A new monitor over a table that may already hold `stored` rows from an
        earlier process (the table is created only if it does not exist). */
    constructor (config: Config, stored: seq<Row>)
      ensures Valid()
      ensures this.config == config && history == stored
      ensures !monitoring && monitorThread == None && loopsLaunched == 0 && outbox == []
    {
      this.config := config;
      monitoring := false;
      monitorThread := None;
      loopsLaunched := 0;
      history := stored;
      outbox := [];
    }

    /** The most recent row's total, or 0 when the table is empty; on a
        consistent table, also the sum of all recorded changes. */
    method GetPreviousStock() returns (previous: int)
      ensures previous == PreviousStock(history)
      ensures ChangesConsistent(history) ==> previous == SumChanges(history)
    {
      if |history| == 0 {
        previous := 0;
      } else {
        previous := history[|history| - 1].totalStock;
      }
      if ChangesConsistent(history) {
        ChangesTelescope(history);
      }
    }

    /** Inserts one row; its `notified` column keeps its default FALSE. */
    method SaveCurrentStock(current: int, change: int)
      modifies this
      ensures history == old(history) + [Row(current, change, false)]
      ensures monitoring == old(monitoring) && monitorThread == old(monitorThread)
      ensures loopsLaunched == old(loopsLaunched) && outbox == old(outbox)
    {
      history := history + [Row(current, change, false)];
    }

    /** Hands `msg` to the channel; the result says whether it was accepted. */
    method SendTelegramMessage(msg: Message, delivered: bool) returns (ok: bool)
      modifies this
      ensures ok == delivered
      ensures outbox == old(outbox) + [Outgoing(msg, delivered, |history|)]
      ensures history == old(history) && monitoring == old(monitoring)
      ensures monitorThread == old(monitorThread) && loopsLaunched == old(loopsLaunched)
    {
      outbox := outbox + [Outgoing(msg, delivered, |history|)];
      ok := delivered;
    }

    /** One sampling cycle, given the extractor's count and the channel's answer. */
    method CheckStock(current: int, delivered: bool)
      modifies this
      ensures monitoring == old(monitoring) && monitorThread == old(monitorThread)
      ensures loopsLaunched == old(loopsLaunched)
      // with monitoring off, or nothing found, nothing is written or sent
      ensures !old(monitoring) || current == 0 ==>
        history == old(history) && outbox == old(outbox)
      // otherwise exactly one row is appended, alert or not, even if the send fails
      ensures old(monitoring) && current != 0 ==>
        history == old(history) + [Row(current, current - PreviousStock(old(history)), false)]
      // an alert is sent iff both thresholds are reached, after the row is written
      ensures old(monitoring) && current != 0 ==>
        var previous := PreviousStock(old(history));
        AlertWorthy(config, current - previous, current) ==>
          outbox == old(outbox) + [Outgoing(StockAlert(current, previous, current - previous), delivered, |history|)]
      ensures old(monitoring) && current != 0 ==>
        !AlertWorthy(config, current - PreviousStock(old(history)), current) ==> outbox == old(outbox)
      ensures old(monitoring) ==>
        history == Cycle(old(history), current)
        && outbox == old(outbox) + CycleSends(config, old(history), Sample(current, delivered))
    {
      if !monitoring {
        return;
      }
      if current == 0 {
        return;
      }
      var previous := GetPreviousStock();
      var change := current - previous;
      if change >= config.minIncreaseThreshold && current >= config.minStockThreshold {
        SaveCurrentStock(current, change);
        var message := StockAlert(current, previous, change);
        var _ := SendTelegramMessage(message, delivered);
      } else {
        SaveCurrentStock(current, change);
      }
    }

    /** Launches the background loop and records its handle. */
    method StartMonitoringLoop()
      modifies this
      ensures monitorThread == Some(old(loopsLaunched)) && loopsLaunched == old(loopsLaunched) + 1
      ensures monitoring == old(monitoring) && history == old(history) && outbox == old(outbox)
    {
      monitorThread := Some(loopsLaunched);
      loopsLaunched := loopsLaunched + 1;
    }

    /** Sends the startup message with the count the extractor returned at start. */
    method SendStartupMessage(current: int, delivered: bool)
      modifies this
      ensures outbox == old(outbox) + [Outgoing(Startup(current), delivered, |history|)]
      ensures history == old(history) && monitoring == old(monitoring)
      ensures monitorThread == old(monitorThread) && loopsLaunched == old(loopsLaunched)
    {
      var _ := SendTelegramMessage(Startup(current), delivered);
    }

    /** Turns monitoring on and launches the loop, unless it is already on. */
    method Start(startupCount: int, delivered: bool)
      requires Valid()
      modifies this
      ensures Valid()
      ensures old(monitoring) ==>
        && monitoring && monitorThread == old(monitorThread) && loopsLaunched == old(loopsLaunched)
        && history == old(history) && outbox == old(outbox)
      ensures !old(monitoring) ==>
        && monitoring && loopsLaunched == old(loopsLaunched) + 1
        && monitorThread == Some(old(loopsLaunched))
        && history == old(history)
        && outbox == old(outbox) + [Outgoing(Startup(startupCount), delivered, |history|)]
    {
      if monitoring {
        return;
      }
      monitoring := true;
      StartMonitoringLoop();
      SendStartupMessage(startupCount, delivered);
    }

    /** The body of the background loop over a finite prefix of its iterations:
        while monitoring is on, one cycle per sample (the sleep between cycles
        is not modelled). */
    method MonitorLoop(samples: seq<Sample>)
      modifies this
      ensures monitoring == old(monitoring) && monitorThread == old(monitorThread)
      ensures loopsLaunched == old(loopsLaunched)
      ensures !old(monitoring) ==> history == old(history) && outbox == old(outbox)
      ensures old(monitoring) ==>
        && history == Run(old(history), samples)
        && outbox == old(outbox) + RunSends(config, old(history), samples)
    {
      ghost var rows0, sent0 := history, outbox;
      var i := 0;
      while monitoring && i < |samples|
        invariant 0 <= i <= |samples|
        invariant monitoring == old(monitoring) && monitorThread == old(monitorThread)
        invariant loopsLaunched == old(loopsLaunched)
        invariant !monitoring ==> i == 0
        invariant history == Run(rows0, samples[..i])
        invariant outbox == sent0 + RunSends(config, rows0, samples[..i])
        decreases |samples| - i
      {
        CheckStock(samples[i].count, samples[i].delivered);
        RunStep(config, rows0, samples, i);
        i := i + 1;
      }
      if monitoring {
        assert samples[..i] == samples;
      } else {
        assert samples[..i] == [];
        assert outbox == sent0 + [];
      }
    }
  }
}
