/**
 * The background monitor: `analyze_patterns` turns the order list into an
 * insights snapshot, and `run` repeats it forever, pausing 30 time units
 * after a good cycle and 5 after a failed one, until interrupted.
 */
module Monitor {
  import opened Wrappers
  import opened Counting
  import opened Orders

  /** A recommendation; the message text around the named value is not modelled. */
  datatype Tip =
    | PopularDrink(drink: Option<string>)  // "... é o mais popular - prepare mais!"
    | PeakHour(hour: nat)                  // "Horário de pico: HH:00 ..."
    | PendingBacklog(pending: nat)         // "N pedidos pendentes ..."

  /** The insights snapshot (`insights.json`); the rankings are insertion-ordered dicts. */
  datatype Insights = Insights(
    timestamp: string,
    totalOrders: nat,
    drinksRanking: seq<(Option<string>, nat)>,
    peakHours: seq<(nat, nat)>,
    avgPrepTime: Option<nat>,               // reserved: always None
    busiestTables: seq<(string, nat)>,
    recommendations: seq<Tip>)

  /**
   * The snapshot of a non-empty order list whose timestamps all have an
   * hour: stamped with `now`, counting every order, with at most 5 drinks,
   * 3 hours and 5 tables, no preparation time and two or three tips.
   */
  function Snapshot(orders: seq<Order>, now: string): (ins: Insights)
    requires orders != [] && HoursOf(orders).Some?
    ensures ins.timestamp == now && ins.totalOrders == |orders| && ins.avgPrepTime == None
    ensures |ins.drinksRanking| <= 5 && |ins.peakHours| <= 3 && |ins.busiestTables| <= 5
    ensures 2 <= |ins.recommendations| <= 3
  {
    var hours := HoursOf(orders).value;
    var drinks := DrinkNames(orders);
    var pending := PendingCount(orders);
    var tips := [PopularDrink(TopKey(drinks)), PeakHour(TopKey(hours))]
                + (if pending > 5 then [PendingBacklog(pending)] else []);
    Insights(now, |orders|, MostCommon(drinks, 5), MostCommon(hours, 3), None,
             MostCommon(TruthyTables(orders), 5), tips)
  }

  /** `analyze_patterns` on the loaded orders, at time `now`. */
  function AnalyzePatterns(orders: seq<Order>, now: string): (r: Result<Option<Insights>, TimestampError>)
    ensures r == Ok(None) <==> orders == []
    ensures r.Err? <==> orders != [] && exists i :: 0 <= i < |orders| && HourOf(orders[i].timestamp).None?
    ensures r.Ok? && r.value.Some? ==> r.value.value == Snapshot(orders, now)
  {
    if orders == [] then Ok(None)
    else if HoursOf(orders).None? then Err(BadTimestamp)
    else Ok(Some(Snapshot(orders, now)))
  }

  /**
   * The snapshot's header fields and the drinks ranking: at most 5 drinks,
   * each with its exact number of orders; a drink left out of the ranking
   * has no more orders than the last one listed.
   */
  lemma DrinksRanking(orders: seq<Order>, now: string)
    requires orders != [] && HoursOf(orders).Some?
    ensures var ins := Snapshot(orders, now);
      ins.timestamp == now && ins.totalOrders == |orders| && ins.avgPrepTime == None
    ensures var r := Snapshot(orders, now).drinksRanking;
      |r| <= 5 && Distinct(Keys(r))
    ensures var r := Snapshot(orders, now).drinksRanking;
      forall i :: 0 <= i < |r| ==> r[i].0 in DrinkNames(orders) && r[i].1 == Count(DrinkNames(orders), r[i].0)
    ensures var r := Snapshot(orders, now).drinksRanking;
      forall i, j :: 0 <= i < j < |r| ==> r[j].1 <= r[i].1
    ensures var r := Snapshot(orders, now).drinksRanking;
      forall d :: d in DrinkNames(orders) && d !in Keys(r) ==> |r| == 5 && Count(DrinkNames(orders), d) <= r[4].1
  {
    MostCommonSpec(DrinkNames(orders), 5);
  }

  /**
   * At most 3 peak hours, each a valid hour some order was placed in, with
   * its exact number of orders, busiest first; an hour left out has no more
   * orders than the last one listed.
   */
  lemma PeakHoursRanking(orders: seq<Order>, now: string)
    requires orders != [] && HoursOf(orders).Some?
    ensures var r := Snapshot(orders, now).peakHours;
      |r| <= 3 && Distinct(Keys(r))
    ensures var r := Snapshot(orders, now).peakHours;
      forall i :: 0 <= i < |r| ==> r[i].0 < 24 && 0 < r[i].1 && r[i].1 == OrdersInHour(orders, r[i].0)
    ensures var r := Snapshot(orders, now).peakHours;
      forall i, j :: 0 <= i < j < |r| ==> r[j].1 <= r[i].1
    ensures var r := Snapshot(orders, now).peakHours;
      forall h :: 0 < OrdersInHour(orders, h) && h !in Keys(r) ==> |r| == 3 && OrdersInHour(orders, h) <= r[2].1
  {
    var ins := Snapshot(orders, now);
    var hours := HoursOf(orders).value;
    assert ins.peakHours == MostCommon(hours, 3);
    MostCommonSpec(hours, 3);
    forall h | 0 < OrdersInHour(orders, h) && h !in Keys(ins.peakHours)
      ensures |ins.peakHours| == 3 && OrdersInHour(orders, h) <= ins.peakHours[2].1
    {
      HoursCount(orders, h);
    }
    HoursValid(orders);
    forall i | 0 <= i < |ins.peakHours|
      ensures ins.peakHours[i].0 < 24 && 0 < ins.peakHours[i].1 && ins.peakHours[i].1 == OrdersInHour(orders, ins.peakHours[i].0)
    {
      HoursCount(orders, ins.peakHours[i].0);
    }
  }

  /**
   * At most 5 tables, only non-empty ones some order was placed at, each
   * with its exact number of orders, busiest first; a non-empty table left
   * out has no more orders than the last one listed.
   */
  lemma BusiestTablesRanking(orders: seq<Order>, now: string)
    requires orders != [] && HoursOf(orders).Some?
    ensures var r := Snapshot(orders, now).busiestTables;
      |r| <= 5 && Distinct(Keys(r))
    ensures var r := Snapshot(orders, now).busiestTables;
      forall i :: 0 <= i < |r| ==>
        r[i].0 != "" && Some(r[i].0) in Tables(orders) && r[i].1 == Count(Tables(orders), Some(r[i].0))
    ensures var r := Snapshot(orders, now).busiestTables;
      forall i, j :: 0 <= i < j < |r| ==> r[j].1 <= r[i].1
    ensures var r := Snapshot(orders, now).busiestTables;
      forall m :: m != "" && Some(m) in Tables(orders) && m !in Keys(r) ==> |r| == 5 && Count(Tables(orders), Some(m)) <= r[4].1
  {
    var ins := Snapshot(orders, now);
    MostCommonSpec(TruthyTables(orders), 5);
    forall m | m != "" && Some(m) in Tables(orders) && m !in Keys(ins.busiestTables)
      ensures |ins.busiestTables| == 5 && Count(Tables(orders), Some(m)) <= ins.busiestTables[4].1
    {
      TruthyTablesCount(orders, m);
    }
    forall i | 0 <= i < |ins.busiestTables|
      ensures ins.busiestTables[i].0 != "" && Some(ins.busiestTables[i].0) in Tables(orders) &&
              ins.busiestTables[i].1 == Count(Tables(orders), Some(ins.busiestTables[i].0))
    {
      var m := ins.busiestTables[i].0;
      TruthyTablesCount(orders, m);
      assert Count(TruthyTables(orders), m) > 0;
    }
  }

  /** The recommendations are two or three; the third, a backlog warning, exactly when more than 5 orders are pending. */
  lemma RecommendationsShape(orders: seq<Order>, now: string)
    requires orders != [] && HoursOf(orders).Some?
    ensures var tips := Snapshot(orders, now).recommendations;
      |tips| == 2 || |tips| == 3
    ensures var tips := Snapshot(orders, now).recommendations;
      |tips| == 3 <==> PendingCount(orders) > 5
    ensures var tips := Snapshot(orders, now).recommendations;
      |tips| == 3 ==> tips[2] == PendingBacklog(PendingCount(orders))
  {
    var pending := PendingCount(orders);
    var tips := [PopularDrink(TopKey(DrinkNames(orders))), PeakHour(TopKey(HoursOf(orders).value))];
    if pending > 5 {
      assert Snapshot(orders, now).recommendations == tips + [PendingBacklog(pending)];
    } else {
      assert Snapshot(orders, now).recommendations == tips;
    }
  }

  /** The first recommendation names a drink ordered at least as often as any other. */
  lemma PopularDrinkTip(orders: seq<Order>, now: string)
    requires orders != [] && HoursOf(orders).Some?
    ensures var tips := Snapshot(orders, now).recommendations;
      |tips| >= 2 && tips[0].PopularDrink? && tips[0].drink in DrinkNames(orders)
    ensures var tips := Snapshot(orders, now).recommendations;
      forall d :: Count(DrinkNames(orders), d) <= Count(DrinkNames(orders), tips[0].drink)
  {
  }

  /** The second recommendation names an hour with at least as many orders as any other hour. */
  lemma PeakHourTip(orders: seq<Order>, now: string)
    requires orders != [] && HoursOf(orders).Some?
    ensures var tips := Snapshot(orders, now).recommendations;
      |tips| >= 2 && tips[1].PeakHour? && tips[1].hour < 24
    ensures var tips := Snapshot(orders, now).recommendations;
      forall h :: OrdersInHour(orders, h) <= OrdersInHour(orders, tips[1].hour)
  {
    var ins := Snapshot(orders, now);
    var hours := HoursOf(orders).value;
    var top := TopKey(hours);
    assert ins.recommendations[1] == PeakHour(top);
    HoursValid(orders);
    forall h ensures OrdersInHour(orders, h) <= OrdersInHour(orders, top) {
      HoursCount(orders, h);
      HoursCount(orders, top);
    }
  }

  // ---- The run loop ----

  /**
   * What writing the insights file does: it succeeds; it fails at
   * `open(..., 'w')`, before the file is touched; or it fails inside
   * `json.dump`, after `open` has already emptied the file.
   */
  datatype Write = Written | OpenFailed | DumpFailed

  /** What one pass of the loop meets: the read of the orders file, the time and what writing the insights does; or an interrupt (Ctrl-C). */
  datatype Event = Cycle(read: Option<seq<Order>>, now: string, write: Write) | Interrupt

  /** A cycle saves a snapshot, has nothing to save, or fails; `clobbered` says the failure left the insights file cut off. */
  datatype CycleOutcome = Saved(insights: Insights) | NothingToSave | Failed(clobbered: bool)

  /** Whether a cycle touched the insights file. */
  predicate Writes(out: CycleOutcome)
  {
    out.Saved? || out == Failed(true)
  }

  /**
   * The body of the `try`: analyse, and save the insights when there are any.
   * A cycle saves exactly the snapshot `analyze_patterns` returns, when there
   * is one and writing succeeds; it has nothing to save exactly for an empty
   * list; it fails when reading, parsing a timestamp or writing fails, and it
   * leaves the file cut off exactly when the dump of a snapshot fails.
   */
  function RunCycle(read: Option<seq<Order>>, now: string, write: Write): (out: CycleOutcome)
    ensures out.Saved? <==> read.Some? && write == Written && AnalyzePatterns(read.value, now).Ok? && AnalyzePatterns(read.value, now).value.Some?
    ensures out.Saved? ==> AnalyzePatterns(read.value, now) == Ok(Some(out.insights))
    ensures out == NothingToSave <==> read == Some([])
    ensures out.Failed? <==>
      read.None? || AnalyzePatterns(read.value, now).Err? || (read != Some([]) && write != Written)
    ensures out == Failed(true) <==>
      read.Some? && write == DumpFailed && AnalyzePatterns(read.value, now).Ok? && AnalyzePatterns(read.value, now).value.Some?
  {
    match read
    case None => Failed(false)
    case Some(orders) =>
      match AnalyzePatterns(orders, now)
      case Err(_) => Failed(false)
      case Ok(None) => NothingToSave
      case Ok(Some(ins)) =>
        match write
        case Written => Saved(ins)
        case OpenFailed => Failed(false)
        case DumpFailed => Failed(true)
  }

  /** The outcomes of the cycles the loop runs: one per event before the first interrupt (Ctrl-C). */
  function Outcomes(events: seq<Event>): (outs: seq<CycleOutcome>)
    ensures |outs| <= |events|
  {
    if events == [] || events[0] == Interrupt then []
    else [RunCycle(events[0].read, events[0].now, events[0].write)] + Outcomes(events[1..])
  }

  /** `time.sleep(30)` after a cycle that did not fail, `time.sleep(5)` (the `except` branch) after one that did. */
  function PauseAfter(out: CycleOutcome): nat
  {
    if out.Failed? then 5 else 30
  }

  /** The pauses taken after a run of cycle outcomes, in order. */
  function PausesOf(outs: seq<CycleOutcome>): (pauses: seq<nat>)
  {
    if outs == [] then [] else PausesOf(outs[..|outs| - 1]) + [PauseAfter(outs[|outs| - 1])]
  }

  /**
   * The insights file after a run of cycle outcomes: the snapshot of the last
   * cycle that wrote the file, or nothing readable when that cycle's dump failed.
   */
  function LastSavedOf(saved: Option<Insights>, outs: seq<CycleOutcome>): Option<Insights>
  {
    if outs == [] then saved
    else if outs[|outs| - 1].Saved? then Some(outs[|outs| - 1].insights)
    else if outs[|outs| - 1] == Failed(true) then None
    else LastSavedOf(saved, outs[..|outs| - 1])
  }

  /** The cycles before the first interrupt are exactly the loop's cycles, in order. */
  lemma {:induction false} OutcomesSpec(events: seq<Event>, n: nat)
    requires n <= |events| && Interrupt !in events[..n]
    requires n == |events| || events[n] == Interrupt
    ensures |Outcomes(events)| == n
    ensures forall i :: 0 <= i < n ==>
      Outcomes(events)[i] == RunCycle(events[i].read, events[i].now, events[i].write)
  {
    if n > 0 {
      assert events[0] in events[..n];
      assert events[1..][..n - 1] == events[..n][1..];
      OutcomesSpec(events[1..], n - 1);
    }
  }

  /** The cycle at index `i` is run when no interrupt comes before it. */
  lemma {:induction false} OutcomeAt(events: seq<Event>, i: nat)
    requires i < |events| && events[i] != Interrupt && Interrupt !in events[..i]
    ensures i < |Outcomes(events)|
    ensures Outcomes(events)[i] == RunCycle(events[i].read, events[i].now, events[i].write)
  {
    if i > 0 {
      assert events[0] in events[..i];
      assert events[1..][..i - 1] == events[..i][1..];
      OutcomeAt(events[1..], i - 1);
    }
  }

  /** One pause per cycle, 5 units exactly after the cycles that failed and 30 otherwise. */
  lemma {:induction false} PausesSpec(outs: seq<CycleOutcome>)
    ensures |PausesOf(outs)| == |outs|
    ensures forall i :: 0 <= i < |outs| ==> PausesOf(outs)[i] == (if outs[i].Failed? then 5 else 30)
  {
    if outs != [] {
      var init := outs[..|outs| - 1];
      PausesSpec(init);
      assert forall i :: 0 <= i < |init| ==> init[i] == outs[i];
    }
  }

  /** The insights file is left as it was when no cycle wrote to it. */
  lemma {:induction false} NothingSaved(saved: Option<Insights>, outs: seq<CycleOutcome>)
    requires forall i :: 0 <= i < |outs| ==> !Writes(outs[i])
    ensures LastSavedOf(saved, outs) == saved
  {
    if outs != [] {
      var init := outs[..|outs| - 1];
      assert forall i :: 0 <= i < |init| ==> init[i] == outs[i];
      NothingSaved(saved, init);
    }
  }

  /**
   * The insights file is what the last cycle that wrote to it left: its
   * snapshot when the write succeeded, nothing readable when the dump failed.
   */
  lemma {:induction false} LastSnapshotSaved(saved: Option<Insights>, outs: seq<CycleOutcome>, k: nat)
    requires k < |outs| && Writes(outs[k])
    requires forall j :: k < j < |outs| ==> !Writes(outs[j])
    ensures LastSavedOf(saved, outs) == if outs[k].Saved? then Some(outs[k].insights) else None
  {
    if k < |outs| - 1 {
      var init := outs[..|outs| - 1];
      assert forall i :: 0 <= i < |init| ==> init[i] == outs[i];
      LastSnapshotSaved(saved, init, k);
    }
  }

  /** One more cycle adds its pause, and replaces the insights file when it writes. */
  lemma StepOf(saved: Option<Insights>, outs: seq<CycleOutcome>, i: nat)
    requires i < |outs|
    ensures PausesOf(outs[..i + 1]) == PausesOf(outs[..i]) + [PauseAfter(outs[i])]
    ensures LastSavedOf(saved, outs[..i + 1])
         == if outs[i].Saved? then Some(outs[i].insights)
            else if outs[i] == Failed(true) then None
            else LastSavedOf(saved, outs[..i])
  {
    assert outs[..i + 1][..i] == outs[..i];
  }

  /** An empty order list leaves the insights file as it was. */
  lemma {:induction false} EmptyOrdersWriteNothing(saved: Option<Insights>, events: seq<Event>)
    requires forall i :: 0 <= i < |events| ==> events[i].Cycle? ==> events[i].read == Some([])
    ensures forall i :: 0 <= i < |Outcomes(events)| ==> Outcomes(events)[i] == NothingToSave
    ensures LastSavedOf(saved, Outcomes(events)) == saved
  {
    if events != [] && events[0] != Interrupt {
      assert forall i :: 0 <= i < |events[1..]| ==> events[1..][i] == events[i + 1];
      EmptyOrdersWriteNothing(saved, events[1..]);
    }
    NothingSaved(saved, Outcomes(events));
  }

  /** `CocktailMonitor`: its file names, its start time and the insights file it writes. */
  class CocktailMonitor {
    var dataFile: string
    var insightsFile: string
    var lastCheck: string
    var saved: Option<Insights>

    constructor (now: string, previous: Option<Insights>)
      ensures dataFile == "../data/pedidos.json" && insightsFile == "../data/insights.json"
      ensures lastCheck == now && saved == previous
    {
      dataFile := "../data/pedidos.json";
      insightsFile := "../data/insights.json";
      lastCheck := now;
      saved := previous;
    }

    /** One pass of the `try` body: analyse, and save the snapshot when there is one; a failed dump leaves the file cut off. */
    method RunOnce(ev: Event) returns (outcome: CycleOutcome)
      requires ev.Cycle?
      modifies this`saved
      ensures outcome == RunCycle(ev.read, ev.now, ev.write)
      ensures saved == if outcome.Saved? then Some(outcome.insights) else if outcome == Failed(true) then None else old(saved)
    {
      outcome := RunCycle(ev.read, ev.now, ev.write);
      if outcome.Saved? {
        saved := Some(outcome.insights);
      } else if outcome == Failed(true) {
        saved := None;
      }
    }

    /**
     * `run`: cycles until an interrupt, pausing after each cycle. Returns the
     * pauses taken and whether the loop ended (it ends exactly when the
     * events contain an interrupt).
     */
    method Run(events: seq<Event>) returns (pauses: seq<nat>, stopped: bool)
      modifies this`saved
      ensures stopped <==> Interrupt in events
      ensures pauses == PausesOf(Outcomes(events))
      ensures saved == LastSavedOf(old(saved), Outcomes(events))
    {
      ghost var outs := Outcomes(events);
      var i := 0;
      pauses := [];
      while i < |events| && events[i] != Interrupt
        invariant 0 <= i <= |events| && i <= |outs|
        invariant Interrupt !in events[..i]
        invariant pauses == PausesOf(outs[..i])
        invariant saved == LastSavedOf(old(saved), outs[..i])
      {
        OutcomeAt(events, i);
        assert events[..i + 1] == events[..i] + [events[i]];
        StepOf(old(saved), outs, i);
        var outcome := RunOnce(events[i]);
        pauses := pauses + [PauseAfter(outcome)];
        i := i + 1;
      }
      OutcomesSpec(events, i);
      assert outs[..i] == outs;
      if i == |events| {
        assert events[..i] == events;
      }
      stopped := i < |events|;
    }
  }
}
