/**
 The daemon together with what the metrics are computed from: DAO outcomes, parent changes and the
 evaluations every five seconds, besides the ticks of SwitchRuns. Hysteresis counts ticks, so the
 result of a single evaluation is enough for a switch.
 */
module EvaluationRuns {
  import opened Wrappers
  import opened Rpl
  import opened Command
  import opened FifoSec
  import B = BoundedResponse
  import D = Daemon
  import H = Hysteresis
  import M = Metrics
  import S = SwitchRuns

  datatype Event =
    | DaoOutcome(now: real, success: bool)
    | ParentChanged(now: real)
    | Evaluated(now: real, reading: real)
    | Ticked(now: real, input: Option<string>)

  /** The daemon and the values its engine holds (AdaptiveEngine), and the time of the last event. */
  datatype Snapshot = Snapshot(run: S.Run, time: real, outcomes: seq<bool>, changes: seq<real>, ema: real, stability: real)

  const BLANK := Snapshot(S.Run(D.State(Sec([], false, 0, 0.0, 0, 0.0), H.FRESH, [], false), 0.0, [], None, [], [], []),
                          0.0, [], [], 1.0, 1.0)

  /** The last tick is not later than the last event. */
  type World = w: Snapshot | w.run.time <= w.time witness BLANK

  ghost predicate Starts(w: World) {
    S.Starts(w.run) && w.time == w.run.time && w.outcomes == [] && w.changes == [] && w.ema == 1.0 && w.stability == 1.0
  }

  /** What adaptive_decide computes at present; only the delivery ratio is updated between evaluations. */
  ghost function Decided(w: World): Class {
    M.Decision(M.PdrOf(w.outcomes), w.ema, w.stability)
  }

  ghost predicate Enabled(w: World, e: Event) {
    w.time <= e.now
  }

  ghost function TickOf(w: World, e: Event): S.Event
    requires e.Ticked?
  {
    S.Ticked(D.Tick(e.now, e.input, Decided(w)))
  }

  ghost function Next(mac: Mac, w: World, e: Event): World
    requires Enabled(w, e)
  {
    match e
    case DaoOutcome(now, success) => w.(time := now, outcomes := w.outcomes + [success])
    case ParentChanged(now) => w.(time := now, changes := w.changes + [now])
    case Evaluated(now, reading) =>
      w.(time := now, ema := M.EmaStep(w.ema, reading / 100.0), stability := M.StabilityOf(w.changes, now))
    case Ticked(now, _) => w.(time := now, run := S.Next(mac, w.run, TickOf(w, e)))
  }

  ghost predicate Trace(mac: Mac, es: seq<Event>, ws: seq<World>) {
    && |ws| == |es| + 1 && Starts(ws[0])
    && forall i :: 0 <= i < |es| ==> Enabled(ws[i], es[i]) && ws[i + 1] == Next(mac, ws[i], es[i])
  }

  /** Without the events of the metrics it is a run of SwitchRuns, so all that is proved there holds here. */
  lemma {:induction false} TicksAreARun(mac: Mac, es: seq<Event>, ws: seq<World>, n: nat)
    returns (ts: seq<S.Event>, rs: seq<S.Run>)
    requires Trace(mac, es, ws) && n < |ws|
    ensures S.Trace(mac, ts, rs) && |rs| == |ts| + 1 && rs[|ts|] == ws[n].run
    decreases n
  {
    hide S.Next, S.Starts, S.Trace, Decided;
    if n == 0 {
      ts, rs := [], [ws[0].run];
      S.TraceStarts(mac, ws[0].run);
    } else {
      ts, rs := TicksAreARun(mac, es, ws, n - 1);
      var w, e := ws[n - 1], es[n - 1];
      assert Enabled(w, e) && ws[n - 1 + 1] == Next(mac, w, e);
      if e.Ticked? {
        var last;
        ts, rs, last := S.ExtendTrace(mac, ts, rs, TickOf(w, e));
      }
    }
  }

  // ---- one evaluation, three ticks ----

  ghost predicate QuietTick(e: Event) {
    e.Ticked? && e.input == None
  }

  /** What event i of the trace, a tick, applies. */
  ghost function SwitchAt(mac: Mac, es: seq<Event>, ws: seq<World>, i: nat): D.Switched
    requires i < |es| < |ws| && es[i].Ticked?
  {
    D.OnTick(mac, ws[i].run.state, TickOf(ws[i], es[i]).tick).1
  }

  lemma StepOf(mac: Mac, es: seq<Event>, ws: seq<World>, i: nat)
    requires Trace(mac, es, ws) && i < |es|
    ensures |ws| == |es| + 1 && Enabled(ws[i], es[i]) && ws[i + 1] == Next(mac, ws[i], es[i])
  {
  }

  /** From w to v no metric has changed, nothing has been switched, and the hysteresis has counted n ticks, modulo three. */
  ghost predicate Counting(w: World, v: World, n: nat) {
    && v.outcomes == w.outcomes && v.ema == w.ema && v.stability == w.stability
    && B.Waiting(w.run.state, v.run.state, Decided(w), n)
  }

  ghost predicate QuietTicks(es: seq<Event>, n: nat, k: nat)
    requires n + k <= |es|
  {
    forall i :: n <= i < n + k ==> QuietTick(es[i])
  }

  ghost predicate NothingSwitched(mac: Mac, es: seq<Event>, ws: seq<World>, n: nat, k: nat)
    requires n + k <= |es| < |ws| && QuietTicks(es, n, k)
  {
    forall i :: n <= i < n + k ==> SwitchAt(mac, es, ws, i) == D.Nothing
  }

  lemma CounterIsSmall(mac: Mac, es: seq<Event>, ws: seq<World>, n: nat)
    requires Trace(mac, es, ws) && n < |ws| && ws[n].run.state.adaptive
    ensures ws[n].run.state.hyst.counter < 3
  {
    var ts, rs := TicksAreARun(mac, es, ws, n);
    hide Trace;
    B.RunsAreReachable(mac, ts, rs, |ts|);
  }

  lemma SameMetrics(w: World, v: World)
    requires v.outcomes == w.outcomes && v.ema == w.ema && v.stability == w.stability
    ensures Decided(v) == Decided(w)
  {
  }

  lemma NothingForced(mac: Mac, d: D.State, t: D.Tick)
    requires t.input == None
    ensures !D.OnTick(mac, d, t).1.ByFifo?
  {
  }

  /** What the next quiet tick does after n of them. */
  lemma OneMoreTick(mac: Mac, w: World, v: World, e: Event, n: nat)
    requires Enabled(v, e) && QuietTick(e) && Counting(w, v, n) && CurrentClass(w.run.state.ifaces) != Decided(w)
    ensures var s := D.OnTick(mac, v.run.state, TickOf(v, e).tick).1;
            && s == (if (B.Progress(w.run.state, Decided(w)) + n + 1) % 3 == 0
                        && e.now - w.run.state.sec.lastSwitch >= 10.0
                     then D.ByEngine(Decided(w)) else D.Nothing)
            && (s == D.Nothing ==> Counting(w, Next(mac, v, e), n + 1))
  {
    var d, r, t := v.run.state, Decided(w), TickOf(v, e).tick;
    hide Decided, CurrentClass, D.OnTick;
    SameMetrics(w, v);
    NothingForced(mac, d, t);
    B.TickProgress(mac, d, t, r);
    hide S.Next;
    if D.OnTick(mac, d, t).1 == D.Nothing {
      B.WaitingAdvances(w.run.state, d, D.OnTick(mac, d, t).0, r, n);
      TickMovesDaemon(mac, v, e);
    }
  }

  lemma TickMovesDaemon(mac: Mac, v: World, e: Event)
    requires Enabled(v, e) && e.Ticked?
    ensures Next(mac, v, e).run.state == D.OnTick(mac, v.run.state, TickOf(v, e).tick).0
    ensures Next(mac, v, e).outcomes == v.outcomes && Next(mac, v, e).ema == v.ema && Next(mac, v, e).stability == v.stability
  {
    hide D.OnTick, Decided;
  }

  lemma {:induction false} StillCounting(mac: Mac, es: seq<Event>, ws: seq<World>, n: nat, k: nat)
    requires Trace(mac, es, ws) && n + k <= |es| && QuietTicks(es, n, k)
    requires ws[n].run.state.adaptive && CurrentClass(ws[n].run.state.ifaces) != Decided(ws[n])
    requires NothingSwitched(mac, es, ws, n, k)
    ensures Counting(ws[n], ws[n + k], k)
    decreases k
  {
    assert |ws| == |es| + 1;
    hide Trace, Decided, CurrentClass, D.OnTick, Next, S.Next;
    if k == 0 {
      CounterIsSmall(mac, es, ws, n);
    } else {
      StepOf(mac, es, ws, n + k - 1);
      StillCounting(mac, es, ws, n, k - 1);
      hide Counting;
      assert SwitchAt(mac, es, ws, n + k - 1) == D.Nothing;
      OneMoreTick(mac, ws[n], ws[n + k - 1], es[n + k - 1], k - 1);
    }
  }

  /**
   At any point n of any run at which the class decided is not the node's, and whatever was evaluated
   last: of the quiet ticks that follow, the first to switch is the first that completes a group of
   three, counted on from where the hysteresis stands, with the last switch ten seconds back. No
   evaluation is waited for.
   */
  lemma QuietTickSwitchesIff(mac: Mac, es: seq<Event>, ws: seq<World>, n: nat, k: nat)
    requires Trace(mac, es, ws) && n + k < |es| && QuietTicks(es, n, k + 1)
    requires ws[n].run.state.adaptive && CurrentClass(ws[n].run.state.ifaces) != Decided(ws[n])
    requires NothingSwitched(mac, es, ws, n, k)
    ensures SwitchAt(mac, es, ws, n + k) ==
            if (B.Progress(ws[n].run.state, Decided(ws[n])) + k + 1) % 3 == 0
               && es[n + k].now - ws[n].run.state.sec.lastSwitch >= 10.0
            then D.ByEngine(Decided(ws[n])) else D.Nothing
  {
    StepOf(mac, es, ws, n + k);
    hide Trace, Decided, CurrentClass, D.OnTick, Next, S.Next, Counting;
    StillCounting(mac, es, ws, n, k);
    OneMoreTick(mac, ws[n], ws[n + k], es[n + k], k);
  }

  /** Three parent changes a second after the start, evaluated once, at t + 5; then three ticks. */
  function OneEvaluation(t: real, reading: real): seq<Event> {
    [ParentChanged(t + 1.0), ParentChanged(t + 1.0), ParentChanged(t + 1.0), Evaluated(t + 5.0, reading),
     Ticked(t + 6.0, None), Ticked(t + 7.0, None), Ticked(t + 8.0, None)]
  }

  lemma {:induction false} AllSince(times: seq<real>, start: real)
    requires forall i :: 0 <= i < |times| ==> times[i] >= start
    ensures M.CountSince(times, start) == |times|
    decreases |times|
  {
    if times != [] {
      AllSince(times[..|times| - 1], start);
    }
  }

  lemma Unstable(w: World, t: real)
    requires M.Unit(w.ema) && w.outcomes == [] && w.stability == M.StabilityOf([t, t, t], t + 4.0)
    ensures Decided(w) == ClassN
  {
    AllSince([t, t, t], t + 4.0 - M.STABILITY_WINDOW);
    M.InstabilityForcesNIff([t, t, t], t + 4.0);
    assert M.Percent(100.0);
  }

  lemma Extend(mac: Mac, es: seq<Event>, ws: seq<World>, e: Event) returns (ws': seq<World>)
    requires Trace(mac, es, ws) && Enabled(ws[|es|], e)
    ensures Trace(mac, es + [e], ws') && ws' == ws + [Next(mac, ws[|es|], e)]
  {
    ws' := ws + [Next(mac, ws[|es|], e)];
    hide Next, Enabled, Starts;
    forall i | 0 <= i < |es| + 1
      ensures Enabled(ws'[i], (es + [e])[i]) && ws'[i + 1] == Next(mac, ws'[i], (es + [e])[i])
    {
      if i < |es| {
        assert ws'[i] == ws[i] && (es + [e])[i] == es[i] && ws'[i + 1] == ws[i + 1];
      }
    }
  }

  /** Any events in order of time make a run. */
  lemma {:induction false} RunOf(mac: Mac, start: World, es: seq<Event>) returns (ws: seq<World>)
    requires Starts(start) && InOrder(start.time, es)
    ensures Trace(mac, es, ws) && |ws| == |es| + 1 && ws[0] == start
    ensures ws[|es|].time == if es == [] then start.time else es[|es| - 1].now
    decreases |es|
  {
    hide S.Next, Decided;
    if es == [] {
      ws := [start];
    } else {
      var init, e := es[..|es| - 1], es[|es| - 1];
      ws := RunOf(mac, start, init);
      hide Trace;
      ws := Extend(mac, init, ws, e);
      assert init + [e] == es;
    }
  }

  ghost predicate InOrder(start: real, es: seq<Event>) {
    (es != [] ==> start <= es[0].now) && forall i :: 0 <= i < |es| - 1 ==> es[i].now <= es[i + 1].now
  }

  /** Up to the ticks nothing happens but to the metrics, which then favour class N whatever the battery says. */
  lemma MetricsOfRun(mac: Mac, start: World, reading: real, ws: seq<World>)
    requires Starts(start) && M.Percent(reading) && Trace(mac, OneEvaluation(start.time, reading), ws) && ws[0] == start
    ensures |ws| == 8 && ws[4].run == start.run && Decided(ws[4]) == ClassN
  {
    var t, es := start.time, OneEvaluation(start.time, reading);
    StepOf(mac, es, ws, 0);
    StepOf(mac, es, ws, 1);
    StepOf(mac, es, ws, 2);
    StepOf(mac, es, ws, 3);
    hide Trace, S.Next, Decided;
    assert ws[3].changes == [t + 1.0, t + 1.0, t + 1.0];
    M.EmaStaysInRange(1.0, reading / 100.0);
    Unstable(ws[4], t + 1.0);
  }

  /** A run in which the third tick after the only evaluation switches the node to class N. */
  lemma OneEvaluationSuffices(mac: Mac, start: World, reading: real) returns (ws: seq<World>)
    requires Starts(start) && start.time >= 2.0 && M.Percent(reading)
    requires start.run.state.adaptive && CurrentClass(start.run.state.ifaces) == ClassS
    ensures Trace(mac, OneEvaluation(start.time, reading), ws) && ws[0] == start && |ws| == 8
    ensures SwitchAt(mac, OneEvaluation(start.time, reading), ws, 6) == D.ByEngine(ClassN)
  {
    ws := RunOf(mac, start, OneEvaluation(start.time, reading));
    MetricsOfRun(mac, start, reading, ws);
    hide Trace, Decided, CurrentClass, SwitchAt;
    QuietTickSwitchesIff(mac, OneEvaluation(start.time, reading), ws, 4, 0);
    QuietTickSwitchesIff(mac, OneEvaluation(start.time, reading), ws, 4, 1);
    QuietTickSwitchesIff(mac, OneEvaluation(start.time, reading), ws, 4, 2);
  }
}
