/**
 Whole runs of the daemon's one-second callback: how often the class can switch, from either
 source, that no command is obeyed twice, and that all interfaces and DAGs agree afterwards.
 */
module SwitchRuns {
  import opened Wrappers
  import opened Rpl
  import opened Command
  import opened FifoSec
  import D = Daemon
  import H = Hysteresis

  datatype Event = Ticked(tick: D.Tick) | DagCreated(iface: nat, rpl: nat)

  /** A switch taken from the FIFO, and in which window of the minute counter, counted from one. */
  datatype FifoSwitch = FifoSwitch(time: real, epoch: nat)

  /**
   The daemon with its history: when switches were applied and to which class, which of them came
   from the FIFO, the starts of the minute counter's windows, and the nonces let through.
   */
  datatype Run = Run(state: D.State, time: real, switches: seq<real>, lastClass: Option<Class>,
                     fifo: seq<FifoSwitch>, resets: seq<real>, nonces: seq<u64>)

  /** The daemon right after initialisation at time now, which no switch precedes. */
  ghost predicate Starts(r: Run) {
    && r.time >= 0.0 && r.switches == [] && r.fifo == [] && r.nonces == [] && r.lastClass == None
    && r.state.sec.lastNonce == 0 && r.state.sec.lastSwitch == 0.0 && r.state.sec.switchesThisMinute == 0
    && r.state.sec.minuteStart == r.time && r.resets == [r.time] && r.state.hyst == H.FRESH
  }

  ghost predicate Enabled(r: Run, e: Event) {
    match e
    case Ticked(t) => r.time <= t.now
    case DagCreated(i, _) => i < |r.state.ifaces|
  }

  ghost function Next(mac: Mac, r: Run, e: Event): Run
    requires Enabled(r, e)
  {
    match e
    case DagCreated(i, j) => r.(state := r.state.(ifaces := D.AddDag(r.state.ifaces, i, j)))
    case Ticked(t) =>
      var (d, s) := D.OnTick(mac, r.state, t);
      var resets := if d.sec.minuteStart != r.state.sec.minuteStart then r.resets + [t.now] else r.resets;
      Run(d, t.now,
          if s.Nothing? then r.switches else r.switches + [t.now],
          if s.Nothing? then r.lastClass else Some(s.cls),
          if s.ByFifo? then r.fifo + [FifoSwitch(t.now, |resets|)] else r.fifo,
          resets,
          if d.sec.lastNonce != r.state.sec.lastNonce then r.nonces + [d.sec.lastNonce] else r.nonces)
  }

  ghost predicate Trace(mac: Mac, es: seq<Event>, rs: seq<Run>) {
    && |rs| == |es| + 1 && Starts(rs[0])
    && forall i :: 0 <= i < |es| ==> Enabled(rs[i], es[i]) && rs[i + 1] == Next(mac, rs[i], es[i])
  }

  lemma StepOf(mac: Mac, es: seq<Event>, rs: seq<Run>, i: nat)
    requires Trace(mac, es, rs) && i < |es|
    ensures Enabled(rs[i], es[i]) && rs[i + 1] == Next(mac, rs[i], es[i])
  {
  }

  // ---- rate limits ----

  /** Successive switches are ten seconds apart, and the shared timestamp is the latest one's. */
  ghost predicate Spaced(r: Run) {
    && (forall i :: 0 <= i < |r.switches| - 1 ==> r.switches[i + 1] - r.switches[i] >= 10.0)
    && r.state.sec.lastSwitch == (if r.switches == [] then 0.0 else r.switches[|r.switches| - 1])
    && 0.0 <= r.state.sec.lastSwitch <= r.time
  }

  /** Counter windows begin more than a minute apart, and the present one began at minuteStart. */
  ghost predicate Windows(r: Run) {
    && r.resets != [] && r.state.sec.minuteStart == r.resets[|r.resets| - 1] <= r.time
    && forall i :: 0 <= i < |r.resets| - 1 ==> r.resets[i + 1] - r.resets[i] > 60.0
  }

  /** A FIFO switch lies in the first minute of the window it was counted in. */
  ghost predicate InWindow(r: Run, f: FifoSwitch) {
    && 0 < f.epoch <= |r.resets| && r.resets[f.epoch - 1] <= f.time <= r.resets[f.epoch - 1] + 60.0
    && f.time <= r.time
  }

  /** The counter counts exactly the latest FIFO switches, those of the present window. */
  ghost predicate Counted(r: Run) {
    var n := r.state.sec.switchesThisMinute;
    && n <= 3 && n <= |r.fifo|
    && (forall i :: 0 <= i < |r.fifo| ==> InWindow(r, r.fifo[i]))
    && (forall i :: 0 <= i < |r.fifo| ==> if i >= |r.fifo| - n then r.fifo[i].epoch == |r.resets|
                      else r.fifo[i].epoch < |r.resets|)
    && (forall i, j :: 0 <= i && i + 3 <= j < |r.fifo| ==> r.fifo[i].epoch < r.fifo[j].epoch)
  }

  ghost predicate RateInv(r: Run) {
    Spaced(r) && Windows(r) && Counted(r)
  }

  /** What a look at the FIFO does to counter, window and timestamp. */
  lemma CheckEffect(mac: Mac, sec: Sec, input: Option<string>, now: real)
    ensures var (sec', outcome) := Check(mac, sec, input, now);
            var reset := sec'.minuteStart != sec.minuteStart;
            && (reset ==> sec'.minuteStart == now && now - sec.minuteStart > 60.0)
            && sec'.switchesThisMinute == (if reset then 0 else sec.switchesThisMinute) + (if outcome.Applied? then 1 else 0)
            && (outcome.Applied? ==> sec'.switchesThisMinute <= 3 && now <= sec'.minuteStart + 60.0
                                     && now - sec.lastSwitch >= 10.0 && sec'.lastSwitch == now)
            && (!outcome.Applied? ==> sec'.lastSwitch == sec.lastSwitch)
            && sec'.lastNonce >= sec.lastNonce
  {
  }

  /** The same for the whole tick, with the engine's switch, which leaves counter and window alone. */
  lemma TickEffect(mac: Mac, d: D.State, t: D.Tick)
    ensures var (d', s) := D.OnTick(mac, d, t);
            var reset := d'.sec.minuteStart != d.sec.minuteStart;
            && (reset ==> d'.sec.minuteStart == t.now && t.now - d.sec.minuteStart > 60.0)
            && d'.sec.switchesThisMinute == (if reset then 0 else d.sec.switchesThisMinute) + (if s.ByFifo? then 1 else 0)
            && (s.ByFifo? ==> d'.sec.switchesThisMinute <= 3 && t.now <= d'.sec.minuteStart + 60.0)
            && (!s.Nothing? ==> t.now - d.sec.lastSwitch >= 10.0 && d'.sec.lastSwitch == t.now)
            && (s.Nothing? ==> d'.sec.lastSwitch == d.sec.lastSwitch)
            && d'.sec.lastNonce >= d.sec.lastNonce
  {
    CheckEffect(mac, d.sec, t.input, t.now);
    hide Check;
  }

  lemma SpacedGrows(r: Run, r': Run, switched: bool)
    requires Spaced(r) && r.time <= r'.time
    requires r'.switches == if switched then r.switches + [r'.time] else r.switches
    requires r'.state.sec.lastSwitch == if switched then r'.time else r.state.sec.lastSwitch
    requires switched ==> r'.time - r.state.sec.lastSwitch >= 10.0
    ensures Spaced(r')
  {
  }

  lemma SpacedStays(mac: Mac, r: Run, t: D.Tick)
    requires RateInv(r) && Enabled(r, Ticked(t))
    ensures Spaced(Next(mac, r, Ticked(t)))
  {
    TickEffect(mac, r.state, t);
    hide D.OnTick, Counted, Windows, Spaced;
    SpacedGrows(r, Next(mac, r, Ticked(t)), !D.OnTick(mac, r.state, t).1.Nothing?);
  }

  lemma WindowsStay(mac: Mac, r: Run, t: D.Tick)
    requires RateInv(r) && Enabled(r, Ticked(t))
    ensures Windows(Next(mac, r, Ticked(t)))
  {
    TickEffect(mac, r.state, t);
    hide D.OnTick, Counted, Spaced;
  }

  lemma CountedStays(mac: Mac, r: Run, t: D.Tick)
    requires RateInv(r) && Enabled(r, Ticked(t))
    ensures Counted(Next(mac, r, Ticked(t)))
  {
    TickEffect(mac, r.state, t);
    hide D.OnTick, Spaced;
    var r' := Next(mac, r, Ticked(t));
    forall i | 0 <= i < |r'.fifo|
      ensures InWindow(r', r'.fifo[i])
    {
      if i < |r.fifo| {
        assert InWindow(r, r.fifo[i]);
      }
    }
  }

  lemma {:induction false} RateInvHolds(mac: Mac, es: seq<Event>, rs: seq<Run>, i: nat)
    requires Trace(mac, es, rs) && i < |rs|
    ensures RateInv(rs[i])
    decreases i
  {
    if i > 0 {
      RateInvHolds(mac, es, rs, i - 1);
      var r, r', e := rs[i - 1], rs[i], es[i - 1];
      if e.DagCreated? {
        assert forall k :: 0 <= k < |r.fifo| ==> InWindow(r, r.fifo[k]) && InWindow(r', r'.fifo[k]);
      } else {
        hide RateInv, Spaced, Windows, Counted;
        SpacedStays(mac, r, e.tick);
        WindowsStay(mac, r, e.tick);
        CountedStays(mac, r, e.tick);
        JoinRate(r');
      }
    }
  }

  lemma JoinRate(r: Run)
    requires Spaced(r) && Windows(r) && Counted(r)
    ensures RateInv(r)
  {
  }

  // ---- counting in an interval ----

  /** How many of the times lie in the closed interval [a, b]. */
  ghost function CountIn(times: seq<real>, a: real, b: real): nat {
    if times == [] then 0
    else CountIn(times[..|times| - 1], a, b) + if a <= times[|times| - 1] <= b then 1 else 0
  }

  ghost predicate Ascending(times: seq<real>) {
    forall i, j :: 0 <= i < j < |times| ==> times[i] <= times[j]
  }

  lemma {:induction false} CountNarrows(times: seq<real>, a: real, b: real, c: real)
    requires c <= b && forall i :: 0 <= i < |times| ==> times[i] <= c
    ensures CountIn(times, a, b) == CountIn(times, a, c)
    ensures c < a ==> CountIn(times, a, b) == 0
    decreases |times|
  {
    if times != [] {
      CountNarrows(times[..|times| - 1], a, b, c);
    }
  }

  /** floor(length / 10) + 1. */
  function SwitchBound(length: real): int {
    (length / 10.0).Floor + 1
  }

  ghost predicate TenApart(times: seq<real>) {
    forall i :: 0 <= i < |times| - 1 ==> times[i + 1] - times[i] >= 10.0
  }

  lemma {:induction false} EarlierByTen(times: seq<real>, i: nat)
    requires TenApart(times) && i < |times| - 1
    ensures times[i] <= times[|times| - 1] - 10.0
    decreases |times| - i
  {
    if i < |times| - 2 {
      EarlierByTen(times, i + 1);
    }
  }

  lemma {:induction false} SpacedCount(times: seq<real>, a: real, b: real)
    requires TenApart(times) && a <= b
    ensures CountIn(times, a, b) <= SwitchBound(b - a)
    decreases |times|
  {
    if times != [] {
      var init, last := times[..|times| - 1], times[|times| - 1];
      SpacedCount(init, a, b);
      if a <= last <= b {
        var c := last - 10.0;
        forall i | 0 <= i < |init|
          ensures init[i] <= c
        {
          EarlierByTen(times, i);
        }
        CountNarrows(init, a, b, c);
        if a <= c {
          SpacedCount(init, a, c);
          assert (b - a) / 10.0 >= (c - a) / 10.0 + 1.0;
        }
      }
    }
  }

  /**
   Over any run, however commands and recommendations mix: a closed interval of length b - a holds
   at most floor((b - a) / 10) + 1 applied switches.
   */
  lemma SwitchesAreBounded(mac: Mac, es: seq<Event>, rs: seq<Run>, i: nat, a: real, b: real)
    requires Trace(mac, es, rs) && i < |rs| && a <= b
    ensures TenApart(rs[i].switches)
    ensures CountIn(rs[i].switches, a, b) <= SwitchBound(b - a)
  {
    RateInvHolds(mac, es, rs, i);
    SpacedCount(rs[i].switches, a, b);
  }

  // ---- the per-minute cap ----

  ghost function FifoTimes(r: Run): seq<real> {
    seq(|r.fifo|, i requires 0 <= i < |r.fifo| => r.fifo[i].time)
  }

  lemma {:induction false} WindowsSpread(r: Run, i: nat, j: nat)
    requires Windows(r) && i < j < |r.resets|
    ensures r.resets[j] - r.resets[i] > 60.0
    decreases j
  {
    if i < j - 1 {
      WindowsSpread(r, i, j - 1);
    }
  }

  /** Seven FIFO switches in a row span more than a minute: at most three fall into each window. */
  lemma SevenSpanMoreThanAMinute(r: Run, i: nat)
    requires RateInv(r) && i + 6 < |r.fifo|
    ensures r.fifo[i + 6].time - r.fifo[i].time > 60.0
  {
    var x, y, z := r.fifo[i], r.fifo[i + 3], r.fifo[i + 6];
    assert InWindow(r, x) && InWindow(r, y) && InWindow(r, z);
    assert x.epoch < y.epoch < z.epoch;
    WindowsSpread(r, x.epoch, z.epoch - 1);
  }

  lemma {:induction false} CountConcat(x: seq<real>, y: seq<real>, a: real, b: real)
    ensures CountIn(x + y, a, b) == CountIn(x, a, b) + CountIn(y, a, b)
    ensures CountIn(y, a, b) <= |y|
    decreases |y|
  {
    if y == [] {
      assert x + y == x;
    } else {
      assert (x + y)[..|x + y| - 1] == x + y[..|y| - 1];
      CountConcat(x, y[..|y| - 1], a, b);
    }
  }

  /** If the last time is counted, the ones more than k places before it are too early to be. */
  lemma LastCounts(times: seq<real>, k: nat, a: real, b: real)
    requires 0 < k < |times| && Ascending(times) && times[|times| - 1 - k] < a <= b
    ensures CountIn(times, a, b) <= k
  {
    var cut := |times| - k;
    assert times == times[..cut] + times[cut..];
    CountConcat(times[..cut], times[cut..], a, b);
    CountNarrows(times[..cut], a, b, times[cut - 1]);
  }

  ghost predicate SpanExceeds(times: seq<real>, k: nat, length: real) {
    forall i, j :: 0 <= i && j == i + k && j < |times| ==> times[j] - times[i] > length
  }

  lemma PrefixSpans(times: seq<real>, k: nat, length: real)
    requires times != [] && Ascending(times) && SpanExceeds(times, k, length)
    ensures Ascending(times[..|times| - 1]) && SpanExceeds(times[..|times| - 1], k, length)
  {
  }

  lemma LastUncounted(times: seq<real>, a: real, b: real)
    requires times != [] && !(a <= times[|times| - 1] <= b)
    ensures CountIn(times, a, b) == CountIn(times[..|times| - 1], a, b)
  {
  }

  /** If k + 1 times in a row always span more than `length`, an interval of that length holds at most k. */
  lemma {:induction false} SpanBoundsCount(times: seq<real>, k: nat, a: real, length: real)
    requires Ascending(times) && k > 0 && SpanExceeds(times, k, length)
    ensures CountIn(times, a, a + length) <= k
    decreases |times|
  {
    hide CountIn;
    if |times| <= k {
      CountConcat([], times, a, a + length);
    } else if a <= times[|times| - 1] <= a + length {
      LastCounts(times, k, a, a + length);
    } else {
      hide Ascending, SpanExceeds;
      LastUncounted(times, a, a + length);
      PrefixSpans(times, k, length);
      SpanBoundsCount(times[..|times| - 1], k, a, length);
    }
  }

  lemma {:induction false} FifoInOrder(mac: Mac, es: seq<Event>, rs: seq<Run>, n: nat)
    requires Trace(mac, es, rs) && n < |rs|
    ensures forall i, j :: 0 <= i < j < |rs[n].fifo| ==> rs[n].fifo[i].time <= rs[n].fifo[j].time
    decreases n
  {
    if n > 0 {
      FifoInOrder(mac, es, rs, n - 1);
      RateInvHolds(mac, es, rs, n - 1);
      var r := rs[n - 1];
      assert forall i :: 0 <= i < |r.fifo| ==> InWindow(r, r.fifo[i]);
      hide D.OnTick;
    }
  }

  /** Any sixty seconds hold at most six FIFO switches. */
  lemma SixPerMinute(mac: Mac, es: seq<Event>, rs: seq<Run>, n: nat, a: real)
    requires Trace(mac, es, rs) && n < |rs|
    ensures CountIn(FifoTimes(rs[n]), a, a + 60.0) <= 6
  {
    RateInvHolds(mac, es, rs, n);
    FifoInOrder(mac, es, rs, n);
    forall i, j | 0 <= i && j == i + 6 && j < |rs[n].fifo|
      ensures FifoTimes(rs[n])[j] - FifoTimes(rs[n])[i] > 60.0
    {
      SevenSpanMoreThanAMinute(rs[n], i);
    }
    SpanBoundsCount(FifoTimes(rs[n]), 6, a, 60.0);
  }

  /** More than three in a row take a new window: the counter was reset between the first and the fourth. */
  lemma FourSpanAReset(mac: Mac, es: seq<Event>, rs: seq<Run>, n: nat, i: nat) returns (k: nat)
    requires Trace(mac, es, rs) && n < |rs| && i + 3 < |rs[n].fifo|
    ensures k < |rs[n].resets| && rs[n].fifo[i].time <= rs[n].resets[k] <= rs[n].fifo[i + 3].time
  {
    RateInvHolds(mac, es, rs, n);
    var r := rs[n];
    assert InWindow(r, r.fifo[i]) && InWindow(r, r.fifo[i + 3]);
    k := r.fifo[i].epoch;
    WindowsSpread(r, k - 1, k);
    if k < r.fifo[i + 3].epoch - 1 {
      WindowsSpread(r, k, r.fifo[i + 3].epoch - 1);
    }
  }

  /** How many of the times lie in the half-open interval [a, b). */
  ghost function CountBefore(times: seq<real>, a: real, b: real): nat {
    if times == [] then 0
    else CountBefore(times[..|times| - 1], a, b) + if a <= times[|times| - 1] < b then 1 else 0
  }

  lemma {:induction false} CountBeforeConcat(x: seq<real>, y: seq<real>, a: real, b: real)
    ensures CountBefore(x + y, a, b) == CountBefore(x, a, b) + CountBefore(y, a, b)
    decreases |y|
  {
    if y == [] {
      assert x + y == x;
    } else {
      assert (x + y)[..|x + y| - 1] == x + y[..|y| - 1];
      CountBeforeConcat(x, y[..|y| - 1], a, b);
    }
  }

  lemma {:induction false} CountOlder(times: seq<real>, a: real, s: real, b: real)
    requires s <= b && forall i :: 0 <= i < |times| ==> times[i] < s
    ensures CountIn(times, a, b) == CountBefore(times, a, s)
    decreases |times|
  {
    if times != [] {
      CountOlder(times[..|times| - 1], a, s, b);
    }
  }

  lemma {:induction false} CountNewer(times: seq<real>, a: real, s: real, b: real)
    requires a <= s && forall i :: 0 <= i < |times| ==> s <= times[i] <= b
    ensures CountIn(times, a, b) == |times| && CountBefore(times, a, s) == 0
    decreases |times|
  {
    if times != [] {
      CountNewer(times[..|times| - 1], a, s, b);
    }
  }

  lemma CountSplits(times: seq<real>, n: nat, a: real, s: real, b: real)
    requires a <= s <= b && n <= |times|
    requires forall i :: 0 <= i < |times| - n ==> times[i] < s
    requires forall i :: |times| - n <= i < |times| ==> s <= times[i] <= b
    ensures CountIn(times, a, b) == n + CountBefore(times, a, s)
  {
    var older, newer := times[..|times| - n], times[|times| - n..];
    assert times == older + newer;
    hide CountIn, CountBefore;
    CountConcat(older, newer, a, b);
    CountBeforeConcat(older, newer, a, s);
    CountOlder(older, a, s, b);
    CountNewer(newer, a, s, b);
  }

  /** The FIFO switches of the present window are the last ones; the others came before it began. */
  lemma WindowOf(r: Run, i: nat)
    requires RateInv(r) && i < |r.fifo|
    ensures r.state.sec.switchesThisMinute <= |r.fifo| && r.fifo[i].time <= r.time
    ensures if i < |r.fifo| - r.state.sec.switchesThisMinute then r.fifo[i].time < r.state.sec.minuteStart
            else r.state.sec.minuteStart <= r.fifo[i].time
  {
    assert InWindow(r, r.fifo[i]);
    if r.fifo[i].epoch < |r.resets| {
      WindowsSpread(r, r.fifo[i].epoch - 1, |r.resets| - 1);
    }
  }

  lemma WindowSplits(r: Run)
    requires RateInv(r) && r.time <= r.state.sec.minuteStart + 60.0
    ensures CountIn(FifoTimes(r), r.time - 60.0, r.time) ==
            r.state.sec.switchesThisMinute + CountBefore(FifoTimes(r), r.time - 60.0, r.state.sec.minuteStart)
  {
    var n := r.state.sec.switchesThisMinute;
    assert n <= |r.fifo| && r.state.sec.minuteStart <= r.time;
    hide *;
    forall i | 0 <= i < |r.fifo|
      ensures r.fifo[i].time <= r.time
      ensures if i < |r.fifo| - n then r.fifo[i].time < r.state.sec.minuteStart else r.state.sec.minuteStart <= r.fifo[i].time
    {
      WindowOf(r, i);
    }
    FifoTimesAre(r);
    CountSplits(FifoTimes(r), n, r.time - 60.0, r.state.sec.minuteStart, r.time);
  }

  lemma FifoTimesAre(r: Run)
    ensures |FifoTimes(r)| == |r.fifo| && forall i :: 0 <= i < |r.fifo| ==> FifoTimes(r)[i] == r.fifo[i].time
  {
  }

  /**
   Exactly when a command is obeyed although its minute is full, as one could tell before the tick:
   together, the switches that the counter shows once its window has been looked at, and the FIFO
   switches of the last sixty seconds that came before this window, are three or more.
   */
  lemma MinuteOverrunIff(mac: Mac, es: seq<Event>, rs: seq<Run>, i: nat)
    requires Trace(mac, es, rs) && i < |es| && es[i].Ticked? && D.OnTick(mac, rs[i].state, es[i].tick).1.ByFifo?
    ensures var now := es[i].tick.now;
            var window := ResetMinute(rs[i].state.sec, now);
            && window.switchesThisMinute < 3
            && (CountIn(FifoTimes(rs[i + 1]), now - 60.0, now) > 3 <==>
                window.switchesThisMinute + CountBefore(FifoTimes(rs[i]), now - 60.0, window.minuteStart) >= 3)
  {
    hide Next, Enabled, D.OnTick;
    RateInvHolds(mac, es, rs, i + 1);
    StepOf(mac, es, rs, i);
    hide RateInv, Trace, CountIn, CountBefore, FifoTimes;
    FifoGrows(mac, rs[i], es[i].tick);
    CountsOneMore(rs[i], rs[i + 1]);
  }

  lemma WindowAfterTick(mac: Mac, d: D.State, t: D.Tick)
    requires D.OnTick(mac, d, t).1.ByFifo?
    ensures var sec, window := D.OnTick(mac, d, t).0.sec, ResetMinute(d.sec, t.now);
            sec.minuteStart == window.minuteStart && sec.switchesThisMinute == window.switchesThisMinute + 1
  {
    hide Verify, LegacyClass;
  }

  /** What an obeyed command does to the run. */
  lemma FifoGrows(mac: Mac, r: Run, t: D.Tick)
    requires Enabled(r, Ticked(t)) && D.OnTick(mac, r.state, t).1.ByFifo?
    ensures var r' := Next(mac, r, Ticked(t));
            && r'.time == t.now && FifoTimes(r') == FifoTimes(r) + [t.now]
            && r'.state.sec.switchesThisMinute == ResetMinute(r.state.sec, t.now).switchesThisMinute + 1 <= 3
            && r'.state.sec.minuteStart == ResetMinute(r.state.sec, t.now).minuteStart
            && t.now <= r'.state.sec.minuteStart + 60.0
  {
    TickEffect(mac, r.state, t);
    WindowAfterTick(mac, r.state, t);
    hide D.OnTick;
  }

  lemma CountsOneMore(r: Run, r': Run)
    requires RateInv(r') && r'.time <= r'.state.sec.minuteStart + 60.0
    requires FifoTimes(r') == FifoTimes(r) + [r'.time]
    ensures CountIn(FifoTimes(r'), r'.time - 60.0, r'.time) ==
            r'.state.sec.switchesThisMinute + CountBefore(FifoTimes(r), r'.time - 60.0, r'.state.sec.minuteStart)
  {
    WindowSplits(r');
    hide RateInv, FifoTimes;
    CountBeforeConcat(FifoTimes(r), [r'.time], r'.time - 60.0, r'.state.sec.minuteStart);
    OneMoreIsNotBefore(r'.time, r'.time - 60.0, r'.state.sec.minuteStart);
  }

  lemma OneMoreIsNotBefore(now: real, a: real, s: real)
    requires s <= now
    ensures CountBefore([now], a, s) == 0
  {
  }

  lemma LegacyCommand()
    ensures LegacyClass("CLASS_S") == Some(ClassS)
  {
    var s := "CLASS_S";
    PlainText(s);
    hide CString;
    assert MatchesAt(s, "CLASS_S", 0);
    forall i: nat | i <= |s|
      ensures !MatchesAt(s, "CLASS_N", i)
    {
      assert i == 0 ==> s[0..7] == s && s[6] != "CLASS_N"[6];
    }
  }

  /** The command that the daemon obeys at time now: with a token, a printed one with the given nonce. */
  ghost function CommandTick(mac: Mac, sec: Sec, nonce: u64, now: real): Event {
    Ticked(D.Tick(now, Some(if sec.tokenLoaded then Message(mac, sec.token, ClassS, nonce) else "CLASS_S"), ClassS))
  }

  /** From r to r' a command with this nonce was obeyed at time now. */
  ghost predicate ObeyedOne(r: Run, r': Run, nonce: u64, now: real) {
    var sec, sec', reset := r.state.sec, r'.state.sec, now - r.state.sec.minuteStart > 60.0;
    && r'.time == now && sec'.lastSwitch == now && sec'.lastNonce <= nonce
    && sec'.token == sec.token && sec'.tokenLoaded == sec.tokenLoaded
    && sec'.minuteStart == (if reset then now else sec.minuteStart)
    && sec'.switchesThisMinute == (if reset then 1 else sec.switchesThisMinute + 1)
    && |r'.fifo| == |r.fifo| + 1 && r'.fifo[..|r.fifo|] == r.fifo && r'.fifo[|r.fifo|].time == now
  }

  lemma CommandApplies(mac: Mac, r: Run, sec: Sec, nonce: u64, now: real)
    requires sec.token == r.state.sec.token && sec.tokenLoaded == r.state.sec.tokenLoaded
    requires Enabled(r, CommandTick(mac, sec, nonce, now)) && r.state.sec.lastNonce < nonce
    requires now - r.state.sec.lastSwitch >= 10.0
    requires now - r.state.sec.minuteStart > 60.0 || r.state.sec.switchesThisMinute < 3
    ensures ObeyedOne(r, Next(mac, r, CommandTick(mac, sec, nonce, now)), nonce, now)
  {
    LegacyCommand();
    CommandRoundTrip(mac, sec.token, ClassS, nonce);
    hide Verify, Message, LegacyClass;
  }

  lemma TraceStarts(mac: Mac, r: Run)
    requires Starts(r)
    ensures Trace(mac, [], [r])
  {
  }

  lemma ExtendTrace(mac: Mac, es: seq<Event>, rs: seq<Run>, e: Event) returns (es': seq<Event>, rs': seq<Run>, r': Run)
    requires Trace(mac, es, rs) && Enabled(rs[|es|], e)
    ensures Trace(mac, es', rs') && es' == es + [e] && rs' == rs + [r'] && r' == Next(mac, rs[|es|], e)
    ensures |es'| == |es| + 1 && |rs'| == |es'| + 1 && rs'[|es'|] == r' && rs'[0] == rs[0]
  {
    r' := Next(mac, rs[|es|], e);
    es', rs' := es + [e], rs + [r'];
    hide Next, Enabled, Starts;
    forall i | 0 <= i < |es'|
      ensures Enabled(rs'[i], es'[i]) && rs'[i + 1] == Next(mac, rs'[i], es'[i])
    {
      if i < |es| {
        assert rs'[i] == rs[i] && es'[i] == es[i] && rs'[i + 1] == rs[i + 1];
      }
    }
  }

  /** After n commands, at 40, 50, ... seconds after the start, of which the fourth falls into a new window. */
  ghost predicate Obeyed(start: Run, r: Run, n: nat) {
    var sec, t := r.state.sec, start.time;
    && |r.fifo| == n && (forall i :: 0 <= i < n ==> r.fifo[i].time == t + 40.0 + 10.0 * i as real)
    && sec.token == start.state.sec.token && sec.tokenLoaded == start.state.sec.tokenLoaded && sec.lastNonce <= n
    && r.time == sec.lastSwitch == t + 30.0 + 10.0 * n as real
    && sec.switchesThisMinute == (if n <= 3 then n else n - 3)
    && sec.minuteStart == if n <= 3 then t else t + 70.0
  }

  lemma ObeyedGrows(start: Run, r: Run, r': Run, n: nat)
    requires Starts(start) && n < 6 && if n == 0 then r == start else Obeyed(start, r, n)
    requires ObeyedOne(r, r', n + 1, start.time + 40.0 + 10.0 * n as real)
    ensures Obeyed(start, r', n + 1)
  {
    forall i | 0 <= i < n
      ensures r'.fifo[i].time == start.time + 40.0 + 10.0 * i as real
    {
      assert r'.fifo[i] == r'.fifo[..n][i];
    }
  }

  lemma ObeysNext(mac: Mac, start: Run, r: Run, n: nat)
    requires Starts(start) && n < 6 && if n == 0 then r == start else Obeyed(start, r, n)
    ensures var e := CommandTick(mac, start.state.sec, n + 1, start.time + 40.0 + 10.0 * n as real);
            Enabled(r, e) && Obeyed(start, Next(mac, r, e), n + 1)
  {
    var now := start.time + 40.0 + 10.0 * n as real;
    hide Next, ObeyedOne, D.OnTick;
    CommandApplies(mac, r, start.state.sec, n + 1, now);
    ObeyedGrows(start, r, Next(mac, r, CommandTick(mac, start.state.sec, n + 1, now)), n);
  }

  lemma {:induction false} ObeysInARow(mac: Mac, start: Run, n: nat) returns (es: seq<Event>, rs: seq<Run>, r: Run)
    requires Starts(start) && n <= 6
    ensures Trace(mac, es, rs) && |es| == n && |rs| == n + 1 && rs[0] == start && rs[n] == r
    ensures if n == 0 then r == start else Obeyed(start, r, n)
    decreases n
  {
    hide *;
    if n == 0 {
      es, rs, r := [], [start], start;
      TraceStarts(mac, start);
    } else {
      es, rs, r := ObeysInARow(mac, start, n - 1);
      ObeysNext(mac, start, r, n - 1);
      es, rs, r := ExtendTrace(mac, es, rs, CommandTick(mac, start.state.sec, n, start.time + 40.0 + 10.0 * (n - 1) as real));
    }
  }

  /**
   The promised cap of three switches per minute does not hold for every minute: whenever the daemon
   starts, with or without a token, six commands ten seconds apart are all obeyed when the counter's
   window ends after the third.
   */
  lemma SixInFiftySeconds(mac: Mac, start: Run) returns (es: seq<Event>, rs: seq<Run>)
    requires Starts(start)
    ensures Trace(mac, es, rs) && rs[0] == start
    ensures var f := rs[|es|].fifo; |f| == 6 && f[0].time == start.time + 40.0 && f[5].time == start.time + 90.0
  {
    var last;
    es, rs, last := ObeysInARow(mac, start, 6);
  }

  /** Nor is the cap shared: how many FIFO switches were counted makes no difference to the engine. */
  lemma EngineIgnoresMinuteCap(mac: Mac, d: D.State, t: D.Tick, n: nat)
    requires t.input == None
    ensures var d' := d.(sec := d.sec.(switchesThisMinute := n));
            && D.OnTick(mac, d', t).1 == D.OnTick(mac, d, t).1
            && D.OnTick(mac, d', t).0.ifaces == D.OnTick(mac, d, t).0.ifaces
  {
  }

  // ---- commands are obeyed at most once ----

  lemma TokenStays(mac: Mac, d: D.State, t: D.Tick)
    ensures var sec := D.OnTick(mac, d, t).0.sec; sec.token == d.sec.token && sec.tokenLoaded == d.sec.tokenLoaded
  {
  }

  lemma NonceStep(mac: Mac, r: Run, e: Event)
    requires Enabled(r, e)
    ensures var r' := Next(mac, r, e);
            && r'.state.sec.lastNonce >= r.state.sec.lastNonce
            && r'.state.sec.token == r.state.sec.token && r'.state.sec.tokenLoaded == r.state.sec.tokenLoaded
            && r'.nonces == if r'.state.sec.lastNonce > r.state.sec.lastNonce
                            then r.nonces + [r'.state.sec.lastNonce] else r.nonces
  {
    if e.Ticked? {
      TickEffect(mac, r.state, e.tick);
      TokenStays(mac, r.state, e.tick);
    }
    hide D.OnTick;
  }

  lemma {:induction false} NonceNeverFalls(mac: Mac, es: seq<Event>, rs: seq<Run>, i: nat, j: nat)
    requires Trace(mac, es, rs) && i <= j < |rs|
    ensures rs[i].state.sec.lastNonce <= rs[j].state.sec.lastNonce
    ensures rs[i].state.sec.token == rs[j].state.sec.token && rs[i].state.sec.tokenLoaded == rs[j].state.sec.tokenLoaded
    decreases j
  {
    hide Next, Enabled, Starts;
    if i < j {
      NonceNeverFalls(mac, es, rs, i, j - 1);
      var r, e := rs[j - 1], es[j - 1];
      assert Enabled(r, e) && rs[j - 1 + 1] == Next(mac, r, e);
      NonceStep(mac, r, e);
    }
  }

  /** The nonces let through over a run strictly increase. */
  lemma {:induction false} NoncesIncrease(mac: Mac, es: seq<Event>, rs: seq<Run>, n: nat)
    requires Trace(mac, es, rs) && n < |rs|
    ensures forall i, j :: 0 <= i < j < |rs[n].nonces| ==> rs[n].nonces[i] < rs[n].nonces[j]
    ensures rs[n].state.sec.lastNonce == if rs[n].nonces == [] then 0 else rs[n].nonces[|rs[n].nonces| - 1]
    decreases n
  {
    hide Next, Enabled;
    if n > 0 {
      NoncesIncrease(mac, es, rs, n - 1);
      NonceStep(mac, rs[n - 1], es[n - 1]);
    }
  }

  /** What the FIFO check of tick i decides. */
  ghost function Verdict(mac: Mac, es: seq<Event>, rs: seq<Run>, i: nat): Outcome
    requires i < |es| < |rs| && es[i].Ticked?
  {
    Check(mac, rs[i].state.sec, es[i].tick.input, es[i].tick.now).1
  }

  /**
   With a token, a message that passed the replay filter once, whether it was then applied or
   refused by the rate limiter, is taken for a replay at every later tick.
   */
  lemma PassedMessageIsSpent(mac: Mac, es: seq<Event>, rs: seq<Run>, i: nat, j: nat)
    requires Trace(mac, es, rs) && i < j < |es| && es[i].Ticked? && es[j].Ticked?
    requires es[i].tick.input == es[j].tick.input && rs[i].state.sec.tokenLoaded
    requires Verdict(mac, es, rs, i).Applied? || Verdict(mac, es, rs, i).Limited?
    ensures Verdict(mac, es, rs, j) == Replayed
  {
    NonceNeverFalls(mac, es, rs, i + 1, j);
    NonceNeverFalls(mac, es, rs, i, j);
  }

  // ---- all classes agree after a switch ----

  lemma NewDagAgrees(ifaces: seq<Iface>, i: nat, j: nat, cls: Class)
    requires Uniform(ifaces, cls) && i < |ifaces|
    ensures Uniform(D.AddDag(ifaces, i, j), cls)
  {
    assert IfaceIs(ifaces[i], cls);
    forall k | 0 <= k < |ifaces|
      ensures IfaceIs(D.AddDag(ifaces, i, j)[k], cls)
    {
      assert IfaceIs(ifaces[k], cls);
    }
  }

  /** From the first switch on, every interface and every DAG, old or new, has the class last switched to. */
  lemma {:induction false} ClassesAgree(mac: Mac, es: seq<Event>, rs: seq<Run>, n: nat)
    requires Trace(mac, es, rs) && n < |rs|
    ensures rs[n].switches != [] <==> rs[n].lastClass.Some?
    ensures rs[n].lastClass.Some? ==> Uniform(rs[n].state.ifaces, rs[n].lastClass.value)
    decreases n
  {
    if n > 0 {
      ClassesAgree(mac, es, rs, n - 1);
      var r := rs[n - 1];
      match es[n - 1]
      case DagCreated(i, j) =>
        if r.lastClass.Some? {
          NewDagAgrees(r.state.ifaces, i, j, r.lastClass.value);
        }
      case Ticked(t) =>
        hide Uniform, Check, H.Step;
    }
  }

  lemma {:induction false} UniformFirst(rpls: seq<seq<Class>>, cls: Class)
    requires forall i :: 0 <= i < |rpls| ==> AllAre(rpls[i], cls)
    ensures FirstOf(rpls).Some? ==> FirstOf(rpls).value == cls
    ensures FirstOf(rpls).None? <==> forall i :: 0 <= i < |rpls| ==> rpls[i] == []
    decreases |rpls|
  {
    if rpls != [] {
      assert AllAre(rpls[0], cls);
      UniformFirst(rpls[1..], cls);
    }
  }

  /** Some interface has a DAG. */
  ghost predicate HasDag(ifaces: seq<Iface>) {
    exists i, j :: 0 <= i < |ifaces| && 0 <= j < |ifaces[i].rpls| && ifaces[i].rpls[j] != []
  }

  lemma {:induction false} UniformCurrent(ifaces: seq<Iface>, cls: Class)
    requires Uniform(ifaces, cls) && HasDag(ifaces)
    ensures CurrentClass(ifaces) == cls
    decreases |ifaces|
  {
    assert IfaceIs(ifaces[0], cls);
    UniformFirst(ifaces[0].rpls, cls);
    if FirstOf(ifaces[0].rpls).None? {
      assert Uniform(ifaces[1..], cls) by {
        assert forall i :: 0 <= i < |ifaces| ==> IfaceIs(ifaces[i], cls);
      }
      var i, j :| 0 <= i < |ifaces| && 0 <= j < |ifaces[i].rpls| && ifaces[i].rpls[j] != [];
      assert ifaces[1..][i - 1] == ifaces[i];
      UniformCurrent(ifaces[1..], cls);
    }
  }

  /** The engine always sees the class last switched to, from either source, as soon as there is a DAG to look at. */
  lemma EngineSeesLastSwitch(mac: Mac, es: seq<Event>, rs: seq<Run>, n: nat)
    requires Trace(mac, es, rs) && n < |rs| && rs[n].lastClass.Some? && HasDag(rs[n].state.ifaces)
    ensures CurrentClass(rs[n].state.ifaces) == rs[n].lastClass.value
  {
    ClassesAgree(mac, es, rs, n);
    UniformCurrent(rs[n].state.ifaces, rs[n].lastClass.value);
  }

  // ---- what it takes for the engine to switch ----

  /** The engine is asked in every tick in which the FIFO applied nothing. */
  ghost predicate Asked(mac: Mac, es: seq<Event>, rs: seq<Run>, i: nat)
    requires i < |es| < |rs|
  {
    es[i].Ticked? && rs[i].state.adaptive && !Verdict(mac, es, rs, i).Applied?
  }

  /** The recommendations asked for in the first n events. */
  ghost function Calls(mac: Mac, es: seq<Event>, rs: seq<Run>, n: nat): seq<H.Call>
    requires n <= |es| < |rs|
  {
    if n == 0 then []
    else Calls(mac, es, rs, n - 1)
         + if Asked(mac, es, rs, n - 1)
         then [H.Call(es[n - 1].tick.decided, CurrentClass(rs[n - 1].state.ifaces))] else []
  }

  lemma HysteresisStep(mac: Mac, es: seq<Event>, rs: seq<Run>, n: nat)
    requires n < |es| < |rs| && Enabled(rs[n], es[n])
    ensures Next(mac, rs[n], es[n]).state.hyst ==
            if Asked(mac, es, rs, n)
            then H.Step(rs[n].state.hyst, es[n].tick.decided, CurrentClass(rs[n].state.ifaces)).0
            else rs[n].state.hyst
  {
    hide Check, CurrentClass, H.Step;
  }

  lemma {:induction false} HysteresisFollowsCalls(mac: Mac, es: seq<Event>, rs: seq<Run>, n: nat)
    requires Trace(mac, es, rs) && n <= |es|
    ensures rs[n].state.hyst == H.After(Calls(mac, es, rs, n))
    decreases n
  {
    if n > 0 {
      HysteresisFollowsCalls(mac, es, rs, n - 1);
      HysteresisStep(mac, es, rs, n - 1);
      var calls := Calls(mac, es, rs, n - 1);
      hide Next, CurrentClass, H.Step;
      if Asked(mac, es, rs, n - 1) {
        var call := H.Call(es[n - 1].tick.decided, CurrentClass(rs[n - 1].state.ifaces));
        assert (calls + [call])[..|calls|] == calls;
      } else {
        assert calls + [] == calls;
      }
    }
  }

  /**
   If tick i makes the engine switch, the last three times it was asked it computed that very class
   and the node was in the other one, however many FIFO commands came in between.
   */
  lemma EngineSwitchNeedsThreeCalls(mac: Mac, es: seq<Event>, rs: seq<Run>, i: nat, cls: Class)
    requires Trace(mac, es, rs) && i < |es| && es[i].Ticked?
    requires D.OnTick(mac, rs[i].state, es[i].tick).1 == D.ByEngine(cls)
    ensures var calls := Calls(mac, es, rs, i + 1);
            |calls| >= 3 && forall k :: |calls| - 3 <= k < |calls| ==> calls[k].decided == cls && calls[k].current != cls
  {
    HysteresisFollowsCalls(mac, es, rs, i);
    EngineSwitchIsReturned(mac, rs[i].state, es[i].tick, cls);
    var calls, call := Calls(mac, es, rs, i), H.Call(es[i].tick.decided, CurrentClass(rs[i].state.ifaces));
    hide D.OnTick, Next, Check, CurrentClass, H.Step;
    assert Asked(mac, es, rs, i) && Calls(mac, es, rs, i + 1) == calls + [call];
    hide Calls, H.After, Trace;
    assert (calls + [call])[..|calls|] == calls;
    H.ThreeCallsAgree(calls + [call], cls);
  }

  lemma EngineSwitchIsReturned(mac: Mac, d: D.State, t: D.Tick, cls: Class)
    requires D.OnTick(mac, d, t).1 == D.ByEngine(cls)
    ensures d.adaptive && !Check(mac, d.sec, t.input, t.now).1.Applied?
    ensures H.Step(d.hyst, t.decided, CurrentClass(d.ifaces)).1 == Some(cls)
  {
  }

  lemma EngineTick(mac: Mac, d: D.State, t: D.Tick, cls: Class)
    ensures D.OnTick(mac, d, t).1 == D.ByEngine(cls) <==>
            && d.adaptive && !Check(mac, d.sec, t.input, t.now).1.Applied?
            && H.Step(d.hyst, t.decided, CurrentClass(d.ifaces)).1 == Some(cls)
            && t.now - d.sec.lastSwitch >= 10.0
  {
    CheckEffect(mac, d.sec, t.input, t.now);
    hide Check, CurrentClass, H.Step;
  }

  /**
   Exactly when the engine switches: it is asked, the answer ends a multiple of three like answers in
   a row, counted in calls and not in evaluations, and the last switch is ten seconds back.
   */
  lemma EngineSwitchIff(mac: Mac, es: seq<Event>, rs: seq<Run>, i: nat, cls: Class)
    requires Trace(mac, es, rs) && i < |es| && es[i].Ticked?
    ensures D.OnTick(mac, rs[i].state, es[i].tick).1 == D.ByEngine(cls) <==>
            && Asked(mac, es, rs, i) && es[i].tick.decided == cls
            && H.Streak(Calls(mac, es, rs, i + 1)) > 0
            && H.Streak(Calls(mac, es, rs, i + 1)) % 3 == 0
            && es[i].tick.now - rs[i].state.sec.lastSwitch >= 10.0
  {
    assert |rs| == |es| + 1;
    hide Trace, Next, D.OnTick, H.Step, H.Streak, H.After, CurrentClass, Check;
    HysteresisFollowsCalls(mac, es, rs, i);
    EngineTick(mac, rs[i].state, es[i].tick, cls);
    if Asked(mac, es, rs, i) {
      var calls, call := Calls(mac, es, rs, i), H.Call(es[i].tick.decided, CurrentClass(rs[i].state.ifaces));
      assert Calls(mac, es, rs, i + 1) == calls + [call];
      assert (calls + [call])[..|calls|] == calls;
      hide Calls;
      H.RecommendsIff(calls + [call]);
    }
  }
}
