/**
 How long a steady recommendation can be held up: a recommendation that the rate limit defers is
 forgotten and must be earned again, and still the switch comes within twelve ticks.
 */
module BoundedResponse {
  import opened Wrappers
  import opened Rpl
  import opened Command
  import opened FifoSec
  import D = Daemon
  import H = Hysteresis
  import S = SwitchRuns

  const TICKS := 12

  /** The state after the first n ticks. */
  ghost function At(mac: Mac, d: D.State, ts: seq<D.Tick>, n: nat): D.State
    requires n <= |ts|
  {
    if n == 0 then d else D.OnTick(mac, At(mac, d, ts, n - 1), ts[n - 1]).0
  }

  /** What tick n, counted from zero, applies. */
  ghost function Switch(mac: Mac, d: D.State, ts: seq<D.Tick>, n: nat): D.Switched
    requires n < |ts|
  {
    D.OnTick(mac, At(mac, d, ts, n), ts[n]).1
  }

  /** A state the daemon can be in after a tick at time last: switches lie in the past, the counter is below three. */
  ghost predicate Reachable(d: D.State, last: real) {
    d.adaptive && d.sec.lastSwitch <= last && d.hyst.counter < 3
  }

  /** Ticks that are at least a second apart and always compute class r. */
  ghost predicate Steady(ts: seq<D.Tick>, last: real, r: Class) {
    && (forall i :: 0 <= i < |ts| ==> ts[i].decided == r)
    && (ts != [] ==> ts[0].now >= last + 1.0)
    && forall i :: 0 <= i < |ts| - 1 ==> ts[i + 1].now >= ts[i].now + 1.0
  }

  ghost predicate NoCommandApplied(mac: Mac, d: D.State, ts: seq<D.Tick>) {
    forall n: nat :: n < |ts| ==> !Switch(mac, d, ts, n).ByFifo?
  }

  lemma {:induction false} TicksTakeTime(ts: seq<D.Tick>, last: real, r: Class, n: nat)
    requires Steady(ts, last, r) && n < |ts|
    ensures ts[n].now >= last + (n + 1) as real
    decreases n
  {
    if n > 0 {
      TicksTakeTime(ts, last, r, n - 1);
    }
  }

  /** Where the counter stands on the way to r. */
  function Progress(d: D.State, r: Class): nat {
    if d.hyst.pending == r then d.hyst.counter else 0
  }

  predicate Completes(d: D.State, r: Class) {
    Progress(d, r) + 1 == 3
  }

  /** From d to d' no switch was made, and the counter moved on or started over. */
  ghost predicate Advanced(d: D.State, d': D.State, r: Class) {
    && d'.ifaces == d.ifaces && d'.sec.lastSwitch == d.sec.lastSwitch && d'.adaptive
    && d'.hyst == H.Hyst(if Completes(d, r) then 0 else Progress(d, r) + 1, r)
  }

  /** One tick without a FIFO switch either moves the counter on or makes the switch. */
  lemma TickProgress(mac: Mac, d: D.State, t: D.Tick, r: Class)
    requires d.adaptive && d.hyst.counter < 3 && t.decided == r && CurrentClass(d.ifaces) != r
    requires !D.OnTick(mac, d, t).1.ByFifo?
    ensures var (d', s) := D.OnTick(mac, d, t);
            if Completes(d, r) && t.now - d.sec.lastSwitch >= 10.0 then s == D.ByEngine(r)
            else s == D.Nothing && Advanced(d, d', r)
  {
    FifoKeepsTimestamp(mac, d, t);
    hide Check, CurrentClass;
  }

  lemma FifoKeepsTimestamp(mac: Mac, d: D.State, t: D.Tick)
    ensures var (sec, outcome) := Check(mac, d.sec, t.input, t.now);
            !outcome.Applied? ==> sec.lastSwitch == d.sec.lastSwitch
  {
  }

  /** As long as nothing was switched, the counter advances modulo three and everything else stands still. */
  ghost predicate Waiting(d: D.State, d': D.State, r: Class, n: nat) {
    && d'.ifaces == d.ifaces && d'.sec.lastSwitch == d.sec.lastSwitch && d'.adaptive
    && d'.hyst.counter < 3 && Progress(d', r) == (Progress(d, r) + n) % 3
  }

  lemma WaitingAdvances(d: D.State, e: D.State, e': D.State, r: Class, n: nat)
    requires Waiting(d, e, r, n) && Advanced(e, e', r)
    ensures Waiting(d, e', r, n + 1)
  {
  }

  lemma {:induction false} WaitsUntilSwitch(mac: Mac, d: D.State, ts: seq<D.Tick>, last: real, r: Class, n: nat)
    requires Reachable(d, last) && Steady(ts, last, r) && n <= |ts| && CurrentClass(d.ifaces) != r
    requires NoCommandApplied(mac, d, ts)
    requires forall k: nat :: k < n ==> Switch(mac, d, ts, k) != D.ByEngine(r)
    ensures Waiting(d, At(mac, d, ts, n), r, n)
    decreases n
  {
    hide D.OnTick, CurrentClass, Advanced;
    if n > 0 {
      WaitsUntilSwitch(mac, d, ts, last, r, n - 1);
      var e := At(mac, d, ts, n - 1);
      assert !Switch(mac, d, ts, n - 1).ByFifo? && Switch(mac, d, ts, n - 1) != D.ByEngine(r);
      TickProgress(mac, e, ts[n - 1], r);
      WaitingAdvances(d, e, At(mac, d, ts, n), r, n - 1);
      hide Waiting;
    }
  }

  /** Once ten seconds have passed, a tick that completes a group of three switches. */
  lemma LateCompletionSwitches(mac: Mac, d: D.State, ts: seq<D.Tick>, last: real, r: Class, k: nat)
    requires Reachable(d, last) && Steady(ts, last, r) && 9 <= k < |ts| && CurrentClass(d.ifaces) != r
    requires !Switch(mac, d, ts, k).ByFifo? && Waiting(d, At(mac, d, ts, k), r, k)
    requires (Progress(d, r) + k + 1) % 3 == 0
    ensures Switch(mac, d, ts, k) == D.ByEngine(r)
  {
    TicksTakeTime(ts, last, r, k);
    var e := At(mac, d, ts, k);
    assert Completes(e, r);
    hide D.OnTick, CurrentClass;
    TickProgress(mac, e, ts[k], r);
  }

  /**
   If every tick computes class r while the first DAG has the other one, and no command interferes,
   then whatever the engine was doing before one of the next twelve ticks applies the switch to r.
   */
  lemma SwitchComesWithinTwelveTicks(mac: Mac, d: D.State, ts: seq<D.Tick>, last: real, r: Class) returns (k: nat)
    requires Reachable(d, last) && Steady(ts, last, r) && |ts| >= TICKS && CurrentClass(d.ifaces) != r
    requires NoCommandApplied(mac, d, ts)
    ensures k < TICKS && Switch(mac, d, ts, k) == D.ByEngine(r)
  {
    hide D.OnTick, CurrentClass, Steady;
    if k0: nat :| k0 < TICKS && Switch(mac, d, ts, k0) == D.ByEngine(r) {
      k := k0;
    } else {
      // Of the tenth, eleventh and twelfth tick, the one that completes a group of three.
      k := 11 - Progress(d, r);
      WaitsUntilSwitch(mac, d, ts, last, r, k);
      assert !Switch(mac, d, ts, k).ByFifo?;
      LateCompletionSwitches(mac, d, ts, last, r, k);
    }
  }

  /** Eleven are not always enough: right after a switch, with ticks exactly a second apart, nothing happens before the twelfth. */
  lemma {:induction false} ElevenTicksMayNotSuffice(mac: Mac, d: D.State, ts: seq<D.Tick>, last: real, r: Class, n: nat)
    requires Reachable(d, last) && d.sec.lastSwitch == last && d.hyst.counter == 0 && CurrentClass(d.ifaces) != r
    requires Steady(ts, last, r) && n < |ts| && n < 11
    requires forall i :: 0 <= i < |ts| ==> ts[i].now == last + (i + 1) as real && ts[i].input == None
    ensures Waiting(d, At(mac, d, ts, n), r, n) && Switch(mac, d, ts, n) == D.Nothing
    decreases n
  {
    hide CurrentClass, Advanced, Check, D.OnTick;
    if n > 0 {
      ElevenTicksMayNotSuffice(mac, d, ts, last, r, n - 1);
      var e := At(mac, d, ts, n - 1);
      QuietTickProgress(mac, e, ts[n - 1], r);
      WaitingAdvances(d, e, At(mac, d, ts, n), r, n - 1);
    }
    QuietTickProgress(mac, At(mac, d, ts, n), ts[n], r);
  }

  lemma QuietTickProgress(mac: Mac, d: D.State, t: D.Tick, r: Class)
    requires d.adaptive && d.hyst.counter < 3 && t.decided == r && CurrentClass(d.ifaces) != r
    requires t.input == None && !(Completes(d, r) && t.now - d.sec.lastSwitch >= 10.0)
    ensures var (d', s) := D.OnTick(mac, d, t); s == D.Nothing && Advanced(d, d', r)
  {
    hide CurrentClass;
    TickProgress(mac, d, t, r);
  }

  /** Every state of a run of the daemon is one this holds of. */
  lemma RunsAreReachable(mac: Mac, es: seq<S.Event>, rs: seq<S.Run>, n: nat)
    requires S.Trace(mac, es, rs) && n <= |es| && rs[n].state.adaptive
    ensures Reachable(rs[n].state, rs[n].time)
  {
    S.RateInvHolds(mac, es, rs, n);
    S.HysteresisFollowsCalls(mac, es, rs, n);
    H.CounterIsStreak(S.Calls(mac, es, rs, n));
  }
}
