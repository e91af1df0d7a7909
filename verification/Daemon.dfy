/** The one-second callback of the daemon (rpld_new.c): the FIFO first, then the adaptive engine. */
module Daemon {
  import opened Wrappers
  import opened Rpl
  import opened Command
  import opened FifoSec
  import H = Hysteresis
  import M = Metrics
  import A = AdaptiveEngine

  /** What the callback reads and writes; the metrics only matter through the class they recommend. */
  datatype State = State(sec: Sec, hyst: H.Hyst, ifaces: seq<Iface>, adaptive: bool)

  datatype Tick = Tick(now: real, input: Option<string>, decided: Class)

  /** Which switch a tick applied, if any. */
  datatype Switched = Nothing | ByFifo(cls: Class) | ByEngine(cls: Class)

  function OnTick(mac: Mac, d: State, t: Tick): (State, Switched) {
    var (sec, outcome) := Check(mac, d.sec, t.input, t.now);
    if outcome.Applied? then
      (d.(sec := sec, ifaces := SetAll(d.ifaces, outcome.cls)), ByFifo(outcome.cls))
    else if !d.adaptive then (d.(sec := sec), Nothing)
    else
      var (hyst, rec) := H.Step(d.hyst, t.decided, CurrentClass(d.ifaces));
      if rec.None? || TooSoon(sec, t.now) then (d.(sec := sec, hyst := hyst), Nothing)
      else (State(sec.(lastSwitch := t.now), hyst, SetAll(d.ifaces, rec.value), true), ByEngine(rec.value))
  }

  /** A DIO of an unknown DODAG creates a DAG on interface i with the interface's class (process_dio). */
  function AddDag(ifaces: seq<Iface>, i: nat, j: nat): seq<Iface>
    requires i < |ifaces|
  {
    var rpls := ifaces[i].rpls;
    var cls := ifaces[i].nodeClass;
    ifaces[i := ifaces[i].(rpls := if j < |rpls| then rpls[j := rpls[j] + [cls]] else rpls + [[cls]])]
  }

  class Daemon {
    const fifo: FifoGuard
    const engine: A.Engine
    const table: InterfaceTable
    const adaptiveEnabled: bool

    ghost function Abs(): State
      reads fifo, engine, table
    {
      State(fifo.Abs(), engine.Hyst(), table.ifaces, adaptiveEnabled)
    }

    constructor (fifo: FifoGuard, engine: A.Engine, table: InterfaceTable, adaptiveEnabled: bool)
      ensures this.fifo == fifo && this.engine == engine && this.table == table
      ensures this.adaptiveEnabled == adaptiveEnabled
    {
      this.fifo, this.engine, this.table, this.adaptiveEnabled := fifo, engine, table, adaptiveEnabled;
    }

    /** hymrpl_periodic_cb. */
    method PeriodicTick(mac: Mac, input: Option<string>, now: real)
      modifies fifo, engine`lastScore, engine`hysteresisCounter, engine`pendingClass, table
      ensures var decided := M.Decision(engine.pdr, engine.energyEma, engine.stability);
              Abs() == OnTick(mac, old(Abs()), Tick(now, input, decided)).0
    {
      var applied := fifo.CheckFifo(mac, input, now, table);
      if applied.Some? || !adaptiveEnabled {
        return;
      }
      var currentClass := table.GetCurrentClass();
      var rec := engine.GetRecommendation(currentClass);
      if rec.None? {
        return;
      }
      if now - fifo.lastSwitchTime < MIN_SWITCH_INTERVAL {
        return;
      }
      table.SetAllClasses(rec.value);
      fifo.lastSwitchTime := now;
    }
  }
}
