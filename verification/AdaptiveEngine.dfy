/**
 struct hymrpl_adaptive and its operations (hymrpl_adaptive.c), proved against the histories the
 struct does not keep: all delivery outcomes and all parent changes ever recorded.
 */
module AdaptiveEngine {
  import opened Wrappers
  import opened Rpl
  import opened Metrics
  import H = Hysteresis

  class Engine {
    var pdr: real
    var energyPct: real
    var energyEma: real
    const pdrWindow: array<nat>
    var pdrIdx: int
    var pdrCount: int
    const changeTimes: array<real>
    var changeCount: int
    var stability: real
    var lastScore: real
    var hysteresisCounter: nat
    var pendingClass: Class
    var lastParentChange: real
    var lastParentAddr: Option<Addr>

    ghost var outcomes: seq<bool>
    ghost var changes: seq<real>

    /** The buffers agree with the histories, and the delivery ratio is that of the latest twenty outcomes. */
    ghost predicate Valid()
      reads this, pdrWindow, changeTimes
    {
      && Ring(pdrWindow[..], pdrIdx, pdrCount, outcomes)
      && pdr == PdrOf(outcomes)
      && changeTimes.Length == STABILITY_NMAX + 1 && 0 <= changeCount <= changeTimes.Length
      && changeTimes[..changeCount] == Latest(changes, STABILITY_NMAX + 1)
      && Sorted(changes)
    }

    ghost function Hyst(): H.Hyst
      reads this
    {
      H.Hyst(hysteresisCounter, pendingClass)
    }

    constructor ()
      ensures Valid() && outcomes == [] && changes == [] && Hyst() == H.Hyst(0, ClassS)
      ensures pdr == 100.0 && energyPct == 100.0 && energyEma == 1.0 && stability == 1.0
      ensures fresh(pdrWindow) && fresh(changeTimes)
    {
      pdr, energyPct, energyEma, stability, lastScore := 100.0, 100.0, 1.0, 1.0, 1.0;
      pdrWindow := new nat[PDR_WINDOW](_ => 1);
      changeTimes := new real[STABILITY_NMAX + 1](_ => 0.0);
      pdrIdx, pdrCount, changeCount := 0, 0, 0;
      hysteresisCounter, pendingClass := 0, ClassS;
      lastParentChange, lastParentAddr := 0.0, None;
      outcomes, changes := [], [];
    }

    method ComputePdr()
      requires Ring(pdrWindow[..], pdrIdx, pdrCount, outcomes)
      modifies this`pdr
      ensures pdr == PdrOf(outcomes)
    {
      if pdrCount == 0 {
        pdr := 100.0;
        return;
      }
      var successes: nat := 0;
      var count := if pdrCount < PDR_WINDOW then pdrCount else PDR_WINDOW;
      for i := 0 to count
        invariant successes == Sum(pdrWindow[..i])
      {
        assert pdrWindow[..i + 1][..i] == pdrWindow[..i];
        successes := successes + pdrWindow[i];
      }
      RingSum(pdrWindow[..], pdrIdx, pdrCount, outcomes);
      assert pdrWindow[..][..count] == pdrWindow[..count];
      pdr := successes as real / count as real * 100.0;
    }

    /** A DAO was acknowledged, or was not. */
    method RecordDao(success: bool)
      requires Valid()
      modifies this`pdrIdx, this`pdrCount, this`pdr, this`outcomes, pdrWindow
      ensures Valid() && outcomes == old(outcomes) + [success]
    {
      RingAdvances(pdrWindow[..], pdrIdx, pdrCount, outcomes, success);
      pdrWindow[pdrIdx] := if success then 1 else 0;
      pdrIdx := (pdrIdx + 1) % PDR_WINDOW;
      if pdrCount < PDR_WINDOW {
        pdrCount := pdrCount + 1;
      }
      outcomes := outcomes + [success];
      ComputePdr();
    }

    /** Appends a time to the shift buffer, dropping the oldest once all four slots are taken. */
    method PushChange(now: real, ghost history: seq<real>)
      requires changeTimes.Length == STABILITY_NMAX + 1 && 0 <= changeCount <= changeTimes.Length
      requires changeTimes[..changeCount] == Latest(history, STABILITY_NMAX + 1)
      modifies this`changeCount, changeTimes
      ensures 0 <= changeCount <= changeTimes.Length
      ensures changeTimes[..changeCount] == Latest(history + [now], STABILITY_NMAX + 1)
    {
      LatestGrows(history, STABILITY_NMAX + 1, now);
      LatestLength(history, STABILITY_NMAX + 1);
      hide Latest;
      ghost var before := changeTimes[..changeCount];
      if changeCount < STABILITY_NMAX + 1 {
        changeTimes[changeCount] := now;
        changeCount := changeCount + 1;
        assert changeTimes[..changeCount] == before + [now];
      } else {
        forall i | 0 <= i < STABILITY_NMAX {
          changeTimes[i] := changeTimes[i + 1];
        }
        changeTimes[STABILITY_NMAX] := now;
        assert changeTimes[..changeCount] == before[1..] + [now];
      }
    }

    /** The parent changed at time now; times never go back. */
    method ParentChanged(now: real, newParent: Option<Addr>)
      requires Valid() && (changes != [] ==> changes[|changes| - 1] <= now)
      modifies this`changeCount, this`lastParentChange, this`lastParentAddr, this`changes, changeTimes
      ensures Valid() && changes == old(changes) + [now]
      ensures lastParentChange == now
      ensures lastParentAddr == if newParent.Some? then newParent else old(lastParentAddr)
    {
      SortedGrows(changes, now);
      PushChange(now, changes);
      hide Latest, Ring, Sorted, PdrOf;
      changes := changes + [now];
      lastParentChange := now;
      if newParent.Some? {
        lastParentAddr := newParent;
      }
    }

    method ComputeStability(now: real)
      requires Valid()
      modifies this`stability
      ensures stability == StabilityOf(changes, now)
    {
      var windowStart := now - STABILITY_WINDOW;
      var changesInWindow: nat := 0;
      for i := 0 to changeCount
        invariant changesInWindow == CountSince(changeTimes[..i], windowStart)
      {
        assert changeTimes[..i + 1][..i] == changeTimes[..i];
        if changeTimes[i] >= windowStart {
          changesInWindow := changesInWindow + 1;
        }
      }
      FourTimesSuffice(changes, now);
      var ratio := changesInWindow as real / STABILITY_NMAX as real;
      if ratio > 1.0 {
        ratio := 1.0;
      }
      stability := 1.0 - ratio;
    }

    method Decide() returns (cls: Class)
      modifies this`lastScore
      ensures cls == Decision(pdr, energyEma, stability) && lastScore == Score(pdr, energyEma, stability)
    {
      var sPdr := pdr / 100.0;
      lastScore := W_PDR * sPdr + W_ENERGY * energyEma + W_STABILITY * stability;
      cls := if lastScore >= THRESHOLD then ClassS else ClassN;
    }

    /** adaptive_eval_cb: the timer's evaluation; reading is the battery level in percent. */
    method Evaluate(now: real, reading: real)
      requires Valid()
      modifies this`energyPct, this`energyEma, this`stability, this`lastScore
      ensures Valid() && energyPct == reading && energyEma == EmaStep(old(energyEma), reading / 100.0)
      ensures stability == StabilityOf(changes, now) && lastScore == Score(pdr, energyEma, stability)
      ensures Percent(reading) && Unit(old(energyEma)) ==> Unit(energyEma) && Unit(stability) && Unit(lastScore)
    {
      var raw := reading / 100.0;
      energyPct := raw * 100.0;
      energyEma := ENERGY_EMA_ALPHA * raw + (1.0 - ENERGY_EMA_ALPHA) * energyEma;
      ComputeStability(now);
      var _ := Decide();
      PdrInRange(outcomes);
      if Percent(reading) && Unit(old(energyEma)) {
        EmaStaysInRange(old(energyEma), raw);
        ScoreInRange(pdr, energyEma, stability);
      }
    }

    /** The recommendation of the present metrics, after hysteresis. */
    method GetRecommendation(currentClass: Class) returns (rec: Option<Class>)
      modifies this`lastScore, this`hysteresisCounter, this`pendingClass
      ensures (Hyst(), rec) == H.Step(old(Hyst()), Decision(pdr, energyEma, stability), currentClass)
      ensures lastScore == Score(pdr, energyEma, stability)
    {
      var recommended := Decide();
      if recommended == currentClass {
        hysteresisCounter := 0;
        return None;
      }
      if pendingClass != recommended {
        pendingClass := recommended;
        hysteresisCounter := 1;
      } else {
        hysteresisCounter := hysteresisCounter + 1;
      }
      if hysteresisCounter >= H.HYSTERESIS_CYCLES {
        hysteresisCounter := 0;
        return Some(recommended);
      }
      rec := None;
    }
  }
}
