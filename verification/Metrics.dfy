/**
 The arithmetic of the adaptive engine (hymrpl_adaptive.c): what each bounded buffer stands for,
 stated over the full history it no longer holds, and the weighted decision. Floats are reals.
 */
module Metrics {
  import opened Rpl

  const PDR_WINDOW := 20
  const STABILITY_WINDOW := 60.0
  const STABILITY_NMAX := 3
  const W_PDR := 0.4
  const W_ENERGY := 0.3
  const W_STABILITY := 0.3
  const THRESHOLD := 0.75
  const ENERGY_EMA_ALPHA := 0.3

  // ---- packet delivery ratio ----

  function Sum(s: seq<nat>): nat {
    if s == [] then 0 else Sum(s[..|s| - 1]) + s[|s| - 1]
  }

  function Bit(b: bool): nat { if b then 1 else 0 }

  function Bits(h: seq<bool>): seq<nat> {
    seq(|h|, i requires 0 <= i < |h| => Bit(h[i]))
  }

  ghost function Latest<T>(h: seq<T>, n: nat): seq<T> {
    if |h| <= n then h else h[|h| - n..]
  }

  lemma LatestGrows<T>(h: seq<T>, n: nat, x: T)
    requires n > 0
    ensures Latest(h + [x], n) == if |h| < n then Latest(h, n) + [x] else Latest(h, n)[1..] + [x]
  {
  }

  lemma LatestLength<T>(h: seq<T>, n: nat)
    ensures |Latest(h, n)| == if |h| < n then |h| else n
  {
  }

  /** 100 times the success fraction of the latest twenty outcomes. */
  ghost function PdrOf(outcomes: seq<bool>): real {
    if outcomes == [] then 100.0
    else Sum(Bits(Latest(outcomes, PDR_WINDOW))) as real / |Latest(outcomes, PDR_WINDOW)| as real * 100.0
  }

  /** A ring of twenty slots, next to be written at idx, that holds the latest of the outcomes h. */
  ghost predicate Ring(window: seq<nat>, idx: int, count: int, h: seq<bool>) {
    && |window| == PDR_WINDOW && idx == |h| % PDR_WINDOW
    && count == (if |h| < PDR_WINDOW then |h| else PDR_WINDOW)
    && forall j :: |h| - count <= j < |h| ==> window[j % PDR_WINDOW] == Bit(h[j])
  }

  lemma RingAdvances(window: seq<nat>, idx: int, count: int, h: seq<bool>, b: bool)
    requires Ring(window, idx, count, h)
    ensures Ring(window[idx := Bit(b)], (idx + 1) % PDR_WINDOW,
                 if count < PDR_WINDOW then count + 1 else count, h + [b])
  {
    var h' := h + [b];
    var count' := if count < PDR_WINDOW then count + 1 else count;
    forall j | |h'| - count' <= j < |h'|
      ensures window[idx := Bit(b)][j % PDR_WINDOW] == Bit(h'[j])
    {
      if j < |h| {
        assert j % PDR_WINDOW != idx;
      }
    }
  }

  lemma {:induction false} SumConcat(a: seq<nat>, b: seq<nat>)
    ensures Sum(a + b) == Sum(a) + Sum(b)
    decreases |b|
  {
    if b == [] {
      assert a + b == a;
    } else {
      assert (a + b)[..|a + b| - 1] == a + b[..|b| - 1];
      SumConcat(a, b[..|b| - 1]);
    }
  }

  /** Summing the filled slots from slot 0 counts the successes of the latest outcomes, wrapped or not. */
  lemma RingSum(window: seq<nat>, idx: int, count: int, h: seq<bool>)
    requires Ring(window, idx, count, h)
    ensures Sum(window[..count]) == Sum(Bits(Latest(h, PDR_WINDOW)))
    ensures |Latest(h, PDR_WINDOW)| == count
  {
    if |h| < PDR_WINDOW {
      assert window[..count] == Bits(h);
    } else {
      var older, newer := window[idx..], window[..idx];
      WrappedRing(window, idx, count, h);
      assert window[..count] == newer + older;
      SumConcat(older, newer);
      SumConcat(newer, older);
    }
  }

  lemma SlotOf(n: nat, i: nat)
    requires n >= PDR_WINDOW > i
    ensures (n - PDR_WINDOW + i) % PDR_WINDOW ==
            if n % PDR_WINDOW + i < PDR_WINDOW then n % PDR_WINDOW + i else n % PDR_WINDOW + i - PDR_WINDOW
  {
  }

  /** A full ring, read from the slot to be written next, holds the latest twenty outcomes in order. */
  lemma WrappedRing(window: seq<nat>, idx: int, count: int, h: seq<bool>)
    requires Ring(window, idx, count, h) && |h| >= PDR_WINDOW
    ensures Bits(Latest(h, PDR_WINDOW)) == window[idx..] + window[..idx]
  {
    var recent, wrapped := Bits(Latest(h, PDR_WINDOW)), window[idx..] + window[..idx];
    forall i | 0 <= i < PDR_WINDOW
      ensures recent[i] == wrapped[i]
    {
      var j := |h| - PDR_WINDOW + i;
      assert recent[i] == Bit(h[j]) == window[j % PDR_WINDOW];
      SlotOf(|h|, i);
    }
  }

  lemma {:induction false} SumOfBits(h: seq<bool>)
    ensures Sum(Bits(h)) <= |h|
    decreases |h|
  {
    if h != [] {
      assert Bits(h)[..|h| - 1] == Bits(h[..|h| - 1]);
      SumOfBits(h[..|h| - 1]);
    }
  }

  lemma PdrInRange(outcomes: seq<bool>)
    ensures 0.0 <= PdrOf(outcomes) <= 100.0
  {
    if outcomes != [] {
      var n, m := Sum(Bits(Latest(outcomes, PDR_WINDOW))), |Latest(outcomes, PDR_WINDOW)|;
      SumOfBits(Latest(outcomes, PDR_WINDOW));
      FractionInRange(n, m);
    }
  }

  lemma PositiveFactor(a: real, b: real)
    requires a > 0.0 && a * b >= 0.0
    ensures b >= 0.0
  {
  }

  lemma FractionInRange(n: nat, m: nat)
    requires n <= m && m > 0
    ensures Unit(n as real / m as real)
  {
    var q := n as real / m as real;
    assert q * m as real == n as real;
    PositiveFactor(m as real, 1.0 - q);
  }

  // ---- stability ----

  function CountSince(times: seq<real>, start: real): nat {
    if times == [] then 0
    else CountSince(times[..|times| - 1], start) + if times[|times| - 1] >= start then 1 else 0
  }

  ghost predicate Sorted(times: seq<real>) {
    forall i, j :: 0 <= i <= j < |times| ==> times[i] <= times[j]
  }

  lemma SortedGrows(times: seq<real>, now: real)
    requires Sorted(times) && (times != [] ==> times[|times| - 1] <= now)
    ensures Sorted(times + [now])
  {
  }

  function StabilityFrom(changes: nat): real {
    var ratio := changes as real / STABILITY_NMAX as real;
    1.0 - if ratio > 1.0 then 1.0 else ratio
  }

  /** One minus a third for each parent change, of all ever recorded, in the last sixty seconds; at least zero. */
  ghost function StabilityOf(changes: seq<real>, now: real): real {
    StabilityFrom(CountSince(changes, now - STABILITY_WINDOW))
  }

  lemma {:induction false} NoneSince(times: seq<real>, start: real)
    requires Sorted(times) && (times != [] ==> times[|times| - 1] < start)
    ensures CountSince(times, start) == 0
    decreases |times|
  {
    if times != [] {
      NoneSince(times[..|times| - 1], start);
    }
  }

  /** In time order the recent events are the last ones, so a suffix sees as many of them as fit. */
  lemma {:induction false} SuffixCount(times: seq<real>, k: nat, start: real)
    requires Sorted(times) && k <= |times|
    ensures CountSince(times[|times| - k..], start) ==
            if CountSince(times, start) < k then CountSince(times, start) else k
    decreases |times|
  {
    if k > 0 {
      var init, tail := times[..|times| - 1], times[|times| - k..];
      assert tail[..k - 1] == init[|init| - (k - 1)..];
      if times[|times| - 1] >= start {
        SuffixCount(init, k - 1, start);
      } else {
        NoneSince(times, start);
        NoneSince(tail, start);
      }
    }
  }

  /** The last four changes give the same index as the whole history. */
  lemma FourTimesSuffice(changes: seq<real>, now: real)
    requires Sorted(changes)
    ensures StabilityFrom(CountSince(Latest(changes, STABILITY_NMAX + 1), now - STABILITY_WINDOW)) == StabilityOf(changes, now)
  {
    if |changes| > STABILITY_NMAX + 1 {
      SuffixCount(changes, STABILITY_NMAX + 1, now - STABILITY_WINDOW);
    }
  }

  // ---- decision ----

  function Score(pdr: real, energy: real, stability: real): real {
    W_PDR * (pdr / 100.0) + W_ENERGY * energy + W_STABILITY * stability
  }

  function Decision(pdr: real, energy: real, stability: real): Class {
    if Score(pdr, energy, stability) >= THRESHOLD then ClassS else ClassN
  }

  predicate Unit(x: real) { 0.0 <= x <= 1.0 }

  predicate Percent(x: real) { 0.0 <= x <= 100.0 }

  lemma ScoreInRange(pdr: real, energy: real, stability: real)
    requires Percent(pdr) && Unit(energy) && Unit(stability)
    ensures Unit(Score(pdr, energy, stability))
  {
    assert Unit(pdr / 100.0);
  }

  /** A metric that gets no worse never turns a storing-like node into a non-storing-like one. */
  lemma DecisionIsMonotone(p: real, e: real, s: real, p': real, e': real, s': real)
    requires p <= p' && e <= e' && s <= s' && Decision(p, e, s) == ClassS
    ensures Decision(p', e', s') == ClassS
  {
    assert p / 100.0 <= p' / 100.0;
  }

  /** Three changes within a minute, and no fewer, force class N whatever delivery and energy are. */
  lemma InstabilityForcesNIff(changes: seq<real>, now: real)
    ensures (forall p, e :: Percent(p) && Unit(e) ==> Decision(p, e, StabilityOf(changes, now)) == ClassN)
       <==> CountSince(changes, now - STABILITY_WINDOW) >= STABILITY_NMAX
  {
    var s := StabilityOf(changes, now);
    if CountSince(changes, now - STABILITY_WINDOW) >= STABILITY_NMAX {
      assert s == 0.0;
      forall p, e | Percent(p) && Unit(e)
        ensures Decision(p, e, s) == ClassN
      {
        assert p / 100.0 <= 1.0;
      }
    } else {
      assert s >= 1.0 / 3.0;
      assert Percent(100.0) && Unit(1.0) && Decision(100.0, 1.0, s) == ClassS;
    }
  }

  // ---- energy ----

  function EmaStep(ema: real, raw: real): real {
    ENERGY_EMA_ALPHA * raw + (1.0 - ENERGY_EMA_ALPHA) * ema
  }

  /** k evaluations of the same raw reading. */
  function EmaAfter(ema: real, raw: real, k: nat): real {
    if k == 0 then ema else EmaStep(EmaAfter(ema, raw, k - 1), raw)
  }

  function Pow07(k: nat): real {
    if k == 0 then 1.0 else 0.7 * Pow07(k - 1)
  }

  lemma EmaStaysInRange(ema: real, raw: real)
    requires Unit(ema) && Unit(raw)
    ensures Unit(EmaStep(ema, raw))
  {
  }

  /** The distance to a constant reading shrinks by exactly 0.7 per evaluation. */
  lemma {:induction false} EmaError(ema: real, raw: real, k: nat)
    ensures EmaAfter(ema, raw, k) - raw == Pow07(k) * (ema - raw)
    decreases k
  {
    if k > 0 {
      EmaError(ema, raw, k - 1);
      var e, q := ema - raw, Pow07(k - 1);
      assert EmaAfter(ema, raw, k) - raw == 0.7 * (q * e);
      assert 0.7 * (q * e) == (0.7 * q) * e;
    }
  }

  /** A product the solver need not look into. */
  function Times(x: real, y: real): real {
    x * y
  }

  lemma TimesOrder(x: real, y: real, z: real)
    requires z > 0.0
    ensures x < y <==> Times(x, z) < Times(y, z)
  {
    if x < y {
      ProductGrows(x, y, z);
    } else {
      ProductKeepsOrder(y, x, z);
    }
  }

  lemma ProductGrows(x: real, y: real, z: real)
    requires x < y && z > 0.0
    ensures x * z < y * z
  {
  }

  lemma ProductKeepsOrder(x: real, y: real, z: real)
    requires x <= y && z > 0.0
    ensures x * z <= y * z
  {
  }

  /** 0.7 to the k is at most 1 / (1 + 3k/7). */
  lemma {:induction false} PowVanishes(k: nat)
    ensures 0.0 < Pow07(k) && Times(Pow07(k), 7.0 + 3.0 * k as real) <= 7.0
    decreases k
  {
    if k > 0 {
      PowVanishes(k - 1);
      var q, x := Pow07(k - 1), k as real;
      assert Pow07(k) * (7.0 + 3.0 * x) == q * (4.9 + 2.1 * x);
      assert q * (4.9 + 2.1 * x) <= q * (7.0 + 3.0 * (x - 1.0)) by {
        assert 4.9 + 2.1 * x <= 4.0 + 3.0 * x;
      }
    }
  }

  lemma {:induction false} EmaStaysAbove(ema: real, raw: real, bound: real, k: nat)
    requires ema >= bound && raw >= bound
    ensures EmaAfter(ema, raw, k) >= bound
    decreases k
  {
    if k > 0 {
      EmaStaysAbove(ema, raw, bound, k - 1);
    }
  }

  const ENERGY_BREAK_EVEN := 1.0 / 6.0

  /** From k on, every evaluation with perfect delivery and stability recommends class N. */
  ghost predicate RecommendsNFrom(ema: real, raw: real, k: nat) {
    forall j: nat :: j >= k ==> Decision(100.0, EmaAfter(ema, raw, j), 1.0) == ClassN
  }

  ghost predicate ManySteps(k: nat, gap: real) {
    Times(gap, 7.0 + 3.0 * k as real) > 7.0
  }

  lemma Quotient(a: real, b: real) returns (q: real)
    requires a > 0.0 && b > 0.0
    ensures Times(q, b) == a && q > 0.0
  {
    q := a / b;
  }

  lemma Exceeds(z: real) returns (k: nat)
    requires z > 0.0
    ensures k as real > z
  {
    k := z.Floor + 1;
  }

  /** From some k on the error, which falls like 7 / (7 + 3k), is below the gap. */
  lemma EnoughSteps(gap: real) returns (k: nat)
    requires gap > 0.0
    ensures forall j: nat :: j >= k ==> ManySteps(j, gap)
  {
    var z := Quotient(7.0, gap);
    k := Exceeds(z);
    forall j: nat | j >= k
      ensures ManySteps(j, gap)
    {
      var x := 7.0 + 3.0 * j as real;
      TimesOrder(z, x, gap);
      assert Times(x, gap) == Times(gap, x);
    }
  }

  lemma {:induction false} ErrorFallsBelow(error: real, gap: real, k: nat)
    requires 0.0 <= error <= 1.0 && gap > 0.0 && ManySteps(k, gap)
    ensures Pow07(k) * error < gap
  {
    PowVanishes(k);
    TimesOrder(Pow07(k), gap, 7.0 + 3.0 * k as real);
    hide Times;
    ShrinksBy(Pow07(k), error);
  }

  lemma ShrinksBy(q: real, error: real)
    requires q > 0.0 && error <= 1.0
    ensures q * error <= q
  {
  }

  /** An average below the reading stays below it. */
  lemma StaysBelowReading(ema: real, raw: real, k: nat)
    requires ema < raw
    ensures EmaAfter(ema, raw, k) < raw
  {
    EmaError(ema, raw, k);
    PowVanishes(k);
    ProductGrows(ema - raw, 0.0, Pow07(k));
  }

  /** In time the average is on the side of `bound` on which the reading lies. */
  lemma EndsUpWithReading(ema: real, raw: real, bound: real) returns (k: nat)
    requires Unit(ema) && Unit(raw) && raw != bound
    ensures forall j: nat :: j >= k ==> (EmaAfter(ema, raw, j) < bound <==> raw < bound)
  {
    var gap := if raw > bound then raw - bound else bound - raw;
    k := EnoughSteps(gap);
    forall j: nat | j >= k
      ensures EmaAfter(ema, raw, j) < bound <==> raw < bound
    {
      EmaError(ema, raw, j);
      if ema < raw {
        StaysBelowReading(ema, raw, j);
        ErrorFallsBelow(raw - ema, gap, j);
        assert Pow07(j) * (ema - raw) == -(Pow07(j) * (raw - ema));
      } else {
        EmaStaysAbove(ema, raw, raw, j);
        ErrorFallsBelow(ema - raw, gap, j);
      }
    }
  }

  /**
   From whatever average, a node with perfect delivery and stability moves to class N for good under
   a constant reading exactly if the reading is below one sixth, or is one sixth and the average has
   been below it all along.
   */
  lemma LowEnergyEventuallyNIff(ema: real, raw: real)
    requires Unit(ema) && Unit(raw)
    ensures (exists k: nat :: RecommendsNFrom(ema, raw, k)) <==>
            raw < ENERGY_BREAK_EVEN || (raw == ENERGY_BREAK_EVEN && ema < ENERGY_BREAK_EVEN)
  {
    if raw != ENERGY_BREAK_EVEN {
      var k := EndsUpWithReading(ema, raw, ENERGY_BREAK_EVEN);
      if raw < ENERGY_BREAK_EVEN {
        assert RecommendsNFrom(ema, raw, k);
      } else {
        forall n: nat
          ensures !RecommendsNFrom(ema, raw, n)
        {
          assert Decision(100.0, EmaAfter(ema, raw, n + k), 1.0) == ClassS;
        }
      }
    } else if ema < raw {
      forall j: nat
        ensures EmaAfter(ema, raw, j) < raw
      {
        StaysBelowReading(ema, raw, j);
      }
      assert RecommendsNFrom(ema, raw, 0);
    } else {
      forall k: nat
        ensures !RecommendsNFrom(ema, raw, k)
      {
        EmaStaysAbove(ema, raw, raw, k);
        assert Decision(100.0, EmaAfter(ema, raw, k), 1.0) == ClassS;
      }
    }
  }

  lemma {:induction false} PowFalls(j: nat, k: nat)
    requires j <= k
    ensures 0.0 < Pow07(k) <= Pow07(j)
    decreases k
  {
    if j < k {
      PowFalls(j, k - 1);
    } else {
      PowVanishes(k);
    }
  }

  /** At a battery reading of 10% a fresh engine first recommends class N at the eighth evaluation. */
  lemma TenPercentTakesEight(k: nat)
    ensures Decision(100.0, EmaAfter(1.0, 0.1, k), 1.0) == ClassN <==> k >= 8
  {
    EmaError(1.0, 0.1, k);
    assert Pow07(2) == 0.49 && Pow07(4) == 0.2401 && Pow07(6) == 0.117649;
    assert Pow07(7) == 0.0823543 && Pow07(8) == 0.05764801;
    if k >= 8 {
      PowFalls(8, k);
    } else {
      PowFalls(k, 7);
    }
  }
}
