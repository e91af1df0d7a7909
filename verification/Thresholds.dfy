/**
 The decision of the adaptive engine in numbers, over the full histories of outcomes and parent
 changes: how many of the latest twenty outcomes, how much energy and how few changes it takes.
 */
module Thresholds {
  import opened Rpl
  import opened Metrics

  /** The latest twenty outcomes, or all of them if there are fewer. */
  ghost function Recent(outcomes: seq<bool>): seq<bool> {
    if |outcomes| <= 20 then outcomes else outcomes[|outcomes| - 20..]
  }

  ghost function Successes(outcomes: seq<bool>): nat {
    |set i | 0 <= i < |outcomes| && outcomes[i]|
  }

  /** Parent changes in the last sixty seconds; three and more are the same. */
  ghost function ChangesAt(changes: seq<real>, now: real): nat {
    var n := |set i | 0 <= i < |changes| && now - changes[i] <= 60.0|;
    if n > 3 then 3 else n
  }

  lemma {:induction false} SuccessesAreSum(h: seq<bool>)
    ensures Sum(Bits(h)) == Successes(h)
    decreases |h|
  {
    if h != [] {
      var init := h[..|h| - 1];
      assert Bits(h)[..|h| - 1] == Bits(init);
      SuccessesAreSum(init);
      var before := set i | 0 <= i < |init| && init[i];
      assert (set i | 0 <= i < |h| && h[i]) == before + (if h[|h| - 1] then {|h| - 1} else {});
    }
  }

  lemma {:induction false} ChangesAreCounted(changes: seq<real>, now: real)
    ensures CountSince(changes, now - 60.0) == |set i | 0 <= i < |changes| && now - changes[i] <= 60.0|
    decreases |changes|
  {
    if changes != [] {
      var init, last := changes[..|changes| - 1], |changes| - 1;
      ChangesAreCounted(init, now);
      var before := set i | 0 <= i < |init| && now - init[i] <= 60.0;
      assert (set i | 0 <= i < |changes| && now - changes[i] <= 60.0) ==
             before + (if now - changes[last] <= 60.0 then {last} else {});
    }
  }

  /** x of m successes with x = s / m. */
  lemma Fraction(s: nat, m: nat) returns (x: real)
    requires m > 0
    ensures x == s as real / m as real && Times(x, m as real) == s as real
  {
    x := s as real / m as real;
  }

  lemma Whole(m: nat)
    requires m > 0
    ensures m as real / m as real == 1.0
  {
    assert m as real / m as real * m as real == m as real;
  }

  lemma PdrIs(outcomes: seq<bool>)
    requires outcomes != []
    ensures |Recent(outcomes)| > 0
    ensures PdrOf(outcomes) == Successes(Recent(outcomes)) as real / |Recent(outcomes)| as real * 100.0
  {
    assert Latest(outcomes, 20) == Recent(outcomes);
    SuccessesAreSum(Recent(outcomes));
  }

  lemma StabilityIs(changes: seq<real>, now: real)
    ensures StabilityOf(changes, now) == (3 - ChangesAt(changes, now)) as real / 3.0
  {
    ChangesAreCounted(changes, now);
  }

  /** The test in units of a twentieth. */
  lemma DecidesIff(x: real, energy: real, k: int)
    ensures Decision(x * 100.0, energy, k as real / 3.0) == ClassN <==> 8.0 * x + 6.0 * energy + 2.0 * k as real < 15.0
  {
    assert x * 100.0 / 100.0 == x;
  }

  lemma MultipliedOut(x: real, energy: real, k: int, m: nat, s: nat)
    requires m > 0 && Times(x, m as real) == s as real
    ensures 8.0 * x + 6.0 * energy + 2.0 * k as real < 15.0 <==>
            8.0 * s as real + 6.0 * Times(energy, m as real) + 2.0 * (k * m) as real < 15.0 * m as real
  {
    var left := 8.0 * x + 6.0 * energy + 2.0 * k as real;
    TimesOrder(left, 15.0, m as real);
    Distributes(x, energy, k as real, m as real);
    assert (k * m) as real == Times(k as real, m as real);
  }

  lemma Distributes(x: real, e: real, k: real, m: real)
    ensures Times(8.0 * x + 6.0 * e + 2.0 * k, m) == 8.0 * Times(x, m) + 6.0 * Times(e, m) + 2.0 * Times(k, m)
    ensures Times(15.0, m) == 15.0 * m
  {
  }

  /**
   The engine decides for class N exactly if, with s successes among the latest m outcomes and k = 3, 2,
   1 or 0 after no, one, two or more parent changes in the last minute, 8 s + 6 m e + 2 k m is less than
   15 m; before the first outcome as if all had been successes.
   */
  lemma ClassNIff(outcomes: seq<bool>, energy: real, changes: seq<real>, now: real)
    ensures var m, s, k := |Recent(outcomes)|, Successes(Recent(outcomes)), 3 - ChangesAt(changes, now);
            Decision(PdrOf(outcomes), energy, StabilityOf(changes, now)) == ClassN <==>
            if outcomes == [] then 8.0 + 6.0 * energy + 2.0 * k as real < 15.0
            else 8.0 * s as real + 6.0 * Times(energy, m as real) + 2.0 * (k * m) as real < 15.0 * m as real
  {
    var k := 3 - ChangesAt(changes, now);
    StabilityIs(changes, now);
    if outcomes == [] {
      DecidesIff(1.0, energy, k);
    } else {
      PdrIs(outcomes);
      var m, s := |Recent(outcomes)|, Successes(Recent(outcomes));
      var x := Fraction(s, m);
      DecidesIff(x, energy, k);
      hide *;
      MultipliedOut(x, energy, k, m, s);
    }
  }

  /** With every delivery a success, each parent change of the last minute raises the energy it takes by a third. */
  lemma EnergyThreshold(outcomes: seq<bool>, energy: real, changes: seq<real>, now: real)
    requires Unit(energy) && Successes(Recent(outcomes)) == |Recent(outcomes)|
    ensures var n := ChangesAt(changes, now);
            Decision(PdrOf(outcomes), energy, StabilityOf(changes, now)) == ClassN <==>
            n == 3 || (n == 2 && energy < 5.0 / 6.0) || (n == 1 && energy < 1.0 / 2.0) || (n == 0 && energy < 1.0 / 6.0)
  {
    var n := ChangesAt(changes, now);
    StabilityIs(changes, now);
    if outcomes != [] {
      PdrIs(outcomes);
      Whole(|Recent(outcomes)|);
    }
    DecidesIff(1.0, energy, 3 - n);
  }

  /** At full energy and stability it takes eight successes among the latest twenty. */
  lemma DeliveryThreshold(outcomes: seq<bool>, changes: seq<real>, now: real)
    requires |outcomes| >= 20 && ChangesAt(changes, now) == 0
    ensures Decision(PdrOf(outcomes), 1.0, StabilityOf(changes, now)) == ClassN <==> Successes(Recent(outcomes)) < 8
  {
    ClassNIff(outcomes, 1.0, changes, now);
  }
}
