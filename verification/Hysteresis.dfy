/** The hysteresis of hymrpl_adaptive_get_recommendation as a function, and what it means over traces of calls. */
module Hysteresis {
  import opened Wrappers
  import opened Rpl

  const HYSTERESIS_CYCLES := 3

  datatype Hyst = Hyst(counter: nat, pending: Class)

  /** memset leaves the pending class at 0, which is class S. */
  const FRESH := Hyst(0, ClassS)

  function Step(h: Hyst, decided: Class, current: Class): (Hyst, Option<Class>) {
    if decided == current then (h.(counter := 0), None)
    else
      var counter := if h.pending != decided then 1 else h.counter + 1;
      if counter >= HYSTERESIS_CYCLES then (Hyst(0, decided), Some(decided))
      else (Hyst(counter, decided), None)
  }

  /** One call: the class just computed and the class the node is in, which may change between calls. */
  datatype Call = Call(decided: Class, current: Class)

  function After(calls: seq<Call>): Hyst {
    if calls == [] then FRESH
    else Step(After(calls[..|calls| - 1]), calls[|calls| - 1].decided, calls[|calls| - 1].current).0
  }

  /** What the last call of the trace returns. */
  function Returned(calls: seq<Call>): Option<Class>
    requires calls != []
  {
    Step(After(calls[..|calls| - 1]), calls[|calls| - 1].decided, calls[|calls| - 1].current).1
  }

  /** How many of the last calls in a row computed the last call's class against another current class. */
  ghost function Streak(calls: seq<Call>): nat {
    if calls == [] then 0
    else
      var init, last := calls[..|calls| - 1], calls[|calls| - 1];
      if last.decided == last.current then 0
      else if init != [] && init[|init| - 1].decided == last.decided then Streak(init) + 1
      else 1
  }

  lemma {:induction false} StreakMeaning(calls: seq<Call>)
    ensures Streak(calls) <= |calls|
    ensures forall i :: |calls| - Streak(calls) <= i < |calls| ==>
                          calls[i].decided == calls[|calls| - 1].decided && calls[i].current != calls[i].decided
    decreases |calls|
  {
    if calls != [] {
      var init := calls[..|calls| - 1];
      StreakMeaning(init);
      assert forall i :: 0 <= i < |init| ==> calls[i] == init[i];
    }
  }

  /** The counter is the length of the present streak modulo three, and so always below three. */
  lemma {:induction false} CounterIsStreak(calls: seq<Call>)
    ensures After(calls).counter == Streak(calls) % 3
    ensures calls != [] && Streak(calls) > 0 ==> After(calls).pending == calls[|calls| - 1].decided
    decreases |calls|
  {
    if calls != [] {
      CounterIsStreak(calls[..|calls| - 1]);
    }
  }

  /**
   Over any trace from a fresh engine: a call returns a class exactly if it ends a multiple of three
   calls in a row that computed this class while the node was in the other one.
   */
  lemma {:induction false} RecommendsIff(calls: seq<Call>)
    requires calls != []
    ensures Returned(calls) == if Streak(calls) > 0 && Streak(calls) % 3 == 0
                               then Some(calls[|calls| - 1].decided) else None
  {
    var init, last := calls[..|calls| - 1], calls[|calls| - 1];
    CounterIsStreak(init);
    assert Streak(calls) == if last.decided == last.current then 0
                            else if init != [] && init[|init| - 1].decided == last.decided then Streak(init) + 1 else 1;
    hide Streak, After;
  }

  /** In particular the last three calls agree on it, and each of them saw a different current class. */
  lemma {:induction false} ThreeCallsAgree(calls: seq<Call>, cls: Class)
    requires calls != [] && Returned(calls) == Some(cls)
    ensures |calls| >= 3
    ensures forall i :: |calls| - 3 <= i < |calls| ==> calls[i].decided == cls && calls[i].current != cls
  {
    RecommendsIff(calls);
    StreakMeaning(calls);
  }
}
