/** The command FIFO of the daemon: authentication, replay filter and rate limits (hymrpl_adaptive.c). */
module FifoSec {
  import opened Wrappers
  import opened Rpl
  import opened Command

  const MIN_SWITCH_INTERVAL := 10.0
  const MAX_SWITCHES_PER_MIN := 3
  const MINUTE := 60.0

  // ---- the classes of interfaces and DAGs ----

  /** An interface with its own class and, for each RPL instance, the classes of its DAGs. */
  datatype Iface = Iface(nodeClass: Class, rpls: seq<seq<Class>>)

  ghost predicate AllAre(dags: seq<Class>, cls: Class) {
    forall i :: 0 <= i < |dags| ==> dags[i] == cls
  }

  /** Every DAG of every instance, and the interface itself, has class cls. */
  ghost predicate IfaceIs(iface: Iface, cls: Class) {
    iface.nodeClass == cls && forall i :: 0 <= i < |iface.rpls| ==> AllAre(iface.rpls[i], cls)
  }

  ghost predicate Uniform(ifaces: seq<Iface>, cls: Class) {
    forall i :: 0 <= i < |ifaces| ==> IfaceIs(ifaces[i], cls)
  }

  function SetDags(dags: seq<Class>, cls: Class): seq<Class> {
    seq(|dags|, _ => cls)
  }

  function SetIface(iface: Iface, cls: Class): Iface {
    Iface(cls, seq(|iface.rpls|, i requires 0 <= i < |iface.rpls| => SetDags(iface.rpls[i], cls)))
  }

  /** The same interfaces, instances and DAGs, all of class cls. */
  function SetAll(ifaces: seq<Iface>, cls: Class): (r: seq<Iface>)
    ensures |r| == |ifaces| && Uniform(r, cls)
  {
    seq(|ifaces|, i requires 0 <= i < |ifaces| => SetIface(ifaces[i], cls))
  }

  function FirstOf(rpls: seq<seq<Class>>): Option<Class> {
    if rpls == [] then None else if rpls[0] != [] then Some(rpls[0][0]) else FirstOf(rpls[1..])
  }

  /** The class of the first DAG in list order; class S if there is none. */
  function CurrentClass(ifaces: seq<Iface>): Class {
    if ifaces == [] then ClassS
    else if FirstOf(ifaces[0].rpls).Some? then FirstOf(ifaces[0].rpls).value
    else CurrentClass(ifaces[1..])
  }

  /** The j-th instance of interface i is the first in list order that has a DAG. */
  ghost predicate IsFirst(ifaces: seq<Iface>, i: nat, j: nat) {
    && i < |ifaces| && j < |ifaces[i].rpls| && ifaces[i].rpls[j] != []
    && (forall m :: 0 <= m < i ==> NoDags(ifaces[m].rpls, |ifaces[m].rpls|)) && NoDags(ifaces[i].rpls, j)
  }

  ghost predicate NoDags(rpls: seq<seq<Class>>, n: nat) {
    forall m :: 0 <= m < n && m < |rpls| ==> rpls[m] == []
  }

  lemma {:induction false} FirstOfIs(rpls: seq<seq<Class>>, j: nat)
    ensures NoDags(rpls, |rpls|) ==> FirstOf(rpls) == None
    ensures j < |rpls| && rpls[j] != [] && NoDags(rpls, j) ==> FirstOf(rpls) == Some(rpls[j][0])
    decreases |rpls|
  {
    if rpls != [] && rpls[0] == [] {
      FirstOfIs(rpls[1..], if j > 0 then j - 1 else 0);
      assert NoDags(rpls, |rpls|) ==> NoDags(rpls[1..], |rpls| - 1);
      assert j > 0 && NoDags(rpls, j) ==> NoDags(rpls[1..], j - 1);
    }
  }

  /** The engine is asked about the class of the first DAG in list order, and about class S as long as there is none. */
  lemma {:induction false} CurrentClassIs(ifaces: seq<Iface>, i: nat, j: nat)
    ensures IsFirst(ifaces, i, j) ==> CurrentClass(ifaces) == ifaces[i].rpls[j][0]
    ensures (forall m :: 0 <= m < |ifaces| ==> NoDags(ifaces[m].rpls, |ifaces[m].rpls|)) ==> CurrentClass(ifaces) == ClassS
    decreases |ifaces|
  {
    if ifaces != [] {
      FirstOfIs(ifaces[0].rpls, if i == 0 then j else 0);
      if i > 0 {
        assert IsFirst(ifaces, i, j) ==> IsFirst(ifaces[1..], i - 1, j);
        CurrentClassIs(ifaces[1..], i - 1, j);
      } else {
        CurrentClassIs(ifaces[1..], 0, 0);
      }
    }
  }

  class InterfaceTable {
    var ifaces: seq<Iface>

    constructor (ifaces: seq<Iface>)
      ensures this.ifaces == ifaces
    {
      this.ifaces := ifaces;
    }

    method SetIfaceClass(i: nat, cls: Class)
      requires i < |ifaces|
      modifies this
      ensures ifaces == old(ifaces)[i := SetIface(old(ifaces)[i], cls)]
    {
      var rpls := ifaces[i].rpls;
      for j := 0 to |rpls|
        invariant |rpls| == |old(ifaces)[i].rpls|
        invariant forall m :: 0 <= m < j ==> rpls[m] == SetDags(old(ifaces)[i].rpls[m], cls)
        invariant forall m :: j <= m < |rpls| ==> rpls[m] == old(ifaces)[i].rpls[m]
      {
        var dags := rpls[j];
        for k := 0 to |dags|
          invariant |dags| == |rpls[j]|
          invariant forall m :: 0 <= m < k ==> dags[m] == cls
        {
          if dags[k] != cls {
            dags := dags[k := cls];
          }
        }
        assert dags == SetDags(rpls[j], cls);
        rpls := rpls[j := dags];
      }
      assert Iface(cls, rpls) == SetIface(ifaces[i], cls);
      ifaces := ifaces[i := Iface(cls, rpls)];
    }

    /** The switch loop both sources share. */
    method SetAllClasses(cls: Class)
      modifies this
      ensures ifaces == SetAll(old(ifaces), cls)
    {
      for i := 0 to |ifaces|
        invariant |ifaces| == |old(ifaces)|
        invariant forall m :: 0 <= m < i ==> ifaces[m] == SetIface(old(ifaces)[m], cls)
        invariant forall m :: i <= m < |ifaces| ==> ifaces[m] == old(ifaces)[m]
      {
        SetIfaceClass(i, cls);
      }
    }

    method GetCurrentClass() returns (cls: Class)
      ensures cls == CurrentClass(ifaces)
    {
      for i := 0 to |ifaces|
        invariant CurrentClass(ifaces) == CurrentClass(ifaces[i..])
      {
        var rpls := ifaces[i].rpls;
        for j := 0 to |rpls|
          invariant FirstOf(rpls) == FirstOf(rpls[j..])
        {
          if rpls[j] != [] {
            return rpls[j][0];
          }
        }
      }
      cls := ClassS;
    }
  }

  // ---- the security state ----

  datatype Sec = Sec(token: seq<byte>, tokenLoaded: bool, lastNonce: u64,
                     lastSwitch: real, switchesThisMinute: nat, minuteStart: real)

  datatype Outcome = NoInput | Malformed | Replayed | Limited | Applied(cls: Class)

  /** A C string ends at its first NUL. */
  function CString(s: string): string {
    if s == "" || s[0] == '\0' then "" else [s[0]] + CString(s[1..])
  }

  lemma {:induction false} PlainText(s: string)
    requires forall i :: 0 <= i < |s| ==> s[i] != '\0'
    ensures CString(s) == s
    decreases |s|
  {
    if s != "" {
      PlainText(s[1..]);
    }
  }

  predicate MatchesAt(s: string, pattern: string, i: nat) {
    i + |pattern| <= |s| && s[i..i + |pattern|] == pattern
  }

  predicate Contains(s: string, pattern: string) {
    exists i :: 0 <= i <= |s| && MatchesAt(s, pattern, i)
  }

  /** Without a token any text that names a class is a command; class N is looked for first. */
  function LegacyClass(msg: string): Option<Class> {
    if Contains(CString(msg), "CLASS_N") then Some(ClassN)
    else if Contains(CString(msg), "CLASS_S") then Some(ClassS)
    else None
  }

  /** Authentication and replay filter: the state after them, and the class asked for or why there is none. */
  function Admit(mac: Mac, sec: Sec, msg: string): (Sec, Outcome) {
    if sec.tokenLoaded then
      var v := Verify(mac, sec.token, msg);
      if v.None? then (sec, Malformed)
      else if v.value.1 <= sec.lastNonce then (sec, Replayed)
      else (sec.(lastNonce := v.value.1), Applied(v.value.0))
    else
      var c := LegacyClass(msg);
      if c.None? then (sec, Malformed) else (sec, Applied(c.value))
  }

  function ResetMinute(sec: Sec, now: real): Sec {
    if now - sec.minuteStart > MINUTE then sec.(switchesThisMinute := 0, minuteStart := now) else sec
  }

  predicate TooSoon(sec: Sec, now: real) {
    now - sec.lastSwitch < MIN_SWITCH_INTERVAL
  }

  /** One look at the FIFO. */
  function Check(mac: Mac, sec: Sec, input: Option<string>, now: real): (Sec, Outcome) {
    if input.None? then (sec, NoInput)
    else
      var (admitted, outcome) := Admit(mac, sec, input.value);
      if !outcome.Applied? then (admitted, outcome)
      else
        var s := ResetMinute(admitted, now);
        if s.switchesThisMinute >= MAX_SWITCHES_PER_MIN || TooSoon(s, now) then (s, Limited)
        else (s.(lastSwitch := now, switchesThisMinute := s.switchesThisMinute + 1), outcome)
  }

  class FifoGuard {
    const token: seq<byte>
    const tokenLoaded: bool
    var lastNonce: u64
    var lastSwitchTime: real
    var switchesThisMinute: nat
    var minuteStart: real

    function Abs(): Sec
      reads this
    {
      Sec(token, tokenLoaded, lastNonce, lastSwitchTime, switchesThisMinute, minuteStart)
    }

    /** hymrpl_fifo_sec_init; a missing token leaves authentication off. */
    constructor (token: Option<seq<byte>>, now: real)
      ensures Abs() == Sec(if token.Some? then token.value else [], token.Some?, 0, 0.0, 0, now)
    {
      this.token, tokenLoaded := if token.Some? then token.value else [], token.Some?;
      lastNonce, lastSwitchTime, switchesThisMinute, minuteStart := 0, 0.0, 0, now;
    }

    /** hymrpl_fifo_sec_check on what the FIFO holds at time now. */
    method CheckFifo(mac: Mac, input: Option<string>, now: real, table: InterfaceTable) returns (result: Option<Class>)
      modifies this, table
      ensures var (sec, outcome) := Check(mac, old(Abs()), input, now);
              && Abs() == sec
              && result == (if outcome.Applied? then Some(outcome.cls) else None)
              && table.ifaces == if outcome.Applied? then SetAll(old(table.ifaces), outcome.cls) else old(table.ifaces)
    {
      result := None;
      if input.None? {
        return;
      }
      var newClass;
      if tokenLoaded {
        var verified := VerifyHmac(mac, token, input.value);
        if verified.None? || verified.value.1 <= lastNonce {
          return;
        }
        lastNonce := verified.value.1;
        newClass := verified.value.0;
      } else {
        if Contains(CString(input.value), "CLASS_N") {
          newClass := ClassN;
        } else if Contains(CString(input.value), "CLASS_S") {
          newClass := ClassS;
        } else {
          return;
        }
      }
      if now - minuteStart > MINUTE {
        switchesThisMinute := 0;
        minuteStart := now;
      }
      if switchesThisMinute >= MAX_SWITCHES_PER_MIN || now - lastSwitchTime < MIN_SWITCH_INTERVAL {
        return;
      }
      table.SetAllClasses(newClass);
      lastSwitchTime := now;
      switchesThisMinute := switchesThisMinute + 1;
      result := Some(newClass);
    }
  }
}
