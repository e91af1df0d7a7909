/**
 Commanded and obeyed: which texts in the FIFO make the daemon switch, and to which class. Stated on
 the bytes of the text and on runs of the whole callback (SwitchRuns).
 */
module Obedience {
  import opened Wrappers
  import opened Rpl
  import opened Command
  import opened FifoSec
  import D = Daemon
  import Hex
  import S = SwitchRuns

  /** The name of a class in a command. */
  function Word(cls: Class): string {
    if cls == ClassN then "CLASS_N" else "CLASS_S"
  }

  /** A signed command: name, nonce and HMAC of both, all in hexadecimal, and line ends. */
  ghost predicate SignedBy(mac: Mac, token: seq<byte>, msg: string, cls: Class, nonce: u64, digits: string, field: string, tail: string) {
    && msg == Word(cls) + "|" + digits + "|" + field + tail
    && |digits| == 16 && Hex.Parse(digits) == Some(nonce as nat)
    && |field| == 64 && Hex.ParseBytes(field) == Some(mac(token, Word(cls) + "|" + digits))
    && forall i :: 0 <= i < |tail| ==> tail[i] == '\n' || tail[i] == '\r'
  }

  ghost predicate HasSigned(mac: Mac, token: seq<byte>, msg: string, cls: Class, nonce: u64) {
    exists digits, field, tail :: SignedBy(mac, token, msg, cls, nonce, digits, field, tail)
  }

  /** `name` stands in the message before its first NUL. */
  ghost predicate Says(msg: string, name: string) {
    exists i :: StandsAt(msg, name, i)
  }

  ghost predicate StandsAt(msg: string, name: string, i: int) {
    0 <= i <= |msg| - |name| && msg[i..i + |name|] == name && forall j :: 0 <= j < i + |name| ==> msg[j] != '\0'
  }

  /** What the daemon with this token, or without one, takes for a command of class cls that it has not obeyed yet. */
  ghost predicate Commands(mac: Mac, sec: Sec, msg: string, cls: Class) {
    if sec.tokenLoaded then exists nonce: u64 :: nonce > sec.lastNonce && HasSigned(mac, sec.token, msg, cls, nonce)
    else if Says(msg, "CLASS_N") then cls == ClassN
    else cls == ClassS && Says(msg, "CLASS_S")
  }

  // ---- both ways of admission ----

  lemma SignedIsAuthentic(mac: Mac, token: seq<byte>, msg: string, cls: Class, nonce: u64, digits: string, field: string, tail: string)
    ensures SignedBy(mac, token, msg, cls, nonce, digits, field, tail) <==>
            Authentic(mac, token, msg, cls, nonce, digits, field, tail)
  {
    assert Word(cls) == Name(cls);
  }

  lemma SignedIffVerified(mac: Mac, token: seq<byte>, msg: string, cls: Class, nonce: u64)
    ensures HasSigned(mac, token, msg, cls, nonce) <==> Verify(mac, token, msg) == Some((cls, nonce))
  {
    hide Verify, SignedBy, Authentic;
    if digits, field, tail :| SignedBy(mac, token, msg, cls, nonce, digits, field, tail) {
      SignedIsAuthentic(mac, token, msg, cls, nonce, digits, field, tail);
      AuthenticIsAccepted(mac, token, msg, cls, nonce, digits, field, tail);
    }
    if Verify(mac, token, msg) == Some((cls, nonce)) {
      AcceptedIsAuthentic(mac, token, msg, cls, nonce);
      SignedIsAuthentic(mac, token, msg, cls, nonce, msg[8..24], msg[25..89], msg[89..]);
    }
  }

  /** A C string is the part of the message before the first NUL. */
  lemma {:induction false} CStringIs(msg: string)
    ensures |CString(msg)| <= |msg| && CString(msg) == msg[..|CString(msg)|]
    ensures forall i :: 0 <= i < |CString(msg)| ==> msg[i] != '\0'
    ensures |CString(msg)| < |msg| ==> msg[|CString(msg)|] == '\0'
    decreases |msg|
  {
    if msg != "" && msg[0] != '\0' {
      CStringIs(msg[1..]);
      assert msg == [msg[0]] + msg[1..];
    }
  }

  lemma PrefixStandsAt(msg: string, n: nat, name: string, i: nat)
    requires i + |name| <= n <= |msg|
    ensures msg[..n][i..i + |name|] == msg[i..i + |name|]
  {
  }

  lemma SaysIff(msg: string, name: string)
    ensures Says(msg, name) <==> Contains(CString(msg), name)
  {
    var n := |CString(msg)|;
    CStringIs(msg);
    hide CString;
    if i :| StandsAt(msg, name, i) {
      assert i + |name| <= n;
      PrefixStandsAt(msg, n, name, i);
      assert MatchesAt(CString(msg), name, i);
    }
    if i :| 0 <= i <= n && MatchesAt(CString(msg), name, i) {
      PrefixStandsAt(msg, n, name, i);
      assert StandsAt(msg, name, i);
    }
  }

  /** The daemon's admission: exactly the commands of a class are admitted with that class. */
  lemma AdmitsIff(mac: Mac, sec: Sec, msg: string, cls: Class)
    ensures Admit(mac, sec, msg).1 == Applied(cls) <==> Commands(mac, sec, msg, cls)
  {
    hide Verify, CString, Contains, Says, HasSigned;
    if sec.tokenLoaded {
      forall nonce: u64
        ensures HasSigned(mac, sec.token, msg, cls, nonce) <==> Verify(mac, sec.token, msg) == Some((cls, nonce))
      {
        SignedIffVerified(mac, sec.token, msg, cls, nonce);
      }
    } else {
      SaysIff(msg, "CLASS_N");
      SaysIff(msg, "CLASS_S");
    }
  }

  /** Ten seconds since the last switch, and fewer than three counted in the present minute. */
  predicate InLimits(sec: Sec, now: real) {
    now - sec.lastSwitch >= 10.0 && (now - sec.minuteStart > 60.0 || sec.switchesThisMinute < 3)
  }

  lemma AdmitKeepsLimits(mac: Mac, sec: Sec, msg: string, now: real)
    ensures InLimits(Admit(mac, sec, msg).0, now) == InLimits(sec, now)
  {
    hide Verify, LegacyClass;
  }

  lemma ChecksIff(mac: Mac, sec: Sec, input: Option<string>, now: real, cls: Class)
    ensures Check(mac, sec, input, now).1 == Applied(cls) <==>
            input.Some? && Commands(mac, sec, input.value, cls) && InLimits(sec, now)
  {
    if input.Some? {
      AdmitsIff(mac, sec, input.value, cls);
      AdmitKeepsLimits(mac, sec, input.value, now);
    }
    hide Admit, Commands;
  }

  /** The nonce that the guard keeps after a look at this message. */
  ghost predicate NonceAfter(mac: Mac, sec: Sec, msg: string, last: u64) {
    if sec.tokenLoaded && exists cls, nonce: u64 :: nonce > sec.lastNonce && HasSigned(mac, sec.token, msg, cls, nonce)
    then exists cls :: last > sec.lastNonce && HasSigned(mac, sec.token, msg, cls, last)
    else last == sec.lastNonce
  }

  /**
   What a look at the FIFO leaves behind: a command, obeyed or not, uses up its nonce and starts a new
   minute if the old one is over; an obeyed one is counted and is the last switch; other texts leave
   no trace.
   */
  lemma CheckLeaves(mac: Mac, sec: Sec, msg: string, now: real)
    ensures var (after, outcome) := Check(mac, sec, Some(msg), now);
            var command := exists cls :: Commands(mac, sec, msg, cls);
            var newMinute := command && now - sec.minuteStart > 60.0;
            var obeyed := command && InLimits(sec, now);
            && after.token == sec.token && after.tokenLoaded == sec.tokenLoaded && NonceAfter(mac, sec, msg, after.lastNonce)
            && after.minuteStart == (if newMinute then now else sec.minuteStart)
            && after.switchesThisMinute == (if newMinute then 0 else sec.switchesThisMinute) + (if obeyed then 1 else 0)
            && after.lastSwitch == (if obeyed then now else sec.lastSwitch)
            && outcome.Applied? == obeyed
  {
    CommandIffAdmitted(mac, sec, msg);
    AdmitLeaves(mac, sec, msg);
    hide Admit, Commands, NonceAfter;
  }

  lemma CommandIffAdmitted(mac: Mac, sec: Sec, msg: string)
    ensures (exists cls :: Commands(mac, sec, msg, cls)) <==> Admit(mac, sec, msg).1.Applied?
  {
    hide Admit, Commands;
    if Admit(mac, sec, msg).1.Applied? {
      AdmitsIff(mac, sec, msg, Admit(mac, sec, msg).1.cls);
    }
    if cls :| Commands(mac, sec, msg, cls) {
      AdmitsIff(mac, sec, msg, cls);
    }
  }

  lemma AdmitLeaves(mac: Mac, sec: Sec, msg: string)
    ensures var after := Admit(mac, sec, msg).0;
            after == sec.(lastNonce := after.lastNonce) && NonceAfter(mac, sec, msg, after.lastNonce)
  {
    if sec.tokenLoaded {
      forall cls, nonce: u64
        ensures HasSigned(mac, sec.token, msg, cls, nonce) <==> Verify(mac, sec.token, msg) == Some((cls, nonce))
      {
        SignedIffVerified(mac, sec.token, msg, cls, nonce);
      }
    }
    hide Verify, HasSigned, LegacyClass;
  }

  // ---- the whole callback ----

  /**
   At every tick of every run: the daemon obeys with class cls exactly if the FIFO holds a command of
   class cls, fresh if there is a token, and both rate limits allow it.
   */
  lemma ObeysIff(mac: Mac, es: seq<S.Event>, rs: seq<S.Run>, i: nat, cls: Class)
    requires S.Trace(mac, es, rs) && i < |es| && es[i].Ticked?
    ensures var sec, t := rs[i].state.sec, es[i].tick;
            && sec.token == rs[0].state.sec.token && sec.tokenLoaded == rs[0].state.sec.tokenLoaded
            && (D.OnTick(mac, rs[i].state, t).1 == D.ByFifo(cls) <==>
                t.input.Some? && Commands(mac, sec, t.input.value, cls) && InLimits(sec, t.now))
  {
    S.NonceNeverFalls(mac, es, rs, 0, i);
    ChecksIff(mac, rs[i].state.sec, es[i].tick.input, es[i].tick.now, cls);
    hide S.Trace, Commands, InLimits, Check;
  }

  /** The same interfaces, instances and DAGs. */
  ghost predicate SameShape(a: seq<Iface>, b: seq<Iface>) {
    && |a| == |b|
    && (forall i :: 0 <= i < |a| ==> |a[i].rpls| == |b[i].rpls|)
    && forall i, j :: 0 <= i < |a| && 0 <= j < |a[i].rpls| && |a[i].rpls| == |b[i].rpls| ==> |a[i].rpls[j]| == |b[i].rpls[j]|
  }

  /** A switch to cls leaves every interface and DAG where it was, in class cls. */
  lemma SetAllMeaning(ifaces: seq<Iface>, cls: Class)
    ensures SameShape(ifaces, SetAll(ifaces, cls)) && Uniform(SetAll(ifaces, cls), cls)
  {
  }

  /** And what the switch does, from either source: all interfaces and DAGs, and nothing but the class of each. */
  lemma SwitchMeaning(mac: Mac, es: seq<S.Event>, rs: seq<S.Run>, i: nat)
    requires S.Trace(mac, es, rs) && i < |es| && es[i].Ticked?
    ensures var s := D.OnTick(mac, rs[i].state, es[i].tick).1;
            if s.Nothing? then rs[i + 1].state.ifaces == rs[i].state.ifaces
            else SameShape(rs[i].state.ifaces, rs[i + 1].state.ifaces) && Uniform(rs[i + 1].state.ifaces, s.cls)
  {
    S.StepOf(mac, es, rs, i);
    SetAllMeaning(rs[i].state.ifaces, ClassS);
    SetAllMeaning(rs[i].state.ifaces, ClassN);
    hide S.Trace, Check, SetAll, SameShape, Uniform;
  }

  /** The guard after its look at what the FIFO holds at this tick. */
  function Looked(mac: Mac, sec: Sec, t: D.Tick): Sec {
    Check(mac, sec, t.input, t.now).0
  }

  /** Of the guard's state a tick changes what the look at the FIFO does, and the timestamp if the engine switches. */
  lemma TickLeaves(mac: Mac, d: D.State, t: D.Tick)
    ensures var (d', s) := D.OnTick(mac, d, t);
            && d'.adaptive == d.adaptive
            && d'.sec == (if s.ByEngine? then Looked(mac, d.sec, t).(lastSwitch := t.now) else Looked(mac, d.sec, t))
    ensures t.input == None ==> Looked(mac, d.sec, t) == d.sec
  {
    hide Admit, CurrentClass;
  }

  lemma PrintedIsSigned(mac: Mac, token: seq<byte>, cls: Class, nonce: u64)
    ensures HasSigned(mac, token, Message(mac, token, cls, nonce), cls, nonce)
  {
    CommandRoundTrip(mac, token, cls, nonce);
    SignedIffVerified(mac, token, Message(mac, token, cls, nonce), cls, nonce);
  }

  /** Any printed command with a fresh nonce, within the limits, switches all interfaces and DAGs to its class. */
  lemma PrintedCommandIsObeyed(mac: Mac, es: seq<S.Event>, rs: seq<S.Run>, i: nat, cls: Class, nonce: u64)
    requires S.Trace(mac, es, rs) && i < |es| && es[i].Ticked? && rs[i].state.sec.tokenLoaded
    requires es[i].tick.input == Some(Message(mac, rs[i].state.sec.token, cls, nonce)) && nonce > rs[i].state.sec.lastNonce
    requires InLimits(rs[i].state.sec, es[i].tick.now)
    ensures D.OnTick(mac, rs[i].state, es[i].tick).1 == D.ByFifo(cls)
    ensures Uniform(rs[i + 1].state.ifaces, cls) && SameShape(rs[i].state.ifaces, rs[i + 1].state.ifaces)
  {
    PrintedIsSigned(mac, rs[i].state.sec.token, cls, nonce);
    ObeysIff(mac, es, rs, i, cls);
    SwitchMeaning(mac, es, rs, i);
  }
}
