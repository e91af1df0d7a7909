/**
 One non-root node over arbitrary interleavings of received DIOs, of whatever ranks, and liveness
 checks: when rank and parent stay coherent, when the node takes itself for the root, when a silent
 parent is given up, and when a parent is kept.
 */
module Liveness {
  import opened Wrappers
  import opened Rpl
  import DS = DagState

  datatype NodeEvent = HearDio(from: Addr, rank: u16, now: real) | CheckTimer(now: real)

  function Next(d: DS.State, e: NodeEvent): DS.State {
    match e
    case HearDio(from, rank, now) => DS.ReceiveDio(d, from, rank, now)
    case CheckTimer(now) => DS.CheckParent(d, now)
  }

  /** The state after the first n events. */
  function At(d: DS.State, es: seq<NodeEvent>, n: nat): DS.State
    requires n <= |es|
  {
    if n == 0 then d else Next(At(d, es, n - 1), es[n - 1])
  }

  // ---- coherence of rank and parent ----

  /** Before the first DIO, while orphaned, or one rank below the parent's; and never the root's rank. */
  predicate Coherent(d: DS.State) {
    && d.myRank != 1
    && match d.parent
       case None => d.myRank == 0xFFFF
       case Some(p) => (p.rank == 0xFFFF && d.myRank == 0xFFFF) || d.myRank as int == p.rank as int + 1
  }

  predicate HasLiveParent(d: DS.State) {
    d.parent.Some? && d.parent.value.rank != 0xFFFF
  }

  /**
   Exactly which DIOs break coherence: rank 0, which makes the receiver believe it is the root, and
   rank 0xFFFF at a node without a live parent, whose own rank then wraps around to 0.
   */
  lemma DioKeepsCoherenceIff(d: DS.State, from: Addr, rank: u16, now: real)
    requires Coherent(d)
    ensures Coherent(DS.ReceiveDio(d, from, rank, now)) <==>
            rank != 0 && (rank == 0xFFFF ==> HasLiveParent(d))
  {
    if HasLiveParent(d) {
      DS.LiveParentKeeps(d, from, rank, now);
    } else {
      DS.NoParentAdopts(d, from, rank, now);
    }
  }

  /** The event is a DIO that breaks coherence, by the condition above. */
  predicate Breaks(d: DS.State, e: NodeEvent) {
    e.HearDio? && (e.rank == 0 || (e.rank == 0xFFFF && !HasLiveParent(d)))
  }

  lemma StepKeepsCoherenceIff(d: DS.State, e: NodeEvent)
    requires Coherent(d)
    ensures Coherent(Next(d, e)) <==> !Breaks(d, e)
  {
    if e.HearDio? {
      DioKeepsCoherenceIff(d, e.from, e.rank, e.now);
    }
  }

  ghost predicate CoherentAt(d: DS.State, es: seq<NodeEvent>, n: nat)
    requires n <= |es|
  {
    Coherent(At(d, es, n))
  }

  /** Event i breaks the coherence of the state it meets. */
  ghost predicate BreaksAt(d: DS.State, es: seq<NodeEvent>, i: nat)
    requires i < |es|
  {
    Breaks(At(d, es, i), es[i])
  }

  lemma StaysCoherentIff(d: DS.State, es: seq<NodeEvent>, i: nat)
    requires i < |es| && CoherentAt(d, es, i)
    ensures CoherentAt(d, es, i + 1) <==> !BreaksAt(d, es, i)
  {
    StepKeepsCoherenceIff(At(d, es, i), es[i]);
  }

  lemma {:induction false} CoherentUntil(d: DS.State, es: seq<NodeEvent>, n: nat)
    requires Coherent(d) && n <= |es| && forall i: nat :: i < n ==> !BreaksAt(d, es, i)
    ensures CoherentAt(d, es, n)
    decreases n
  {
    hide Coherent, BreaksAt, Next;
    if n > 0 {
      CoherentUntil(d, es, n - 1);
      StaysCoherentIff(d, es, n - 1);
    }
  }

  /** Over all interleavings of DIOs and checks a node is coherent throughout exactly if it never hears such a DIO. */
  lemma CoherentThroughoutIff(d: DS.State, es: seq<NodeEvent>)
    requires Coherent(d)
    ensures (forall n: nat :: n <= |es| ==> CoherentAt(d, es, n)) <==> (forall i: nat :: i < |es| ==> !BreaksAt(d, es, i))
  {
    hide CoherentAt, BreaksAt;
    if i: nat :| i < |es| && BreaksAt(d, es, i) {
      if CoherentAt(d, es, i) {
        StaysCoherentIff(d, es, i);
      }
    } else {
      forall n: nat | n <= |es|
        ensures CoherentAt(d, es, n)
      {
        CoherentUntil(d, es, n);
      }
    }
  }

  // ---- who takes itself for the root ----

  /** One of the first n events is a DIO of rank 0. */
  ghost predicate ZeroHeard(es: seq<NodeEvent>, n: nat)
    requires n <= |es|
  {
    exists i :: 0 <= i < n && es[i].HearDio? && es[i].rank == 0
  }

  /** The root's rank comes from a DIO of rank 0, which is accepted from anyone, and from nothing else. */
  lemma RootRankIff(d: DS.State, e: NodeEvent)
    requires d.myRank != 1
    ensures Next(d, e).myRank == 1 <==> e.HearDio? && e.rank == 0
  {
  }

  /** Whoever has the root's rank ignores DIOs and checks. */
  lemma {:induction false} RootRankStays(d: DS.State, es: seq<NodeEvent>, m: nat, n: nat)
    requires m <= n <= |es| && At(d, es, m).myRank == 1
    ensures At(d, es, n) == At(d, es, m)
    decreases n
  {
    if m < n {
      RootRankStays(d, es, m, n - 1);
    }
  }

  lemma {:induction false} HasRootRankIff(d: DS.State, es: seq<NodeEvent>, n: nat)
    requires d.myRank != 1 && n <= |es|
    ensures At(d, es, n).myRank == 1 <==> ZeroHeard(es, n)
    decreases n
  {
    if n > 0 {
      HasRootRankIff(d, es, n - 1);
      if At(d, es, n - 1).myRank == 1 {
        RootRankStays(d, es, n - 1, n);
      } else {
        RootRankIff(At(d, es, n - 1), es[n - 1]);
      }
    }
  }

  /**
   Whatever else happens to it, a node of a hybrid DODAG answers DAOs with source routes, as only the
   root should, exactly if it has heard a DIO of rank 0.
   */
  lemma ActsAsRootIff(d: DS.State, es: seq<NodeEvent>, n: nat)
    requires d.myRank != 1 && n <= |es| && d.mop == 6
    ensures DS.BuildsTree(At(d, es, n)) <==> ZeroHeard(es, n)
  {
    HasRootRankIff(d, es, n);
    MopStays(d, es, n);
  }

  lemma {:induction false} MopStays(d: DS.State, es: seq<NodeEvent>, n: nat)
    requires n <= |es|
    ensures At(d, es, n).mop == d.mop && At(d, es, n).trickle == d.trickle
    decreases n
  {
    if n > 0 {
      MopStays(d, es, n - 1);
    }
  }

  // ---- detection time ----

  ghost predicate InTimeOrder(es: seq<NodeEvent>, start: real) {
    && (forall i :: 0 <= i < |es| ==> start <= es[i].now)
    && (forall i, j :: 0 <= i <= j < |es| ==> es[i].now <= es[j].now)
  }

  /** Every window of one check interval that begins between from and to contains a check. */
  ghost predicate ChecksCover(es: seq<NodeEvent>, from: real, to: real) {
    forall t: real :: from <= t <= to ==> HasCheckSoonAfter(es, t)
  }

  ghost predicate HasCheckSoonAfter(es: seq<NodeEvent>, t: real) {
    exists k :: 0 <= k < |es| && es[k].CheckTimer? && t <= es[k].now <= t + 5.0
  }

  /** Of the first k events none is a DIO of the parent. */
  ghost predicate SilentUntil(es: seq<NodeEvent>, parent: Addr, k: nat)
    requires k <= |es|
  {
    forall i :: 0 <= i < k ==> !IsDioOf(es[i], parent)
  }

  predicate IsDioOf(e: NodeEvent, parent: Addr) {
    e.HearDio? && e.from == parent
  }

  function Timeout(d: DS.State): real {
    8.0 * d.trickle
  }

  /** Event k is the first check that comes when the timeout has run out. */
  ghost predicate FirstDue(es: seq<NodeEvent>, k: nat, due: real) {
    && k < |es| && es[k].CheckTimer? && due <= es[k].now
    && forall i :: 0 <= i < k && es[i].CheckTimer? ==> es[i].now < due
  }

  /** The parent is still the same live one, last heard of at the same time. */
  predicate Unchanged(d: DS.State, s: DS.State) {
    HasLiveParent(d) && HasLiveParent(s) && s.parent.value.addr == d.parent.value.addr && s.lastSeen == d.lastSeen
  }

  /** The parent has been given up, and with it the node's own rank. */
  predicate GivenUp(d: DS.State, s: DS.State)
    requires d.parent.Some?
  {
    s.parent == Some(Peer(d.parent.value.addr, 0xFFFF)) && s.myRank == 0xFFFF
  }

  /** A DIO from someone else leaves a live parent where it is, and so does a check before the timeout. */
  lemma UnchangedOneMore(d: DS.State, s: DS.State, e: NodeEvent)
    requires s.myRank != 1 && Unchanged(d, s) && !IsDioOf(e, d.parent.value.addr)
    requires e.CheckTimer? ==> !DS.TimedOut(s, e.now)
    ensures Unchanged(d, Next(s, e))
  {
    if e.HearDio? {
      DS.LiveParentKeeps(s, e.from, e.rank, e.now);
    }
  }

  lemma {:induction false} UnchangedUntilDue(d: DS.State, es: seq<NodeEvent>, k: nat, n: nat)
    requires d.myRank != 1 && HasLiveParent(d) && FirstDue(es, k, d.lastSeen + Timeout(d))
    requires SilentUntil(es, d.parent.value.addr, k) && n <= k
    ensures Unchanged(d, At(d, es, n))
    decreases n
  {
    if n > 0 {
      UnchangedUntilDue(d, es, k, n - 1);
      MopStays(d, es, n - 1);
      var s, e := At(d, es, n - 1), es[n - 1];
      if s.myRank == 1 {
        RootRankStays(d, es, n - 1, n);
      } else {
        UnchangedOneMore(d, s, e);
      }
    }
  }

  /**
   What becomes of a parent that is silent until the first check k that is due, whatever else the
   node hears: it is kept until then, and that check gives it up exactly if no DIO of rank 0 was heard
   before. After one the node takes itself for the root and never gives the parent up.
   */
  lemma SilentParentIsGivenUpIff(d: DS.State, es: seq<NodeEvent>, k: nat)
    requires d.myRank != 1 && HasLiveParent(d) && FirstDue(es, k, d.lastSeen + Timeout(d))
    requires SilentUntil(es, d.parent.value.addr, k)
    ensures forall n: nat :: n <= k ==> Unchanged(d, At(d, es, n))
    ensures GivenUp(d, At(d, es, k + 1)) <==> !ZeroHeard(es, k)
    ensures (exists n: nat :: n <= |es| && GivenUp(d, At(d, es, n))) <==> !ZeroHeard(es, k)
  {
    forall n: nat | n <= k
      ensures Unchanged(d, At(d, es, n))
    {
      UnchangedUntilDue(d, es, k, n);
    }
    HasRootRankIff(d, es, k);
    MopStays(d, es, k);
    if ZeroHeard(es, k) {
      forall n: nat | n <= |es|
        ensures !GivenUp(d, At(d, es, n))
      {
        if n > k {
          RootRankStays(d, es, k, n);
        }
      }
    } else {
      assert DS.TimedOut(At(d, es, k), es[k].now);
      assert GivenUp(d, At(d, es, k + 1));
    }
  }

  lemma {:induction false} FirstDueBefore(es: seq<NodeEvent>, due: real, n: nat) returns (k: nat)
    requires n < |es| && es[n].CheckTimer? && due <= es[n].now
    ensures k <= n && FirstDue(es, k, due)
    decreases n
  {
    if i: nat :| i < n && es[i].CheckTimer? && due <= es[i].now {
      k := FirstDueBefore(es, due, i);
    } else {
      k := n;
    }
  }

  /** With a check at least every five seconds a silent parent is given up at most 8 * trickle + 5 seconds after its last DIO. */
  lemma SilentParentIsGivenUp(d: DS.State, es: seq<NodeEvent>) returns (k: nat)
    requires d.myRank != 1 && HasLiveParent(d) && d.trickle >= 0.0 && InTimeOrder(es, d.lastSeen)
    requires ChecksCover(es, d.lastSeen, d.lastSeen + Timeout(d))
    requires SilentUntil(es, d.parent.value.addr, |es|)
    ensures FirstDue(es, k, d.lastSeen + Timeout(d))
    ensures es[k].now <= d.lastSeen + Timeout(d) + 5.0
    ensures GivenUp(d, At(d, es, k + 1)) <==> !ZeroHeard(es, k)
    ensures (exists n: nat :: n <= |es| && GivenUp(d, At(d, es, n))) <==> !ZeroHeard(es, k)
  {
    var due := d.lastSeen + Timeout(d);
    assert HasCheckSoonAfter(es, due);
    var c :| 0 <= c < |es| && es[c].CheckTimer? && due <= es[c].now <= due + 5.0;
    k := FirstDueBefore(es, due, c);
    hide At, ZeroHeard, GivenUp, ChecksCover;
    SilentParentIsGivenUpIff(d, es, k);
  }

  // ---- no false alarm ----

  /** Event k is a check of a node that has not heard a DIO of rank 0, and comes too late after the parent's last DIO. */
  ghost predicate TooLate(es: seq<NodeEvent>, k: nat, parent: Addr, start: real, timeout: real)
    requires k < |es|
  {
    es[k].CheckTimer? && !ZeroHeard(es, k) && !HeardBefore(es, k, parent, start, timeout)
  }

  /** Event k comes less than the timeout after some earlier DIO of the parent, or after start. */

  ghost predicate HeardBefore(es: seq<NodeEvent>, k: nat, parent: Addr, start: real, timeout: real)
    requires k < |es|
  {
    || es[k].now - start < timeout
    || exists j :: 0 <= j < k && IsDioOf(es[j], parent) && es[k].now - es[j].now < timeout
  }

  /** The parent is still there, and last_seen is the time of the latest DIO heard from it, or still the old one. */
  ghost predicate SeenSince(d: DS.State, es: seq<NodeEvent>, n: nat, s: DS.State)
    requires n <= |es| && d.parent.Some?
  {
    && Kept(d, s) && s.lastSeen >= d.lastSeen
    && (forall j :: 0 <= j < n && IsDioOf(es[j], d.parent.value.addr) ==> s.lastSeen >= es[j].now)
    && (s.lastSeen == d.lastSeen || exists j :: 0 <= j < n && IsDioOf(es[j], d.parent.value.addr) && s.lastSeen == es[j].now)
  }

  /** The same parent, and not given up. */
  predicate Kept(d: DS.State, s: DS.State)
    requires d.parent.Some?
  {
    HasLiveParent(s) && s.parent.value.addr == d.parent.value.addr
  }

  lemma SeenOneMore(d: DS.State, es: seq<NodeEvent>, n: nat, s: DS.State)
    requires HasLiveParent(d) && n < |es| && SeenSince(d, es, n, s) && s.myRank != 1
    requires s.lastSeen <= es[n].now && (es[n].CheckTimer? ==> !DS.TimedOut(s, es[n].now))
    ensures SeenSince(d, es, n + 1, Next(s, es[n]))
  {
    if es[n].HearDio? {
      DS.LiveParentKeeps(s, es[n].from, es[n].rank, es[n].now);
      hide DS.ReceiveDio;
    }
    assert s.lastSeen != d.lastSeen ==>
        exists j :: 0 <= j < n + 1 && IsDioOf(es[j], d.parent.value.addr) && s.lastSeen == es[j].now;
  }

  lemma InTimeIsNotTimedOut(d: DS.State, es: seq<NodeEvent>, k: nat, s: DS.State)
    requires k < |es| && d.parent.Some? && SeenSince(d, es, k, s) && s.trickle == d.trickle
    requires es[k].CheckTimer? ==> HeardBefore(es, k, d.parent.value.addr, d.lastSeen, Timeout(d))
    ensures es[k].CheckTimer? ==> !DS.TimedOut(s, es[k].now)
  {
  }

  /** The parent stays, and as long as the node does not take itself for the root last_seen is that of its latest DIO. */
  ghost predicate KeptUntil(d: DS.State, es: seq<NodeEvent>, n: nat, s: DS.State)
    requires n <= |es| && d.parent.Some?
  {
    Kept(d, s) && (s.myRank == 1 || SeenSince(d, es, n, s))
  }

  lemma KeptOneMore(d: DS.State, es: seq<NodeEvent>, n: nat)
    requires d.myRank != 1 && HasLiveParent(d) && n < |es| && InTimeOrder(es, d.lastSeen)
    requires KeptUntil(d, es, n, At(d, es, n))
    requires !TooLate(es, n, d.parent.value.addr, d.lastSeen, Timeout(d))
    ensures KeptUntil(d, es, n + 1, At(d, es, n + 1))
  {
    hide SeenSince, HeardBefore, InTimeOrder, DS.TimedOut, Next, ZeroHeard;
    HasRootRankIff(d, es, n);
    if At(d, es, n).myRank == 1 {
      RootRankStays(d, es, n, n + 1);
    } else {
      MopStays(d, es, n);
      LastSeenIsPast(d, es, n);
      InTimeIsNotTimedOut(d, es, n, At(d, es, n));
      SeenOneMore(d, es, n, At(d, es, n));
      SeenIsKept(d, es, n + 1, At(d, es, n + 1));
    }
  }

  lemma SeenIsKept(d: DS.State, es: seq<NodeEvent>, n: nat, s: DS.State)
    requires n <= |es| && d.parent.Some? && SeenSince(d, es, n, s)
    ensures Kept(d, s)
  {
  }

  /** As long as no check comes too late the parent stays. */
  lemma {:induction false} KeptAsLongAsInTime(d: DS.State, es: seq<NodeEvent>, n: nat)
    requires d.myRank != 1 && HasLiveParent(d) && n <= |es| && InTimeOrder(es, d.lastSeen)
    requires forall k :: 0 <= k < n ==> !TooLate(es, k, d.parent.value.addr, d.lastSeen, Timeout(d))
    ensures KeptUntil(d, es, n, At(d, es, n))
    decreases n
  {
    if n > 0 {
      hide At, TooLate, InTimeOrder, KeptUntil;
      KeptAsLongAsInTime(d, es, n - 1);
      KeptOneMore(d, es, n - 1);
    }
  }

  /** A check that comes too late gives the parent up. */
  lemma LateCheckGivesUp(d: DS.State, es: seq<NodeEvent>, k: nat)
    requires d.myRank != 1 && HasLiveParent(d) && InTimeOrder(es, d.lastSeen)
    requires k < |es| && TooLate(es, k, d.parent.value.addr, d.lastSeen, Timeout(d))
    requires KeptUntil(d, es, k, At(d, es, k))
    ensures !Kept(d, At(d, es, k + 1))
  {
    HasRootRankIff(d, es, k);
    MopStays(d, es, k);
    var s := At(d, es, k);
    if s.lastSeen != d.lastSeen {
      var j :| 0 <= j < k && IsDioOf(es[j], d.parent.value.addr) && s.lastSeen == es[j].now;
    }
    assert DS.TimedOut(s, es[k].now);
  }

  /**
   Whatever DIOs a node hears, the parent is the same live one throughout exactly if each check comes
   less than eight trickle intervals after one of its DIOs or after the start, or after a DIO of rank 0.
   */
  lemma ParentIsKeptIff(d: DS.State, es: seq<NodeEvent>)
    requires d.myRank != 1 && HasLiveParent(d) && InTimeOrder(es, d.lastSeen)
    ensures (forall n: nat :: n <= |es| ==> Kept(d, At(d, es, n))) <==>
            (forall k: nat :: k < |es| ==> !TooLate(es, k, d.parent.value.addr, d.lastSeen, Timeout(d)))
  {
    hide At, TooLate, InTimeOrder;
    if forall k: nat :: k < |es| ==> !TooLate(es, k, d.parent.value.addr, d.lastSeen, Timeout(d)) {
      forall n: nat | n <= |es|
        ensures Kept(d, At(d, es, n))
      {
        KeptAsLongAsInTime(d, es, n);
      }
    } else {
      var k := FirstLateCheck(es, d.parent.value.addr, d.lastSeen, Timeout(d), |es|);
      KeptAsLongAsInTime(d, es, k);
      LateCheckGivesUp(d, es, k);
    }
  }

  lemma {:induction false} FirstLateCheck(es: seq<NodeEvent>, parent: Addr, start: real, timeout: real, n: nat) returns (k: nat)
    requires n <= |es| && exists k: nat :: k < n && TooLate(es, k, parent, start, timeout)
    ensures k < n && TooLate(es, k, parent, start, timeout)
    ensures forall j: nat :: j < k ==> !TooLate(es, j, parent, start, timeout)
    decreases n
  {
    hide TooLate;
    if exists j: nat :: j < n - 1 && TooLate(es, j, parent, start, timeout) {
      k := FirstLateCheck(es, parent, start, timeout, n - 1);
    } else {
      k := n - 1;
    }
  }

  /** The DIOs of the parent at the positions js follow one another, the start and the end less than `gap` apart. */
  ghost predicate KeepsComing(es: seq<NodeEvent>, parent: Addr, start: real, gap: real, js: seq<nat>) {
    && (forall i :: 0 <= i < |js| ==> js[i] < |es| && IsDioOf(es[js[i]], parent))
    && (forall i :: 0 < i < |js| ==> js[i - 1] < js[i] && es[js[i]].now - es[js[i - 1]].now < gap)
    && (js != [] ==> es[js[0]].now - start < gap)
    && forall k :: 0 <= k < |es| && (js != [] ==> js[|js| - 1] < k) ==>
                     es[k].now - (if js == [] then start else es[js[|js| - 1]].now) < gap
  }

  lemma {:induction false} ComesInTime(es: seq<NodeEvent>, parent: Addr, start: real, gap: real, js: seq<nat>, k: nat, n: nat)
    requires InTimeOrder(es, start) && KeepsComing(es, parent, start, gap, js) && k < |es| && es[k].CheckTimer?
    requires n <= |js| && (n < |js| ==> k < js[n])
    ensures HeardBefore(es, k, parent, start, gap)
    decreases n
  {
    if n > 0 && js[n - 1] >= k {
      ComesInTime(es, parent, start, gap, js, k, n - 1);
    } else if n < |js| {
      assert es[k].now <= es[js[n]].now;
    }
  }

  /** A parent whose DIOs keep arriving less than eight trickle intervals apart is never given up, whatever else is heard. */
  lemma RegularParentIsKept(d: DS.State, es: seq<NodeEvent>, js: seq<nat>, n: nat)
    requires HasLiveParent(d) && InTimeOrder(es, d.lastSeen) && n <= |es|
    requires KeepsComing(es, d.parent.value.addr, d.lastSeen, Timeout(d), js)
    ensures Kept(d, At(d, es, n))
  {
    if d.myRank == 1 {
      RootRankStays(d, es, 0, n);
    } else {
      forall k: nat | k < |es| && es[k].CheckTimer?
        ensures HeardBefore(es, k, d.parent.value.addr, d.lastSeen, Timeout(d))
      {
        ComesInTime(es, d.parent.value.addr, d.lastSeen, Timeout(d), js, k, |js|);
      }
      hide At, HeardBefore, InTimeOrder, KeepsComing, ZeroHeard;
      ParentIsKeptIff(d, es);
    }
  }

  lemma {:induction false} LastSeenIsPast(d: DS.State, es: seq<NodeEvent>, n: nat)
    requires n < |es| && InTimeOrder(es, d.lastSeen)
    ensures At(d, es, n).lastSeen <= es[n].now
    decreases n
  {
    if n > 0 {
      LastSeenIsPast(d, es, n - 1);
    }
  }
}
