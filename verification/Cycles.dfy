/**
 Parents in runs with failures. Without invalidations the chains of parents always end at the root
 (Downward); here is exactly when they go on doing so once parents are given up and replaced.
 */
module Cycles {
  import opened Rpl
  import opened DaoExchange
  import opened Network
  import L = Liveness
  import R = Ranks
  import DS = DagState

  // ---- maps of parents ----

  /** n parent steps lead from v to u. */
  ghost predicate Climbs<V>(p: map<V, V>, v: V, u: V, n: nat) {
    if n == 0 then v == u else v in p && Climbs(p, p[v], u, n - 1)
  }

  /** u is v itself or lies on the chain of parents that starts at v. */
  ghost predicate OnChain<V(!new)>(p: map<V, V>, v: V, u: V) {
    exists n: nat :: Climbs(p, v, u, n)
  }

  /** Every chain ends at r, which has no parent. */
  ghost predicate AllReach<V(!new)>(p: map<V, V>, r: V) {
    r !in p && forall v :: v in p ==> OnChain(p, v, r)
  }

  /** Of two nodes on a chain, the further one lies on the chain from the nearer one. */
  lemma {:induction false} Between<V>(p: map<V, V>, v: V, u: V, m: nat, w: V, n: nat)
    requires Climbs(p, v, u, m) && Climbs(p, v, w, n) && m <= n
    ensures Climbs(p, u, w, n - m)
    decreases m
  {
    if m > 0 {
      Between(p, p[v], u, m - 1, w, n - 1);
    }
  }

  /** A chain that comes back to v never ends. */
  lemma {:induction false} NoWayOut<V>(p: map<V, V>, v: V, c: nat, r: V, m: nat)
    requires c > 0 && Climbs(p, v, v, c) && r !in p
    ensures !Climbs(p, v, r, m)
    decreases m
  {
    if Climbs(p, v, r, m) {
      if m >= c {
        Between(p, v, v, c, r, m);
        NoWayOut(p, v, c, r, m - c);
      } else {
        Between(p, v, r, m, v, c);
      }
    }
  }

  /** A new parent of v makes no difference to the way to v. */
  lemma {:induction false} WayToChanged<V>(p: map<V, V>, v: V, w: V, u: V, n: nat) returns (k: nat)
    requires Climbs(p, u, v, n)
    ensures Climbs(p[v := w], u, v, k)
    decreases n
  {
    if u == v {
      k := 0;
    } else {
      k := WayToChanged(p, v, w, p[u], n - 1);
      k := k + 1;
    }
  }

  /** Nor does it to a chain without v. */
  lemma {:induction false} WayAround<V(!new)>(p: map<V, V>, v: V, w: V, u: V, r: V, n: nat)
    requires Climbs(p, u, r, n) && !OnChain(p, u, v)
    ensures Climbs(p[v := w], u, r, n)
    decreases n
  {
    if n > 0 {
      assert Climbs(p, u, u, 0);
      forall k: nat
        ensures !Climbs(p, p[u], v, k)
      {
        assert !Climbs(p, u, v, k + 1);
      }
      WayAround(p, v, w, p[u], r, n - 1);
    }
  }

  /** And a chain that was without v has not got to v by v's new parent. */
  lemma {:induction false} WayWasThere<V(!new)>(p: map<V, V>, v: V, w: V, u: V, r: V, n: nat)
    requires Climbs(p[v := w], u, r, n) && !OnChain(p, u, v)
    ensures Climbs(p, u, r, n)
    decreases n
  {
    if n > 0 {
      assert Climbs(p, u, u, 0);
      forall k: nat
        ensures !Climbs(p, p[u], v, k)
      {
        assert !Climbs(p, u, v, k + 1);
      }
      WayWasThere(p, v, w, p[u], r, n - 1);
    }
  }

  /** If the new parent still gets to r, everyone who did does. */
  lemma {:induction false} WayThrough<V(!new)>(p: map<V, V>, v: V, w: V, u: V, r: V, n: nat, m: nat)
    requires Climbs(p, u, r, n) && Climbs(p[v := w], w, r, m)
    ensures OnChain(p[v := w], u, r)
    decreases n
  {
    if u == v {
      assert Climbs(p[v := w], u, r, m + 1);
    } else if n == 0 {
      assert Climbs(p[v := w], u, r, 0);
    } else {
      WayThrough(p, v, w, p[u], r, n - 1, m);
      var k: nat :| Climbs(p[v := w], p[u], r, k);
      assert Climbs(p[v := w], u, r, k + 1);
    }
  }

  /** Giving v the parent w keeps all chains ending at r exactly if v is not on the chain of w. */
  lemma NewParentIff<V(!new)>(p: map<V, V>, r: V, v: V, w: V)
    requires AllReach(p, r) && v != r && (w == r || w in p)
    ensures AllReach(p[v := w], r) <==> !OnChain(p, w, v)
  {
    var p' := p[v := w];
    if OnChain(p, w, v) {
      var n: nat :| Climbs(p, w, v, n);
      var k := WayToChanged(p, v, w, w, n);
      assert Climbs(p', v, v, k + 1);
      forall m: nat
        ensures !Climbs(p', v, r, m)
      {
        NoWayOut(p', v, k + 1, r, m);
      }
      assert !OnChain(p', v, r);
    } else {
      assert Climbs(p, r, r, 0);
      var m: nat :| Climbs(p, w, r, m);
      WayAround(p, v, w, w, r, m);
      forall u | u in p'
        ensures OnChain(p', u, r)
      {
        if u == v {
          assert Climbs(p', v, r, m + 1);
        } else {
          var n: nat :| Climbs(p, u, r, n);
          WayThrough(p, v, w, u, r, n, m);
        }
      }
    }
  }

  /** A node outside the map lies on no chain of it but its own. */
  lemma {:induction false} StrangerIsOnNoChain<V>(p: map<V, V>, r: V, w: V, v: V, m: nat, n: nat)
    requires Climbs(p, w, r, m) && r !in p && v !in p && v != r
    ensures Climbs(p, w, v, n) ==> w == v
    decreases n
  {
    if n > 0 && Climbs(p, w, v, n) && m > 0 {
      StrangerIsOnNoChain(p, r, p[w], v, m - 1, n - 1);
    }
  }

  // ---- the parents of a network ----

  ghost function Parents(s: Net): map<Addr, Addr> {
    map v | v in s.nodes && s.nodes[v].parent.Some? :: s.nodes[v].parent.value.addr
  }

  /** From every joined node the chain of parents reaches the root. */
  ghost predicate Rooted(c: Config, s: Net) {
    AllReach(Parents(s), c.root)
  }

  /** A node other than the root has a parent, and not the root's rank while the parent's is 0xFFFF. */
  predicate Attached(d: DS.State) {
    d.parent.Some? && (d.parent.value.rank == 0xFFFF ==> d.myRank != 1)
  }

  /** What failures leave of the invariant of quiet runs: no word of finite ranks or of the order of joining. */
  ghost predicate Loose(c: Config, s: Net) {
    && c.root in s.nodes && s.nodes[c.root].myRank == 1 && s.nodes[c.root].parent.None?
    && (forall v :: v in s.nodes && v != c.root ==> Attached(s.nodes[v]))
    && (forall m :: m in s.dios ==> m.src in s.nodes)
  }

  /** The node follows the sender of the DIO from now on: a newcomer, or an orphan that hears of someone else. */
  ghost predicate Adopts(s: Net, v: Addr, from: Addr) {
    v in s.nodes ==>
      && s.nodes[v].parent.Some?
      && s.nodes[v].parent.value.rank == 0xFFFF && s.nodes[v].parent.value.addr != from
  }

  /** An orphan adopts a node that is itself behind the orphan. */
  ghost predicate ClosesCycle(s: Net, e: Event) {
    e.RecvDio? && e.v in s.nodes && Adopts(s, e.v, e.dio.src) && OnChain(Parents(s), e.dio.src, e.v)
  }

  lemma DioKeepsAttached(d: DS.State, from: Addr, rank: u16, now: real)
    requires d.myRank != 1 || Attached(d)
    ensures Attached(DS.ReceiveDio(d, from, rank, now))
  {
  }

  lemma StepKeepsLoose(c: Config, s: Net, e: Event)
    requires Loose(c, s) && Enabled(c, s, e)
    ensures Loose(c, Apply(c, s, e))
  {
    hide DS.ReceiveDao, DS.SentOnDio;
    if e.RecvDio? && e.v != c.root {
      DioKeepsAttached(Before(c, s, e.v, e.now), e.dio.src, e.dio.rank, e.now);
      hide DS.ReceiveDio;
    } else if e.RecvDao? {
      R.DaoKeepsRank(s.nodes[e.v], ReadBack(e.dao.body), e.dao.src);
    }
  }

  lemma {:induction false} RunIsLoose(c: Config, es: seq<Event>, ss: seq<Net>, i: nat)
    requires Run(c, es, ss) && i < |ss|
    ensures Loose(c, ss[i])
    decreases i
  {
    hide Loose, Apply, Enabled;
    if i == 0 {
      StartsLoose(c);
    } else {
      RunIsLoose(c, es, ss, i - 1);
      StepKeepsLoose(c, ss[i - 1], es[i - 1]);
    }
  }

  lemma StartsLoose(c: Config)
    ensures Loose(c, Init(c)) && Rooted(c, Init(c))
  {
  }

  /** The parent after a DIO, of a node that does not act as root. */
  lemma ParentAfterDio(d: DS.State, from: Addr, rank: u16, now: real)
    requires d.parent.Some? ==> Attached(d)
    requires d.parent.None? ==> d.myRank != 1
    ensures var p := DS.ReceiveDio(d, from, rank, now).parent;
            p.Some? && p.value.addr == if d.parent.None? || d.parent.value.rank == 0xFFFF then from else d.parent.value.addr
  {
  }

  /** What a step does to one node's parent is all it does to the parents. */
  lemma OneParentMoves(s: Net, t: Net, v: Addr, d: DS.State)
    requires t.nodes == s.nodes[v := d] && d.parent.Some?
    ensures Parents(t) == Parents(s)[v := d.parent.value.addr]
  {
  }

  lemma NoParentMoves(s: Net, t: Net, v: Addr, d: DS.State)
    requires t.nodes == s.nodes[v := d] && v in s.nodes
    requires d.parent.Some? <==> s.nodes[v].parent.Some?
    requires d.parent.Some? ==> d.parent.value.addr == s.nodes[v].parent.value.addr
    ensures Parents(t) == Parents(s)
  {
  }

  /** A DIO is the only thing that moves a parent, and it moves only the parent of one that adopts. */
  lemma StepParents(c: Config, s: Net, e: Event)
    requires Loose(c, s) && Enabled(c, s, e)
    ensures Parents(Apply(c, s, e)) ==
            if e.RecvDio? && e.v != c.root && Adopts(s, e.v, e.dio.src) then Parents(s)[e.v := e.dio.src] else Parents(s)
  {
    var t := Apply(c, s, e);
    hide DS.SentOnDio, DS.ReceiveDao, Parents;
    if e.RecvDio? {
      DioParents(c, s, e.v, e.dio, e.now);
    } else if e.RecvDao? {
      R.DaoKeepsRank(s.nodes[e.v], ReadBack(e.dao.body), e.dao.src);
      NoParentMoves(s, t, e.v, DS.ReceiveDao(s.nodes[e.v], ReadBack(e.dao.body), e.dao.src));
    } else if e.Check? {
      NoParentMoves(s, t, e.v, DS.CheckParent(s.nodes[e.v], e.now));
    } else {
      SameParents(s, t);
    }
  }

  lemma SameParents(s: Net, t: Net)
    requires t.nodes == s.nodes
    ensures Parents(t) == Parents(s)
  {
  }

  lemma DioParents(c: Config, s: Net, v: Addr, m: DioMsg, now: real)
    requires Loose(c, s) && Enabled(c, s, RecvDio(v, m, now))
    ensures Parents(Apply(c, s, RecvDio(v, m, now))) ==
            if v != c.root && Adopts(s, v, m.src) then Parents(s)[v := m.src] else Parents(s)
  {
    var t, d := Apply(c, s, RecvDio(v, m, now)), DS.ReceiveDio(Before(c, s, v, now), m.src, m.rank, now);
    assert t.nodes == s.nodes[v := d] by {
      hide DS.SentOnDio, DS.ReceiveDio, Before;
    }
    if v == c.root {
      NoParentMoves(s, t, v, d);
    } else {
      ParentAfterDio(Before(c, s, v, now), m.src, m.rank, now);
      hide DS.ReceiveDio, Apply, Parents;
      OneParentMoves(s, t, v, d);
      if v in s.nodes && !Adopts(s, v, m.src) {
        NoParentMoves(s, t, v, d);
      }
    }
  }

  /**
   One step: as long as every chain of parents reaches the root, the only step after which one does
   not is the delivery of a DIO to a node whose parent was given up, from a sender that is not this
   parent and whose own chain of parents leads over the receiver. Ranks play no part in it.
   */
  lemma StepKeepsRootedIff(c: Config, s: Net, e: Event)
    requires Loose(c, s) && Enabled(c, s, e) && Rooted(c, s)
    ensures Rooted(c, Apply(c, s, e)) <==> !ClosesCycle(s, e)
  {
    StepParents(c, s, e);
    if e.RecvDio? && e.v != c.root && Adopts(s, e.v, e.dio.src) {
      var p, v, u := Parents(s), e.v, e.dio.src;
      SenderIsInTree(c, s, u);
      hide Apply, Enabled;
      NewParentIff(p, c.root, v, u);
      if v !in s.nodes {
        NewcomerIsOnNoChain(c, s, u, v);
      }
    }
  }

  lemma SenderIsInTree(c: Config, s: Net, u: Addr)
    requires Loose(c, s) && u in s.nodes
    ensures u == c.root || u in Parents(s)
  {
  }

  lemma NewcomerIsOnNoChain(c: Config, s: Net, u: Addr, v: Addr)
    requires Loose(c, s) && Rooted(c, s) && u in s.nodes && v !in s.nodes
    ensures !OnChain(Parents(s), u, v)
  {
    var p := Parents(s);
    assert Climbs(p, c.root, c.root, 0);
    assert OnChain(p, u, c.root);
    var m: nat :| Climbs(p, u, c.root, m);
    forall n: nat
      ensures !Climbs(p, u, v, n)
    {
      StrangerIsOnNoChain(p, c.root, u, v, m, n);
    }
  }

  /**
   Whole runs, with failures and in any order: all chains of parents end at the root throughout
   exactly if no orphan ever adopts a node that is behind it.
   */
  lemma RunKeepsRootedIff(c: Config, es: seq<Event>, ss: seq<Net>)
    requires Run(c, es, ss)
    ensures (forall i :: 0 <= i < |ss| ==> Rooted(c, ss[i])) <==> (forall i :: 0 <= i < |es| ==> !ClosesCycle(ss[i], es[i]))
  {
    hide Rooted, Loose, ClosesCycle, Enabled, Apply;
    if forall i :: 0 <= i < |ss| ==> Rooted(c, ss[i]) {
      forall i | 0 <= i < |es|
        ensures !ClosesCycle(ss[i], es[i])
      {
        RunIsLoose(c, es, ss, i);
        assert Rooted(c, ss[i]) && Rooted(c, ss[i + 1]) && Enabled(c, ss[i], es[i]) && ss[i + 1] == Apply(c, ss[i], es[i]);
        StepKeepsRootedIff(c, ss[i], es[i]);
      }
    }
    if forall i :: 0 <= i < |es| ==> !ClosesCycle(ss[i], es[i]) {
      forall i | 0 <= i < |ss|
        ensures Rooted(c, ss[i])
      {
        RootedUpTo(c, es, ss, i);
      }
    }
  }

  lemma {:induction false} RootedUpTo(c: Config, es: seq<Event>, ss: seq<Net>, i: nat)
    requires Run(c, es, ss) && i < |ss|
    requires forall k :: 0 <= k < i ==> !ClosesCycle(ss[k], es[k])
    ensures Rooted(c, ss[i])
    decreases i
  {
    hide Rooted, Loose, ClosesCycle, Enabled, Apply;
    if i == 0 {
      StartsLoose(c);
    } else {
      RootedUpTo(c, es, ss, i - 1);
      RunIsLoose(c, es, ss, i - 1);
      StepKeepsRootedIff(c, ss[i - 1], es[i - 1]);
    }
  }

  // ---- what becomes of a cycle ----

  /** n parent steps lead from v back to v, and everyone on the way has a live parent. */
  ghost predicate LiveCycle(s: Net, v: Addr, n: nat) {
    && n > 0 && Climbs(Parents(s), v, v, n)
    && forall u :: OnChain(Parents(s), v, u) ==> u in s.nodes && L.HasLiveParent(s.nodes[u])
  }

  /** A check gives up the parent of a node on the cycle through v. */
  ghost predicate GivesUpOn(s: Net, v: Addr, e: Event) {
    e.Check? && e.v in s.nodes && OnChain(Parents(s), v, e.v) && DS.TimedOut(s.nodes[e.v], e.now)
  }

  /** A new parent of someone who is not on the chain makes no difference to who is. */
  lemma SameChain<V(!new)>(p: map<V, V>, v: V, w: V, x: V)
    requires !OnChain(p, v, w)
    ensures forall u :: OnChain(p[w := x], v, u) <==> OnChain(p, v, u)
    ensures forall u, n: nat :: Climbs(p, v, u, n) ==> Climbs(p[w := x], v, u, n)
  {
    forall u, n: nat | Climbs(p, v, u, n)
      ensures Climbs(p[w := x], v, u, n)
    {
      WayAround(p, w, x, v, u, n);
    }
    forall u | OnChain(p[w := x], v, u)
      ensures OnChain(p, v, u)
    {
      var n: nat :| Climbs(p[w := x], v, u, n);
      WayWasThere(p, w, x, v, u, n);
    }
  }

  /** While all of them have live parents, nobody on the cycle gets another one. */
  lemma CycleKeepsItsParents(c: Config, s: Net, e: Event, v: Addr, n: nat)
    requires Loose(c, s) && Enabled(c, s, e) && LiveCycle(s, v, n)
    ensures Climbs(Parents(Apply(c, s, e)), v, v, n)
    ensures forall u :: OnChain(Parents(Apply(c, s, e)), v, u) <==> OnChain(Parents(s), v, u)
  {
    StepParents(c, s, e);
    if e.RecvDio? && e.v != c.root && Adopts(s, e.v, e.dio.src) {
      hide Apply, Loose, Enabled;
      SameChain(Parents(s), v, e.v, e.dio.src);
    }
  }

  /** A live parent is lost only to a check that gives it up. */
  lemma StaysLiveIff(c: Config, s: Net, e: Event, u: Addr)
    requires Enabled(c, s, e) && u in s.nodes && L.HasLiveParent(s.nodes[u])
    ensures u in Apply(c, s, e).nodes
    ensures L.HasLiveParent(Apply(c, s, e).nodes[u]) <==> !(e.Check? && e.v == u && DS.TimedOut(s.nodes[u], e.now))
  {
    hide DS.SentOnDio;
    if e.RecvDio? {
      if e.v == u && s.nodes[u].myRank != 1 {
        DS.LiveParentKeeps(s.nodes[u], e.dio.src, e.dio.rank, e.now);
        hide DS.ReceiveDio;
      }
    } else if e.RecvDao? {
      R.DaoKeepsRank(s.nodes[e.v], ReadBack(e.dao.body), e.dao.src);
      hide DS.ReceiveDao;
    }
  }

  /** One step: whatever happens, a cycle of live parents stays one unless a check gives up a parent on it. */
  lemma StepKeepsCycleIff(c: Config, s: Net, e: Event, v: Addr, n: nat)
    requires Loose(c, s) && Enabled(c, s, e) && LiveCycle(s, v, n)
    ensures LiveCycle(Apply(c, s, e), v, n) <==> !GivesUpOn(s, v, e)
  {
    var t := Apply(c, s, e);
    CycleKeepsItsParents(c, s, e, v, n);
    hide Apply, Loose, Enabled, L.HasLiveParent, DS.TimedOut;
    forall u | OnChain(Parents(s), v, u)
      ensures u in t.nodes
      ensures L.HasLiveParent(t.nodes[u]) <==> !(e.Check? && e.v == u && DS.TimedOut(s.nodes[u], e.now))
    {
      StaysLiveIff(c, s, e, u);
    }
  }

  /**
   Whole runs: a closed cycle cuts its members off from the root, and they stay cut off, on the same
   cycle, until the liveness timer of one of them gives up its parent. No DIO, whatever its sender or
   rank, opens it.
   */
  lemma {:induction false} CycleStays(c: Config, es: seq<Event>, ss: seq<Net>, i: nat, j: nat, v: Addr, n: nat)
    requires Run(c, es, ss) && i <= j < |ss| && LiveCycle(ss[i], v, n)
    requires forall k :: i <= k < j ==> !GivesUpOn(ss[k], v, es[k])
    ensures LiveCycle(ss[j], v, n) && !OnChain(Parents(ss[j]), v, c.root)
    decreases j
  {
    hide LiveCycle, GivesUpOn, Loose, Enabled, Apply, OnChain;
    RunIsLoose(c, es, ss, j);
    if i < j {
      CycleStays(c, es, ss, i, j - 1, v, n);
      RunIsLoose(c, es, ss, j - 1);
      StepKeepsCycleIff(c, ss[j - 1], es[j - 1], v, n);
    }
    CycleIsCutOff(c, ss[j], v, n);
  }

  lemma CycleIsCutOff(c: Config, s: Net, v: Addr, n: nat)
    requires Loose(c, s) && LiveCycle(s, v, n)
    ensures !OnChain(Parents(s), v, c.root)
  {
  }
}
