/**
 The other half of downward routing: what DAOs bring about. Once DAOs have climbed a chain of
 aggregating nodes, the node on top routes to the one at the bottom.
 */
module Coverage {
  import opened Rpl
  import opened Network
  import opened DaoExchange
  import opened Downward
  import R = Ranks
  import DS = DagState

  // ---- children are never forgotten ----

  lemma StepGrows(c: Config, s: Net, e: Event)
    requires c.WellFormed() && R.Inv(c, s) && Quiet(c, s, e)
    ensures Grows(s, Apply(c, s, e))
  {
    var t := Apply(c, s, e);
    hide R.Inv, R.NodeInv, Grows, Before, DS.ReceiveDio, DS.ReceiveDao, DS.SentOnDio, DaoBody, ReadBack;
    if e.RecvDio? {
      R.RecvDioTouches(c, s, e.v, e.dio, e.now);
      if e.v in s.nodes {
        RecvDioGrows(c, s, e.v, e.dio, e.now);
      }
      OneNodeGrows(s, t, e.v);
    } else if e.RecvDao? {
      InvJoined(c, s);
      R.RecvDaoTouches(c, s, e.v, e.dao);
      RecvDaoGrows(s.nodes[e.v], ReadBack(e.dao.body), e.dao.src);
      OneNodeGrows(s, t, e.v);
    } else if e.Check? {
      R.QuietCheckChangesNothing(c, s, e);
      GrowsItself(s);
    } else {
      SameNodesGrow(s, t);
    }
  }

  lemma InvJoined(c: Config, s: Net)
    requires R.Inv(c, s)
    ensures R.Joined(c, s)
  {
  }

  lemma SameNodesGrow(s: Net, t: Net)
    requires t.nodes == s.nodes
    ensures Grows(s, t)
  {
  }

  lemma GrowsItself(s: Net)
    ensures Grows(s, s)
  {
  }

  lemma GrowsTransitively(s: Net, t: Net, u: Net)
    requires Grows(s, t) && Grows(t, u)
    ensures Grows(s, u)
  {
    forall v | v in s.nodes
      ensures v in u.nodes && GrowsAt(s.nodes[v], u.nodes[v])
    {
      assert GrowsAt(s.nodes[v], t.nodes[v]) && GrowsAt(t.nodes[v], u.nodes[v]);
    }
  }

  lemma {:induction false} RunGrows(c: Config, es: seq<Event>, ss: seq<Net>, i: nat, j: nat)
    requires c.WellFormed() && QuietRun(c, es, ss) && i <= j < |ss|
    ensures Grows(ss[i], ss[j])
    decreases j
  {
    hide *;
    StartOf(c, es, ss);
    if i == j {
      GrowsItself(ss[i]);
    } else {
      RunGrows(c, es, ss, i, j - 1);
      R.QuietRunInv(c, es, ss, j - 1);
      StepOf(c, es, ss, j - 1);
      StepGrows(c, ss[j - 1], es[j - 1]);
      GrowsTransitively(ss[i], ss[j - 1], ss[j]);
    }
  }

  // ---- DAOs climb the tree ----

  /** A DAO that u builds at i or later reaches its parent before j. */
  ghost predicate DaoArrives(es: seq<Event>, ss: seq<Net>, i: nat, j: nat, u: Addr)
    requires i <= j <= |es| < |ss|
  {
    exists a: nat, b: nat ::
      && i <= a < b < j && u in ss[a].nodes && ss[a].nodes[u].parent.Some?
      && es[b] == RecvDao(ParentOf(ss[a], u), DaoMsg(u, ParentOf(ss[a], u), DaoBody(ss[a].nodes[u])))
  }

  ghost predicate DaoRound(c: Config, es: seq<Event>, ss: seq<Net>, i: nat, j: nat)
    requires i <= j <= |es| < |ss|
  {
    forall u :: u in ss[i].nodes && u != c.root ==> DaoArrives(es, ss, i, j, u)
  }

  ghost predicate Knows(s: Net, v: Addr, x: Addr) {
    v in s.nodes && x in DS.Addresses(s.nodes[v].childs)
  }

  lemma KnowsStays(s: Net, t: Net, v: Addr, x: Addr)
    requires Grows(s, t) && Knows(s, v, x)
    ensures Knows(t, v, x)
  {
    assert GrowsAt(s.nodes[v], t.nodes[v]);
  }

  /** What u announces is part of the DAO it builds. */
  lemma AnnouncedIsPrinted(s: Net, u: Addr, x: Addr)
    requires u in s.nodes && s.nodes[u].self == u && s.nodes[u].parent.Some? && Announces(s, u, x)
    ensures x in ReadBack(DaoBody(s.nodes[u])).seen
  {
    var d := s.nodes[u];
    BuiltDaoReadsBack(d);
    if x != u {
      var ch :| ch in d.childs && ch.addr == x;
      var i :| 0 <= i < |d.childs| && d.childs[i] == ch;
      assert Announced(d)[1 + i] == x;
    } else {
      assert Announced(d)[0] == x;
    }
  }

  /** A received DAO leaves every one of its targets among the children. */
  lemma DeliveredIsKnown(c: Config, s: Net, v: Addr, m: DaoMsg, x: Addr)
    requires R.Joined(c, s) && Enabled(c, s, RecvDao(v, m)) && x in ReadBack(m.body).seen
    ensures Knows(Apply(c, s, RecvDao(v, m)), v, x)
  {
    var d, p := s.nodes[v], ReadBack(m.body);
    R.RecvDaoTouches(c, s, v, m);
    RecvDaoGrows(d, p, m.src);
    DS.RecordAllMeaning(d.childs, p.seen, m.src);
    var all := DS.RecordAll(d.childs, p.seen, m.src);
    hide DS.ReceiveDao, ReadBack, DS.RecordAll, Apply;
    if DS.HasChild(d.childs, x) {
      var i :| 0 <= i < |d.childs| && d.childs[i].addr == x;
      assert d.childs[i] in all;
    } else {
      assert Child(x, m.src) in all;
    }
  }

  lemma AnnouncesStays(s: Net, t: Net, u: Addr, x: Addr)
    requires Grows(s, t) && u in s.nodes && Announces(s, u, x)
    ensures u in t.nodes && Announces(t, u, x)
    ensures s.nodes[u].parent.Some? ==> t.nodes[u].parent.Some? && ParentOf(t, u) == ParentOf(s, u)
  {
    assert GrowsAt(s.nodes[u], t.nodes[u]);
  }

  lemma ParentLearns(c: Config, es: seq<Event>, ss: seq<Net>, i: nat, j: nat, u: Addr, x: Addr)
    requires c.WellFormed() && QuietRun(c, es, ss) && i <= j <= |es|
    requires u in ss[i].nodes && ss[i].nodes[u].parent.Some? && Announces(ss[i], u, x)
    requires DaoArrives(es, ss, i, j, u)
    ensures Knows(ss[j], ParentOf(ss[i], u), x)
  {
    var a: nat, b: nat :|
      && i <= a < b < j && u in ss[a].nodes && ss[a].nodes[u].parent.Some?
      && es[b] == RecvDao(ParentOf(ss[a], u), DaoMsg(u, ParentOf(ss[a], u), DaoBody(ss[a].nodes[u])));
    var v, m := ParentOf(ss[a], u), DaoMsg(u, ParentOf(ss[a], u), DaoBody(ss[a].nodes[u]));
    RunGrows(c, es, ss, i, a);
    AnnouncesStays(ss[i], ss[a], u, x);
    R.QuietRunInv(c, es, ss, a);
    assert R.Configured(c, u, ss[a].nodes[u]);
    AnnouncedIsPrinted(ss[a], u, x);
    R.QuietRunInv(c, es, ss, b);
    hide ReadBack, DaoBody, Grows, Apply, R.NodeInv, R.DioInv;
    DeliveredIsKnown(c, ss[b], v, m, x);
    RunGrows(c, es, ss, b + 1, j);
    KnowsStays(ss[b + 1], ss[j], v, x);
  }

  ghost predicate IsParent(c: Config, s: Net, v: Addr, u: Addr) {
    u in s.nodes && u != c.root && s.nodes[u].parent.Some? && ParentOf(s, u) == v
  }

  /** p runs from a node down to a descendant, and every node strictly between aggregates. */
  ghost predicate Chain(c: Config, s: Net, p: seq<Addr>) {
    && |p| >= 2 && (forall k :: 0 <= k < |p| ==> p[k] in s.nodes)
    && (forall k :: 0 <= k < |p| - 1 ==> IsParent(c, s, p[k], p[k + 1]))
    && (forall k :: 0 < k < |p| - 1 ==> DS.Aggregates(s.nodes[p[k]]))
  }

  lemma ChainStays(c: Config, s: Net, t: Net, p: seq<Addr>)
    requires Grows(s, t) && Chain(c, s, p)
    ensures Chain(c, t, p)
  {
    forall k | 0 <= k < |p|
      ensures p[k] in t.nodes && GrowsAt(s.nodes[p[k]], t.nodes[p[k]])
    {
    }
  }

  ghost predicate DaoRounds(c: Config, es: seq<Event>, ss: seq<Net>, cuts: seq<nat>) {
    && cuts != [] && |es| < |ss|
    && (forall k :: 0 <= k < |cuts| ==> cuts[k] <= |es|)
    && (forall k :: 0 <= k < |cuts| - 1 ==> cuts[k] <= cuts[k + 1] && DaoRound(c, es, ss, cuts[k], cuts[k + 1]))
  }

  /** One round takes x from node k + 1 of the chain, where it is the end or known, to node k. */
  lemma OneNodeUp(c: Config, es: seq<Event>, ss: seq<Net>, i: nat, j: nat, p: seq<Addr>, k: nat)
    requires c.WellFormed() && QuietRun(c, es, ss) && i <= j <= |es| && DaoRound(c, es, ss, i, j)
    requires Chain(c, ss[i], p) && k + 1 < |p|
    requires k + 1 == |p| - 1 || Knows(ss[i], p[k + 1], p[|p| - 1])
    ensures Knows(ss[j], p[k], p[|p| - 1])
  {
    var u := p[k + 1];
    assert IsParent(c, ss[i], p[k], p[k + 1]);
    assert DaoArrives(es, ss, i, j, u);
    hide QuietRun, DaoArrives, DaoRound;
    ParentLearns(c, es, ss, i, j, u, p[|p| - 1]);
  }

  /** Each round takes the knowledge of the last node of the chain one node further up. */
  lemma {:induction false} KnowledgeClimbs(c: Config, es: seq<Event>, ss: seq<Net>, cuts: seq<nat>, p: seq<Addr>, r: nat)
    requires c.WellFormed() && QuietRun(c, es, ss) && DaoRounds(c, es, ss, cuts)
    requires Chain(c, ss[cuts[0]], p) && 0 < r < |p| && r < |cuts|
    ensures cuts[0] <= cuts[r]
    ensures Knows(ss[cuts[r]], p[|p| - 1 - r], p[|p| - 1])
    decreases r
  {
    hide QuietRun, Chain, DaoRound, Knows, Grows;
    if r > 1 {
      KnowledgeClimbs(c, es, ss, cuts, p, r - 1);
    }
    var i, j := cuts[r - 1], cuts[r - 1 + 1];
    StartOf(c, es, ss);
    RunGrows(c, es, ss, cuts[0], i);
    ChainStays(c, ss[cuts[0]], ss[i], p);
    OneNodeUp(c, es, ss, i, j, p, |p| - 1 - r);
  }

  /**
   Completeness of hop-by-hop routing: after as many rounds of DAOs as the chain has hops, and ever
   after, the node on top of it routes to the one at its end, if it installs routes at all.
   */
  lemma ChainsAreRouted(c: Config, es: seq<Event>, ss: seq<Net>, cuts: seq<nat>, p: seq<Addr>, j: nat)
    requires c.WellFormed() && QuietRun(c, es, ss) && DaoRounds(c, es, ss, cuts)
    requires Chain(c, ss[cuts[0]], p) && |cuts| >= |p| && cuts[|p| - 1] <= j < |ss|
    ensures p[0] in ss[j].nodes && p[|p| - 1] in DS.Addresses(ss[j].nodes[p[0]].childs)
    ensures DS.Installs(ss[j].nodes[p[0]]) ==> p[|p| - 1] in ss[j].nodes[p[0]].routes
  {
    var r := |p| - 1;
    KnowledgeClimbs(c, es, ss, cuts, p, r);
    RunGrows(c, es, ss, cuts[r], j);
    KnowsStays(ss[cuts[r]], ss[j], p[0], p[r]);
    QuietRunDown(c, es, ss, j);
    assert RouteInv(ss[j], p[0]);
  }
}
