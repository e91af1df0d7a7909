/**
 What the mode of operation makes of a DODAG: which DAOs are sent and what they say, who holds routes
 and to whom, and who feeds the source-route tree; all by the MOP's number.
 */
module Announcements {
  import opened Wrappers
  import opened Rpl
  import opened DaoOptions
  import opened Network
  import opened DaoExchange
  import opened Downward
  import opened Coverage
  import C = Cycles
  import F = Failures
  import R = Ranks
  import SR = SecondRoot
  import ST = SourceTree
  import DS = DagState

  // ---- which DAOs are sent ----

  /** A DIO is accepted by a newcomer, and by a node not of rank 1 that has heard no better rank from a live parent. */
  ghost predicate Accepted(s: Net, v: Addr, rank: u16) {
    v in s.nodes ==> s.nodes[v].myRank != 1 && s.nodes[v].parent.Some? && rank <= s.nodes[v].parent.value.rank
  }

  /** The DAOs that go out with an accepted DIO of this rank: of the new state, to the new parent and the root. */
  ghost function AnswersTo(c: Config, v: Addr, d: DS.State, rank: u16): set<DaoMsg>
    requires d.parent.Some?
  {
    var toParent, toRoot := DaoMsg(v, d.parent.value.addr, DaoBody(d)), DaoMsg(v, c.root, DaoBody(d));
    if c.mop == 2 || c.mop == 3 then {toParent}
    else if c.mop == 1 then {toRoot}
    else if c.mop == 6 then (if rank > 1 then {toParent, toRoot} else {toParent})
    else {}
  }

  lemma DioAnswers(c: Config, s: Net, v: Addr, m: DioMsg, now: real)
    requires C.Loose(c, s) && SR.HasMop(c, s) && Enabled(c, s, RecvDio(v, m, now))
    ensures var t := Apply(c, s, RecvDio(v, m, now));
            if Accepted(s, v, m.rank)
            then v in t.nodes && t.nodes[v].parent.Some? && t.daos == s.daos + AnswersTo(c, v, t.nodes[v], m.rank)
            else t.daos == s.daos
  {
    var before, t := Before(c, s, v, now), Apply(c, s, RecvDio(v, m, now));
    if v in s.nodes && s.nodes[v].myRank == 1 {
      assert DS.SentOnDio(before, m.src, m.rank, now, c.root) == [];
    } else {
      assert v != c.root && before.mop == c.mop;
      DS.Answers(before, m.src, m.rank, now, c.root);
    }
    hide DS.ReceiveDio, DS.SentOnDio, DaoBody;
  }

  lemma OthersSendNothing(c: Config, s: Net, e: Event)
    requires Enabled(c, s, e) && !e.RecvDio?
    ensures Apply(c, s, e).daos == s.daos
  {
  }

  /**
   Every step of every run: an accepted DIO is answered by the DAO of the new state, in MOP 2 and 3 to the
   parent, in MOP 1 to the root, in MOP 6 to the parent and, for ranks above 1, to the root; and no
   other step, MOP or DIO sends a DAO.
   */
  lemma AcceptedIsAnswered(c: Config, es: seq<Event>, ss: seq<Net>, i: nat)
    requires Run(c, es, ss) && i < |es|
    ensures if es[i].RecvDio? && Accepted(ss[i], es[i].v, es[i].dio.rank)
            then && es[i].v in ss[i + 1].nodes && ss[i + 1].nodes[es[i].v].parent.Some?
                 && ss[i + 1].daos == ss[i].daos + AnswersTo(c, es[i].v, ss[i + 1].nodes[es[i].v], es[i].dio.rank)
            else ss[i + 1].daos == ss[i].daos
  {
    C.RunIsLoose(c, es, ss, i);
    SR.RunHasMop(c, es, ss, i);
    assert Enabled(c, ss[i], es[i]) && ss[i + 1] == Apply(c, ss[i], es[i]);
    hide Run, C.Loose, SR.HasMop, Apply, Enabled, AnswersTo, Accepted;
    if es[i].RecvDio? {
      DioAnswers(c, ss[i], es[i].v, es[i].dio, es[i].now);
    } else {
      OthersSendNothing(c, ss[i], es[i]);
    }
  }

  // ---- what they say ----

  /** A DAO says the node itself and then, in MOP 2 and 3 and of class S nodes in MOP 6, all its children, in order. */
  lemma DaoSays(d: DS.State)
    requires d.parent.Some?
    ensures ReadBack(DaoBody(d)) ==
            Parsed([d.self] + (if d.mop == 2 || d.mop == 3 || (d.mop == 6 && d.cls == ClassS) then DS.ChildAddrs(d.childs) else []),
                   Some(d.parent.value.addr), true)
  {
    BuiltDaoReadsBack(d);
  }

  // ---- who holds routes ----

  /**
   In every quiet run: v routes to x exactly if x is among its children and v is any node in MOP 2 or 3,
   or a class S node other than the root in MOP 6.
   */
  lemma RoutesHeldIff(c: Config, es: seq<Event>, ss: seq<Net>, i: nat, v: Addr, x: Addr)
    requires c.WellFormed() && QuietRun(c, es, ss) && i < |ss| && v in ss[i].nodes
    ensures x in ss[i].nodes[v].routes <==>
            && x in DS.Addresses(ss[i].nodes[v].childs)
            && (c.mop == 2 || c.mop == 3 || (c.mop == 6 && v != c.root && c.ClassOf(v) == ClassS))
  {
    R.QuietRunInv(c, es, ss, i);
    InvGivesTree(c, ss[i]);
    QuietRunDown(c, es, ss, i);
    hide QuietRun, Config.WellFormed;
    RoutesOf(c, ss[i], v);
    HoldsRouteIff(ss[i].nodes[v], x);
  }

  lemma RoutesOf(c: Config, s: Net, v: Addr)
    requires R.Inv(c, s) && Tree(c, s) && DownInv(c, s) && v in s.nodes
    ensures var d := s.nodes[v];
            RoutesAreChildren(d) && d.mop == c.mop && d.cls == c.ClassOf(v) && (d.myRank == 1 <==> v == c.root)
  {
    assert RouteInv(s, v) && R.Configured(c, v, s.nodes[v]);
  }

  lemma HoldsRouteIff(d: DS.State, x: Addr)
    requires RoutesAreChildren(d)
    ensures x in d.routes <==>
            x in DS.Addresses(d.childs) && (d.mop == 2 || d.mop == 3 || (d.mop == 6 && d.myRank != 1 && d.cls == ClassS))
  {
    if x in d.routes {
      assert Child(x, d.routes[x]) in d.childs;
    }
  }

  /** v, ..., from parent to child. */
  ghost predicate Descent(c: Config, s: Net, p: seq<Addr>) {
    && |p| >= 2 && (forall k :: 0 <= k < |p| ==> p[k] in s.nodes)
    && (forall k :: 0 <= k < |p| - 1 ==> IsParent(c, s, p[k], p[k + 1]))
  }

  lemma {:induction false} CutsAscend(c: Config, es: seq<Event>, ss: seq<Net>, cuts: seq<nat>, i: nat, j: nat)
    requires DaoRounds(c, es, ss, cuts) && i <= j < |cuts|
    ensures cuts[i] <= cuts[j]
    decreases j
  {
    hide DaoRound;
    if i < j {
      CutsAscend(c, es, ss, cuts, i, j - 1);
      assert cuts[j - 1] <= cuts[j - 1 + 1];
    }
  }

  /** The lower part of a descent is a chain if the nodes between its ends aggregate. */
  lemma LowerPartIsRouted(c: Config, es: seq<Event>, ss: seq<Net>, cuts: seq<nat>, p: seq<Addr>, k: nat, j: nat)
    requires c.WellFormed() && QuietRun(c, es, ss) && DaoRounds(c, es, ss, cuts)
    requires Descent(c, ss[cuts[0]], p) && k < |p| - 1 && |cuts| >= |p| && cuts[|p| - 1] <= j < |ss|
    requires forall l :: 0 < l < |p| - 1 ==> DS.Aggregates(ss[cuts[0]].nodes[p[l]])
    ensures p[k] in ss[j].nodes && p[|p| - 1] in DS.Addresses(ss[j].nodes[p[k]].childs)
  {
    var q := p[k..];
    hide QuietRun, DaoRounds;
    forall l | 0 <= l < |q| - 1
      ensures IsParent(c, ss[cuts[0]], q[l], q[l + 1])
    {
      assert IsParent(c, ss[cuts[0]], p[k + l], p[k + l + 1]);
    }
    CutsAscend(c, es, ss, cuts, |q| - 1, |p| - 1);
    hide IsParent, DS.Aggregates;
    assert Chain(c, ss[cuts[0]], q);
    ChainsAreRouted(c, es, ss, cuts, q, j);
  }

  /**
   Completeness in a storing DODAG: after as many rounds of DAOs as the descent has hops, and ever after,
   every node on it, the root included, routes to the one at its end.
   */
  lemma StoringDescentsAreRouted(c: Config, es: seq<Event>, ss: seq<Net>, cuts: seq<nat>, p: seq<Addr>, k: nat, j: nat)
    requires c.WellFormed() && QuietRun(c, es, ss) && DaoRounds(c, es, ss, cuts) && (c.mop == 2 || c.mop == 3)
    requires Descent(c, ss[cuts[0]], p) && k < |p| - 1 && |cuts| >= |p| && cuts[|p| - 1] <= j < |ss|
    ensures p[k] in ss[j].nodes && p[|p| - 1] in ss[j].nodes[p[k]].routes
  {
    AllAggregate(c, es, ss, cuts[0]);
    hide QuietRun, DaoRounds, DS.Aggregates;
    LowerPartIsRouted(c, es, ss, cuts, p, k, j);
    RoutesHeldIff(c, es, ss, j, p[k], p[|p| - 1]);
  }

  lemma AllAggregate(c: Config, es: seq<Event>, ss: seq<Net>, i: nat)
    requires c.WellFormed() && QuietRun(c, es, ss) && i < |ss|
    ensures forall v :: v in ss[i].nodes && (c.mop == 2 || c.mop == 3 || (c.mop == 6 && c.ClassOf(v) == ClassS)) ==>
                          DS.Aggregates(ss[i].nodes[v])
  {
    R.QuietRunInv(c, es, ss, i);
    forall v | v in ss[i].nodes
      ensures R.Configured(c, v, ss[i].nodes[v])
    {
    }
    hide QuietRun, R.Inv;
  }

  /** In a hybrid DODAG the same holds of class S nodes other than the root, if all nodes between are of class S. */
  lemma HybridDescentsAreRouted(c: Config, es: seq<Event>, ss: seq<Net>, cuts: seq<nat>, p: seq<Addr>, k: nat, j: nat)
    requires c.WellFormed() && QuietRun(c, es, ss) && DaoRounds(c, es, ss, cuts) && c.mop == 6
    requires Descent(c, ss[cuts[0]], p) && k < |p| - 1 && |cuts| >= |p| && cuts[|p| - 1] <= j < |ss|
    requires forall l :: 0 < l < |p| - 1 ==> c.ClassOf(p[l]) == ClassS
    ensures p[k] in ss[j].nodes
    ensures p[|p| - 1] in ss[j].nodes[p[k]].routes <==> p[k] != c.root && c.ClassOf(p[k]) == ClassS
  {
    AllAggregate(c, es, ss, cuts[0]);
    hide QuietRun, DaoRounds, DS.Aggregates;
    LowerPartIsRouted(c, es, ss, cuts, p, k, j);
    RoutesHeldIff(c, es, ss, j, p[k], p[|p| - 1]);
  }

  /** A storing run: a joins on the root's DIO, its DAO arrives, and the root routes to it. */
  lemma StoringRouteArises(r: Addr, a: Addr) returns (es: seq<Event>, ss: seq<Net>)
    requires r != a
    ensures QuietRun(Config(map[r := {a}, a := {r}], r, 2, map[], 1.0), es, ss)
    ensures r in ss[|es|].nodes && ss[|es|].nodes[r].routes == map[a := a]
  {
    var c := Config(map[r := {a}, a := {r}], r, 2, map[], 1.0);
    es, ss := [], [Init(c)];
    var t;
    es, ss, t := F.SendAndDeliver(c, es, ss, r, a, 0.0);
    var root := t.nodes[r];
    var m := DaoMsg(a, r, DaoBody(t.nodes[a]));
    assert r in DS.SentOnDio(Before(c, Init(c), a, 0.0), r, 1, 0.0, r);
    assert F.NoChecks(es);
    DaoSays(t.nodes[a]);
    assert [a] + [] == [a];
    hide ReadBack, DaoBody, DS.ReceiveDao;
    es, ss, t := ST.DeliverDao(c, es, ss, m);
    FirstRoute(root, a, r);
    F.UncheckedRunIsQuiet(c, es, ss);
  }

  lemma FirstRoute(d: DS.State, a: Addr, r: Addr)
    requires d.mop == 2 && d.childs == [] && d.routes == map[]
    ensures DS.ReceiveDao(d, Parsed([a], Some(r), true), a).routes == map[a := a]
  {
    assert DS.RecordAll([], [a], a) == [Child(a, a)] by {
      assert [a][..0] == [];
    }
    assert DS.InstallAll(map[], [Child(a, a)]) == map[a := a] by {
      assert [Child(a, a)][..0] == [];
    }
  }

  // ---- who feeds the tree ----

  ghost predicate OnlyRootFeeds(c: Config, s: Net) {
    forall v :: v in s.nodes && s.nodes[v].inserts != [] ==> v == c.root && (c.mop == 1 || c.mop == 6)
  }

  lemma StepKeepsOnlyRootFeeds(c: Config, s: Net, e: Event)
    requires c.WellFormed() && R.Inv(c, s) && DownInv(c, s) && Quiet(c, s, e) && OnlyRootFeeds(c, s)
    ensures OnlyRootFeeds(c, Apply(c, s, e))
  {
    var t := Apply(c, s, e);
    hide Apply, R.Inv, DownInv, Quiet, Config.WellFormed;
    forall v | v in t.nodes && t.nodes[v].inserts != []
      ensures v == c.root && (c.mop == 1 || c.mop == 6)
    {
      if !(v in s.nodes && s.nodes[v].inserts != []) {
        FeederIsRoot(c, s, e, v);
      }
    }
  }

  lemma FeederIsRoot(c: Config, s: Net, e: Event, v: Addr)
    requires R.Inv(c, s) && DownInv(c, s) && Quiet(c, s, e)
    requires v in Apply(c, s, e).nodes && Apply(c, s, e).nodes[v].inserts != []
    requires !(v in s.nodes && s.nodes[v].inserts != [])
    ensures v == c.root && (c.mop == 1 || c.mop == 6)
  {
    var ins := Apply(c, s, e).nodes[v].inserts[0];
    InvGivesTree(c, s);
    assert R.Joined(c, s);
    hide Apply, R.Inv, DownInv, Quiet, Tree, R.Joined, DS.ReceiveDao, ReadBack;
    ST.InsertIsNew(c, s, e, v, ins);
    RoutesOf(c, s, v);
    FeedsIff(s.nodes[v], ReadBack(e.dao.body), e.dao.src);
    DaoDestination(c, s, v, e);
  }

  lemma DaoDestination(c: Config, s: Net, v: Addr, e: Event)
    requires DownInv(c, s) && Quiet(c, s, e) && e.RecvDao? && e.v == v
    ensures c.mop == 1 ==> v == c.root
  {
    assert DaoInv(c, s, e.dao);
  }

  lemma FeedsIff(d: DS.State, p: Parsed, from: Addr)
    ensures DS.ReceiveDao(d, p, from).inserts != d.inserts ==> d.mop == 1 || (d.mop == 6 && d.myRank == 1)
  {
  }

  /** In every quiet run only the root, and only in MOP 1 and 6, feeds the source-route tree; that it does, HeardIsEntered says. */
  lemma {:induction false} OnlyRootFeedsTree(c: Config, es: seq<Event>, ss: seq<Net>, i: nat)
    requires c.WellFormed() && QuietRun(c, es, ss) && i < |ss|
    ensures OnlyRootFeeds(c, ss[i])
    decreases i
  {
    hide *;
    StartOf(c, es, ss);
    if i == 0 {
      NothingFedYet(c);
    } else {
      OnlyRootFeedsTree(c, es, ss, i - 1);
      R.QuietRunInv(c, es, ss, i - 1);
      QuietRunDown(c, es, ss, i - 1);
      StepOf(c, es, ss, i - 1);
      StepKeepsOnlyRootFeeds(c, ss[i - 1], es[i - 1]);
    }
  }

  lemma NothingFedYet(c: Config)
    ensures OnlyRootFeeds(c, Init(c))
  {
  }
}
