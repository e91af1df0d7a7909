/**
 What the source-route tree of the root is told in runs without invalidation: every joined node
 gets to tell it its parent, and everything else it is told is wrong.
 */
module SourceTree {
  import opened Wrappers
  import opened Rpl
  import opened DaoOptions
  import opened Network
  import opened DaoExchange
  import opened Downward
  import opened Coverage
  import R = Ranks
  import DS = DagState
  import F = Failures

  /** The transit named for a target is the parent of the DAO's sender, and the target is something the sender announces. */
  ghost predicate SenderInsert(c: Config, s: Net, ins: Insert) {
    && ins.sender in s.nodes && ins.sender != c.root && s.nodes[ins.sender].parent.Some?
    && ins.transit == ParentOf(s, ins.sender) && Announces(s, ins.sender, ins.target)
  }

  ghost predicate SenderInserts(c: Config, s: Net) {
    forall v, ins :: v in s.nodes && ins in s.nodes[v].inserts ==> SenderInsert(c, s, ins)
  }

  lemma SenderInsertStays(c: Config, s: Net, t: Net, ins: Insert)
    requires Grows(s, t) && SenderInsert(c, s, ins)
    ensures SenderInsert(c, t, ins)
  {
    AnnouncesStays(s, t, ins.sender, ins.target);
  }

  lemma NewInsertsNameSender(c: Config, s: Net, d: DS.State, m: DaoMsg)
    requires DaoInv(c, s, m)
    requires forall ins :: ins in d.inserts ==> SenderInsert(c, s, ins)
    ensures forall ins :: ins in DS.ReceiveDao(d, ReadBack(m.body), m.src).inserts ==> SenderInsert(c, s, ins)
  {
    var p := ReadBack(m.body);
    hide ReadBack;
    forall ins | ins in DS.TreeInserts(p, m.src)
      ensures SenderInsert(c, s, ins)
    {
      var i :| 0 <= i < |p.Kept()| && ins == Insert(p.transit.value, m.src, p.Kept()[i]);
      assert p.Kept()[i] == p.seen[i];
    }
  }

  lemma StepKeepsSenderInserts(c: Config, s: Net, e: Event)
    requires c.WellFormed() && R.Inv(c, s) && DownInv(c, s) && Quiet(c, s, e) && SenderInserts(c, s)
    ensures SenderInserts(c, Apply(c, s, e))
  {
    var t := Apply(c, s, e);
    StepGrows(c, s, e);
    forall v, ins | v in t.nodes && ins in t.nodes[v].inserts
      ensures SenderInsert(c, t, ins)
    {
      if v in s.nodes && ins in s.nodes[v].inserts {
        SenderInsertStays(c, s, t, ins);
      } else {
        InsertIsNew(c, s, e, v, ins);
        NewInsertsNameSender(c, s, s.nodes[v], e.dao);
        SenderInsertStays(c, s, t, ins);
      }
    }
  }

  /** Only a received DAO adds to the tree. */
  lemma InsertIsNew(c: Config, s: Net, e: Event, v: Addr, ins: Insert)
    requires R.Joined(c, s) && DownInv(c, s) && Quiet(c, s, e)
    requires v in Apply(c, s, e).nodes && ins in Apply(c, s, e).nodes[v].inserts
    requires !(v in s.nodes && ins in s.nodes[v].inserts)
    ensures e.RecvDao? && e.v == v && v in s.nodes && DaoInv(c, s, e.dao)
    ensures ins in DS.ReceiveDao(s.nodes[v], ReadBack(e.dao.body), e.dao.src).inserts
  {
    if e.RecvDio? {
      R.RecvDioTouches(c, s, e.v, e.dio, e.now);
      DioKeepsDownwardState(Before(c, s, e.v, e.now), e.dio.src, e.dio.rank, e.now);
    } else if e.RecvDao? {
      R.RecvDaoTouches(c, s, e.v, e.dao);
    }
  }

  lemma NothingToldYet(c: Config)
    ensures SenderInserts(c, Init(c))
  {
  }

  /** In every quiet run, the tree is told the parent of the sender, for targets that the sender announces. */
  lemma {:induction false} TreeNamesSendersParents(c: Config, es: seq<Event>, ss: seq<Net>, i: nat)
    requires c.WellFormed() && QuietRun(c, es, ss) && i < |ss|
    ensures SenderInserts(c, ss[i])
    decreases i
  {
    hide *;
    StartOf(c, es, ss);
    if i == 0 {
      NothingToldYet(c);
    } else {
      TreeNamesSendersParents(c, es, ss, i - 1);
      R.QuietRunInv(c, es, ss, i - 1);
      QuietRunDown(c, es, ss, i - 1);
      StepOf(c, es, ss, i - 1);
      StepKeepsSenderInserts(c, ss[i - 1], es[i - 1]);
    }
  }

  // ---- when the parent it names is the target's ----

  /** What is behind u in the tree has a parent that joined no earlier than u's own. */
  lemma {:induction false} BehindIsDeeper(c: Config, s: Net, v: Addr, u: Addr, x: Addr, bound: nat)
    requires Tree(c, s) && DownInv(c, s) && Behind(c, s, v, u, x) && v in s.join && JoinsBelow(s, bound)
    ensures x in s.nodes && x != c.root && s.join[ParentOf(s, x)] >= s.join[v]
    decreases bound - s.join[v]
  {
    if x != u {
      JoinIsBelow(s, bound, v);
      assert ChildInv(c, s, u);
      var ch :| ch in s.nodes[u].childs && ch.addr == x;
      assert Behind(c, s, u, ch.from, ch.addr);
      hide DownInv, Behind, ChildInv;
      BehindIsDeeper(c, s, u, ch.from, x, bound);
    }
  }

  /** An aggregated child of u is not u itself and not a child of u's parent. */
  lemma AggregatedIsDeeper(c: Config, s: Net, u: Addr, x: Addr)
    requires R.Joined(c, s) && Tree(c, s) && DownInv(c, s) && u in s.nodes && u != c.root
    requires x in DS.Addresses(s.nodes[u].childs)
    ensures x in s.nodes && x != c.root && x != u && ParentOf(s, x) != ParentOf(s, u)
  {
    assert ChildInv(c, s, u);
    var ch :| ch in s.nodes[u].childs && ch.addr == x;
    assert Behind(c, s, u, ch.from, ch.addr);
    hide DownInv, Behind, ChildInv;
    BehindIsDeeper(c, s, u, ch.from, x, |s.join|);
  }

  /** The pair of transit and target is in the tree of parents. */
  ghost predicate TruePair(s: Net, ins: Insert) {
    ins.target in s.nodes && s.nodes[ins.target].parent.Some? && ins.transit == ParentOf(s, ins.target)
  }

  /**
   In every quiet run each target the tree is told of has joined, and the transit it is told to go
   with that target is the target's parent exactly if the target is the sender of the DAO itself:
   for everything a class S node announces beside itself, the tree is told the wrong parent.
   */
  lemma PairIsTrueIff(c: Config, es: seq<Event>, ss: seq<Net>, i: nat, v: Addr, ins: Insert)
    requires c.WellFormed() && QuietRun(c, es, ss) && i < |ss|
    requires v in ss[i].nodes && ins in ss[i].nodes[v].inserts
    ensures ins.target in ss[i].nodes && ins.target != c.root
    ensures TruePair(ss[i], ins) <==> ins.target == ins.sender
  {
    var s := ss[i];
    TreeNamesSendersParents(c, es, ss, i);
    assert SenderInsert(c, s, ins);
    R.QuietRunInv(c, es, ss, i);
    InvGivesTree(c, s);
    QuietRunDown(c, es, ss, i);
    hide QuietRun, R.NodeInv, R.DioInv, SenderInserts, DownInv, DS.Addresses;
    if ins.target != ins.sender {
      AggregatedIsDeeper(c, s, ins.sender, ins.target);
    }
  }

  lemma AnnouncedIsDistinct(c: Config, s: Net, u: Addr)
    requires R.Joined(c, s) && Tree(c, s) && DownInv(c, s) && u in s.nodes && u != c.root
    ensures AllDistinct(Announced(s.nodes[u]))
  {
    var d := s.nodes[u];
    assert d.self == u && DS.DistinctChildren(d.childs) by {
      assert R.Configured(c, u, d) && ChildInv(c, s, u);
    }
    hide DownInv, R.Joined, Tree, Announced, AllDistinct;
    forall k | 0 <= k < |d.childs|
      ensures d.childs[k].addr != u
    {
      assert d.childs[k].addr in DS.Addresses(d.childs);
      AggregatedIsDeeper(c, s, u, d.childs[k].addr);
    }
    ChildrenAreOthers(d);
  }

  lemma ChildrenAreOthers(d: DS.State)
    requires DS.DistinctChildren(d.childs) && forall k :: 0 <= k < |d.childs| ==> d.childs[k].addr != d.self
    ensures AllDistinct(Announced(d))
  {
  }

  /** What a node announces in a quiet run is free of repetition, so its DAO is learnt in full exactly up to sixteen addresses. */
  lemma ReachableTreeLearnsAllIff(c: Config, es: seq<Event>, ss: seq<Net>, i: nat, u: Addr)
    requires c.WellFormed() && QuietRun(c, es, ss) && i < |ss| && u in ss[i].nodes && u != c.root
    ensures ss[i].nodes[u].parent.Some? && AllDistinct(Announced(ss[i].nodes[u]))
    ensures (forall x :: x in Announced(ss[i].nodes[u]) ==> Learns(ss[i].nodes[u], x)) <==>
            |Announced(ss[i].nodes[u])| <= 16
  {
    R.QuietRunInv(c, es, ss, i);
    InvGivesTree(c, ss[i]);
    QuietRunDown(c, es, ss, i);
    assert R.Joined(c, ss[i]) && ss[i].nodes[u].parent.Some?;
    hide *;
    AnnouncedIsDistinct(c, ss[i], u);
    TreeLearnsAllIff(ss[i].nodes[u]);
  }

  lemma DeliverDao(c: Config, es: seq<Event>, ss: seq<Net>, m: DaoMsg)
    returns (es': seq<Event>, ss': seq<Net>, t: Net)
    requires Run(c, es, ss) && m in ss[|es|].daos && m.dst in ss[|es|].nodes && F.NoChecks(es)
    ensures Run(c, es', ss') && F.NoChecks(es') && |es'| == |es| + 1 && ss'[|es'|] == t
    ensures var s := ss[|es|];
            t.daos == s.daos && t.nodes == s.nodes[m.dst := DS.ReceiveDao(s.nodes[m.dst], ReadBack(m.body), m.src)]
  {
    hide DS.ReceiveDao, ReadBack;
    es', ss', t := F.Extend(c, es, ss, RecvDao(m.dst, m));
  }

  /** r, a and b have joined in a row, and b's DAO to a is in flight. */
  lemma GrandchildJoins(r: Addr, a: Addr, b: Addr) returns (es: seq<Event>, ss: seq<Net>, m: DaoMsg)
    requires r != a && r != b && a != b
    ensures Run(F.Triangle(r, a, b), es, ss) && F.NoChecks(es)
    ensures var s := ss[|es|];
            && s.nodes == map[r := State(r, 1, None), a := State(a, 2, Some(Peer(r, 1))), b := State(b, 3, Some(Peer(a, 2)))]
            && m in s.daos && m.src == b && m.dst == a && ReadBack(m.body) == Parsed([b], Some(a), true)
  {
    var c := F.Triangle(r, a, b);
    es, ss := [], [Init(c)];
    var t;
    es, ss, t := F.SendAndDeliver(c, es, ss, r, a, 0.0);
    var s := t;
    es, ss, t := F.SendAndDeliver(c, es, ss, a, b, 0.0);
    assert a in DS.SentOnDio(Before(c, s, b, 0.0), a, 2, 0.0, r);
    m := DaoMsg(b, a, DaoBody(t.nodes[b]));
    BuiltDaoReadsBack(t.nodes[b]);
  }

  /** A class S node of the triangle at time 0, without children. */
  ghost function State(self: Addr, rank: u16, parent: Option<Peer>): DS.State {
    DS.State(self, 6, ClassS, rank, parent, if parent.Some? then Some(parent.value.addr) else None,
             [], map[], [], 0.0, 1.0)
  }

  lemma ChildIsRecorded(r: Addr, a: Addr, b: Addr)
    ensures DS.ReceiveDao(State(a, 2, Some(Peer(r, 1))), Parsed([b], Some(a), true), b) ==
            State(a, 2, Some(Peer(r, 1))).(childs := [Child(b, b)], routes := map[b := b])
  {
    assert DS.RecordAll([], [b], b) == [Child(b, b)] by {
      assert [b][..0] == [];
    }
    assert DS.InstallAll(map[], [Child(b, b)]) == map[b := b] by {
      assert [Child(b, b)][..0] == [];
    }
  }

  lemma PairsAreEntered(d: DS.State, p: Parsed, from: Addr)
    requires DS.BuildsTree(d) && p.complete && |p.seen| == 2 && p.transit.Some?
    ensures DS.ReceiveDao(d, p, from).inserts ==
            d.inserts + [Insert(p.transit.value, from, p.seen[0]), Insert(p.transit.value, from, p.seen[1])]
  {
    hide DS.RecordAll;
  }

  /** A run with a wrong pair: b is a's child, and yet the tree is told to reach b right behind the root. */
  lemma GrandchildIsToldAsChild(r: Addr, a: Addr, b: Addr) returns (es: seq<Event>, ss: seq<Net>)
    requires r != a && r != b && a != b
    ensures QuietRun(F.Triangle(r, a, b), es, ss)
    ensures var s := ss[|es|];
            && r in s.nodes && b in s.nodes && s.nodes[b].parent.Some? && ParentOf(s, b) == a
            && s.nodes[r].inserts == [Insert(r, a, a), Insert(r, a, b)]
  {
    var c := F.Triangle(r, a, b);
    var m, t;
    es, ss, m := GrandchildJoins(r, a, b);
    es, ss, t := DeliverDao(c, es, ss, m);
    var s := t;
    ChildIsRecorded(r, a, b);
    hide ReadBack, DaoBody, DS.ReceiveDao;
    es, ss, t := F.SendAndDeliver(c, es, ss, r, a, 0.0);
    assert t.nodes[a] == s.nodes[a];
    assert r in DS.SentOnDio(s.nodes[a], r, 1, 0.0, r);
    m := DaoMsg(a, r, DaoBody(t.nodes[a]));
    BuiltDaoReadsBack(t.nodes[a]);
    assert Announced(t.nodes[a]) == [a, b];
    PairsAreEntered(State(r, 1, None), Parsed([a, b], Some(r), true), a);
    es, ss, t := DeliverDao(c, es, ss, m);
    F.UncheckedRunIsQuiet(c, es, ss);
  }

  // ---- what every node gets to tell ----

  /** The DAO of a node that joins a hybrid or non-storing DODAG is addressed to the root, at least. */
  lemma JoinDaoGoesToRoot(c: Config, es: seq<Event>, ss: seq<Net>, a: nat)
    requires c.WellFormed() && QuietRun(c, es, ss) && a < |es| && es[a].RecvDio? && es[a].v !in ss[a].nodes
    requires c.mop == 6 || c.mop == 1
    ensures var v := es[a].v; v in ss[a + 1].nodes && DaoMsg(v, c.root, DaoBody(ss[a + 1].nodes[v])) in ss[a + 1].daos
  {
    var s, v, m, now := ss[a], es[a].v, es[a].dio, es[a].now;
    R.QuietRunInv(c, es, ss, a);
    StepOf(c, es, ss, a);
    RankOneIsRoot(c, s, m);
    hide QuietRun, R.Inv;
    AnswerGoesToRoot(c, s, v, m, now);
  }

  /** Only the root sends DIOs of rank 1. */
  lemma RankOneIsRoot(c: Config, s: Net, m: DioMsg)
    requires R.Inv(c, s) && m in s.dios
    ensures m.rank >= 1 && (m.rank == 1 ==> m.src == c.root)
  {
    assert R.DioInv(c, s, m);
    hide R.Joined, R.NodeInv, R.Paths;
  }

  lemma AnswerGoesToRoot(c: Config, s: Net, v: Addr, m: DioMsg, now: real)
    requires Enabled(c, s, RecvDio(v, m, now)) && v !in s.nodes && m.rank >= 1 && (m.rank == 1 ==> m.src == c.root)
    requires c.mop == 6 || c.mop == 1
    ensures var t := Apply(c, s, RecvDio(v, m, now)); v in t.nodes && DaoMsg(v, c.root, DaoBody(t.nodes[v])) in t.daos
  {
    DS.NoParentAdopts(Before(c, s, v, now), m.src, m.rank, now);
    assert c.root in DS.SentOnDio(Before(c, s, v, now), m.src, m.rank, now, c.root);
    hide DaoBody, DS.ReceiveDio, DS.SentOnDio;
  }

  /** The root has received a DAO of u before step j. */
  ghost predicate RootHears(c: Config, es: seq<Event>, j: nat, u: Addr) {
    exists b: nat :: b < j && b < |es| && es[b].RecvDao? && es[b].v == c.root && es[b].dao.src == u
  }

  lemma StepKeepsInserts(c: Config, s: Net, e: Event)
    requires c.root in s.nodes && R.Joined(c, s) && Quiet(c, s, e)
    ensures c.root in Apply(c, s, e).nodes && s.nodes[c.root].inserts <= Apply(c, s, e).nodes[c.root].inserts
  {
    if e.RecvDio? {
      R.RecvDioTouches(c, s, e.v, e.dio, e.now);
      DioKeepsDownwardState(Before(c, s, e.v, e.now), e.dio.src, e.dio.rank, e.now);
      hide DS.ReceiveDio, DS.SentOnDio;
    } else if e.RecvDao? {
      R.RecvDaoTouches(c, s, e.v, e.dao);
      hide DS.RecordAll, ReadBack;
    }
  }

  lemma {:induction false} RootNeverForgets(c: Config, es: seq<Event>, ss: seq<Net>, i: nat, j: nat)
    requires c.WellFormed() && QuietRun(c, es, ss) && i <= j < |ss|
    ensures c.root in ss[i].nodes && c.root in ss[j].nodes && ss[i].nodes[c.root].inserts <= ss[j].nodes[c.root].inserts
    decreases j
  {
    hide *;
    StartOf(c, es, ss);
    R.QuietRunInv(c, es, ss, j);
    RootIsThere(c, ss[j]);
    if i < j {
      RootNeverForgets(c, es, ss, i, j - 1);
      R.QuietRunInv(c, es, ss, j - 1);
      RootIsThere(c, ss[j - 1]);
      StepOf(c, es, ss, j - 1);
      StepKeepsInserts(c, ss[j - 1], es[j - 1]);
    }
  }

  lemma RootIsThere(c: Config, s: Net)
    requires R.Inv(c, s)
    ensures R.Joined(c, s) && c.root in s.nodes && s.nodes[c.root].myRank == 1 && s.nodes[c.root].mop == c.mop
  {
    assert R.Configured(c, c.root, s.nodes[c.root]);
  }

  /** Whatever else it says, a DAO tells the tree the parent of its sender. */
  lemma SenderIsEntered(c: Config, s: Net, m: DaoMsg)
    requires c.mop == 6 || c.mop == 1
    requires R.Joined(c, s) && DaoInv(c, s, m) && Enabled(c, s, RecvDao(c.root, m))
    requires s.nodes[c.root].myRank == 1 && s.nodes[c.root].mop == c.mop
    ensures Insert(ParentOf(s, m.src), m.src, m.src) in Apply(c, s, RecvDao(c.root, m)).nodes[c.root].inserts
  {
    var p, d := ReadBack(m.body), s.nodes[c.root];
    R.RecvDaoTouches(c, s, c.root, m);
    assert p.Kept()[0] == m.src;
    hide ReadBack, DS.RecordAll, Apply;
    assert DS.TreeInserts(p, m.src)[0] == Insert(ParentOf(s, m.src), m.src, m.src);
  }

  lemma DaoOf(c: Config, es: seq<Event>, j: nat, u: Addr) returns (b: nat, m: DaoMsg)
    requires RootHears(c, es, j, u)
    ensures b < j && b < |es| && es[b] == RecvDao(c.root, m) && m.src == u
  {
    b :| b < j && b < |es| && es[b].RecvDao? && es[b].v == c.root && es[b].dao.src == u;
    m := es[b].dao;
  }

  lemma DaoIsSound(c: Config, s: Net, m: DaoMsg)
    requires DownInv(c, s) && Enabled(c, s, RecvDao(c.root, m))
    ensures DaoInv(c, s, m) && m.src in s.nodes && s.nodes[m.src].parent.Some?
  {
  }

  lemma ParentStays(s: Net, t: Net, u: Addr)
    requires Grows(s, t) && u in s.nodes && s.nodes[u].parent.Some?
    ensures u in t.nodes && t.nodes[u].parent.Some? && ParentOf(t, u) == ParentOf(s, u)
  {
    assert GrowsAt(s.nodes[u], t.nodes[u]);
  }

  /** Once the root has received any DAO of u, however old, its tree has u under u's parent, for good. */
  lemma HeardIsEntered(c: Config, es: seq<Event>, ss: seq<Net>, j: nat, u: Addr)
    requires c.WellFormed() && QuietRun(c, es, ss) && j < |ss| && RootHears(c, es, j, u)
    requires c.mop == 6 || c.mop == 1
    ensures c.root in ss[j].nodes && u in ss[j].nodes && ss[j].nodes[u].parent.Some?
    ensures Insert(ParentOf(ss[j], u), u, u) in ss[j].nodes[c.root].inserts
  {
    hide *;
    var b, m := DaoOf(c, es, j, u);
    StepOf(c, es, ss, b);
    R.QuietRunInv(c, es, ss, b);
    QuietRunDown(c, es, ss, b);
    RootIsThere(c, ss[b]);
    DaoIsSound(c, ss[b], m);
    SenderIsEntered(c, ss[b], m);
    RootNeverForgets(c, es, ss, b + 1, j);
    RunGrows(c, es, ss, b, j);
    ParentStays(ss[b], ss[j], u);
  }

  /**
   The good half of the tree: default routes lead from every joined node v to the root, and once the
   root has received a DAO from each node on the way, its tree has every hop of it.
   */
  lemma TreeSpansPath(c: Config, es: seq<Event>, ss: seq<Net>, j: nat, v: Addr) returns (p: seq<Addr>)
    requires c.WellFormed() && QuietRun(c, es, ss) && j < |ss| && v in ss[j].nodes
    requires c.mop == 6 || c.mop == 1
    ensures Upward(ss[j], p) && p[0] == v && p[|p| - 1] == c.root && Distinct(p)
    ensures (forall k :: 0 <= k < |p| - 1 ==> RootHears(c, es, j, p[k])) ==>
              forall k :: 0 <= k < |p| - 1 ==> Insert(p[k + 1], p[k], p[k]) in ss[j].nodes[c.root].inserts
  {
    p := DefaultRoutesReachRoot(c, es, ss, j, v);
    if forall k :: 0 <= k < |p| - 1 ==> RootHears(c, es, j, p[k]) {
      forall k | 0 <= k < |p| - 1
        ensures Insert(p[k + 1], p[k], p[k]) in ss[j].nodes[c.root].inserts
      {
        assert p[k] != p[|p| - 1];
        hide QuietRun, RootHears;
        HeardIsEntered(c, es, ss, j, p[k]);
      }
    }
  }
}
