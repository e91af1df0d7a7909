/**
 Parent chains and downward routes in runs without invalidation: every chain of parents ends at
 the root, and every installed route leads hop by hop to its target.
 */
module Downward {
  import opened Wrappers
  import opened Rpl
  import opened DaoOptions
  import opened Network
  import opened DaoExchange
  import R = Ranks
  import DS = DagState

  // ---- the tree of parents ----

  ghost function ParentOf(s: Net, v: Addr): Addr
    requires v in s.nodes && s.nodes[v].parent.Some?
  {
    s.nodes[v].parent.value.addr
  }

  /** Parents joined before their children; this, not rank, is what rules out cycles. */
  ghost predicate Tree(c: Config, s: Net) {
    && c.root in s.nodes && c.root in s.join
    && forall v :: v in s.nodes && v != c.root ==>
                     && s.nodes[v].parent.Some? && v in s.join
                     && ParentOf(s, v) in s.nodes && ParentOf(s, v) in s.join && s.join[ParentOf(s, v)] < s.join[v]
                     && s.nodes[v].defaultRoute == Some(ParentOf(s, v))
                     && s.nodes[v].myRank >= 2
  }

  lemma InvGivesTree(c: Config, s: Net)
    requires R.Inv(c, s)
    ensures Tree(c, s)
  {
    forall v | v in s.nodes && v != c.root
      ensures && s.nodes[v].parent.Some? && v in s.join
              && ParentOf(s, v) in s.nodes && ParentOf(s, v) in s.join && s.join[ParentOf(s, v)] < s.join[v]
              && s.nodes[v].defaultRoute == Some(ParentOf(s, v)) && s.nodes[v].myRank >= 2
    {
      assert R.NodeInv(c, s.join, v, s.nodes[v], s.Heard(v));
    }
  }

  /** The number of parent hops from v to the root. */
  ghost function Depth(c: Config, s: Net, v: Addr): nat
    requires Tree(c, s) && v in s.nodes
    decreases if v == c.root then 0 else s.join[v] + 1
  {
    if v == c.root then 0 else 1 + Depth(c, s, ParentOf(s, v))
  }

  ghost predicate Distinct(p: seq<Addr>) {
    forall i, j :: 0 <= i < j < |p| ==> p[i] != p[j]
  }

  /** p follows default routes. */
  ghost predicate Upward(s: Net, p: seq<Addr>) {
    && p != [] && (forall i :: 0 <= i < |p| ==> p[i] in s.nodes)
    && forall i :: 0 <= i < |p| - 1 ==> s.nodes[p[i]].defaultRoute == Some(p[i + 1])
  }

  /** Join numbers fall along p, so nothing repeats on it. */
  ghost predicate Falling(join: map<Addr, nat>, p: seq<Addr>) {
    && (forall i :: 0 <= i < |p| ==> p[i] in join)
    && (forall i :: 0 <= i < |p| - 1 ==> join[p[i + 1]] < join[p[i]])
  }

  lemma {:induction false} FallingIsBelow(join: map<Addr, nat>, p: seq<Addr>, i: nat, j: nat)
    requires Falling(join, p) && i < j < |p|
    ensures join[p[j]] < join[p[i]]
    decreases j
  {
    if i < j - 1 {
      FallingIsBelow(join, p, i, j - 1);
    }
  }

  lemma FallingIsDistinct(join: map<Addr, nat>, p: seq<Addr>)
    requires Falling(join, p)
    ensures Distinct(p)
  {
    forall i, j | 0 <= i < j < |p|
      ensures p[i] != p[j]
    {
      FallingIsBelow(join, p, i, j);
    }
  }

  lemma {:induction false} ClimbFrom(c: Config, s: Net, v: Addr) returns (p: seq<Addr>)
    requires Tree(c, s) && v in s.nodes
    ensures Upward(s, p) && p[0] == v && p[|p| - 1] == c.root && |p| == Depth(c, s, v) + 1
    ensures Falling(s.join, p)
    decreases if v == c.root then 0 else s.join[v] + 1
  {
    if v == c.root {
      p := [v];
    } else {
      var u := ParentOf(s, v);
      var q := ClimbFrom(c, s, u);
      p := [v] + q;
      ExtendClimb(s, v, q);
    }
  }

  lemma ExtendClimb(s: Net, v: Addr, q: seq<Addr>)
    requires Upward(s, q) && Falling(s.join, q) && v in s.nodes && v in s.join
    requires s.nodes[v].defaultRoute == Some(q[0]) && s.join[q[0]] < s.join[v]
    ensures Upward(s, [v] + q) && Falling(s.join, [v] + q)
  {
  }

  /**
   Upward delivery: from every joined node the default routes lead to the root, over parents that
   joined earlier and earlier, visiting nothing twice.
   */
  lemma DefaultRoutesReachRoot(c: Config, es: seq<Event>, ss: seq<Net>, i: nat, v: Addr) returns (p: seq<Addr>)
    requires c.WellFormed() && QuietRun(c, es, ss) && i < |ss| && v in ss[i].nodes
    ensures Upward(ss[i], p) && p[0] == v && p[|p| - 1] == c.root && Distinct(p)
    ensures Tree(c, ss[i]) && |p| == Depth(c, ss[i], v) + 1
  {
    R.QuietRunInv(c, es, ss, i);
    InvGivesTree(c, ss[i]);
    p := ClimbFrom(c, ss[i], v);
    FallingIsDistinct(ss[i].join, p);
  }

  // ---- what DAOs establish ----

  /** The neighbour u may announce x: it is u itself, or a child that u aggregates. */
  ghost predicate Announces(s: Net, u: Addr, x: Addr)
    requires u in s.nodes
  {
    x == u || (DS.Aggregates(s.nodes[u]) && x in DS.Addresses(s.nodes[u].childs))
  }

  /** u is a tree child of v, and x is something u may announce. */
  ghost predicate Behind(c: Config, s: Net, v: Addr, u: Addr, x: Addr) {
    && u in s.nodes && u != c.root && s.nodes[u].parent.Some? && ParentOf(s, u) == v && Announces(s, u, x)
  }

  /** A DAO in flight comes from a member, is addressed to its parent or to the root, and reads back as its own. */
  ghost predicate DaoInv(c: Config, s: Net, m: DaoMsg) {
    && m.src in s.nodes && m.src != c.root && s.nodes[m.src].parent.Some?
    && (m.dst == ParentOf(s, m.src) || m.dst == c.root)
    && (Storing(c) ==> m.dst == ParentOf(s, m.src)) && (c.mop == 1 ==> m.dst == c.root)
    && ReadBack(m.body).complete && ReadBack(m.body).transit == Some(ParentOf(s, m.src))
    && ReadBack(m.body).seen != [] && ReadBack(m.body).seen[0] == m.src
    && forall x :: x in ReadBack(m.body).seen ==> Announces(s, m.src, x)
  }

  predicate Storing(c: Config) {
    c.mop == 2 || c.mop == 3
  }

  /** Children are tree children or what they announce (except at a root that also hears DAOs from afar). */
  ghost predicate ChildInv(c: Config, s: Net, v: Addr)
    requires v in s.nodes
  {
    var d := s.nodes[v];
    && DS.DistinctChildren(d.childs)
    && (v != c.root || Storing(c) ==> forall ch :: ch in d.childs ==> Behind(c, s, v, ch.from, ch.addr))
  }

  /** Routes are exactly the children of a node that installs routes, and empty elsewhere. */
  ghost predicate RouteInv(s: Net, v: Addr)
    requires v in s.nodes
  {
    RoutesAreChildren(s.nodes[v])
  }

  ghost predicate RoutesAreChildren(d: DS.State) {
    && (forall x :: x in d.routes ==> DS.Installs(d) && Child(x, d.routes[x]) in d.childs)
    && (DS.Installs(d) ==> forall ch :: ch in d.childs ==> ch.addr in d.routes)
  }

  ghost predicate DownInv(c: Config, s: Net) {
    && (forall m :: m in s.daos ==> DaoInv(c, s, m))
    && (forall v :: v in s.nodes ==> ChildInv(c, s, v) && RouteInv(s, v))
  }

  /** Members stay, keep parent and role, and only gain children. */
  ghost predicate Grows(s: Net, t: Net) {
    forall u :: u in s.nodes ==> u in t.nodes && GrowsAt(s.nodes[u], t.nodes[u])
  }

  ghost predicate GrowsAt(d: DS.State, d': DS.State) {
    && DS.Aggregates(d') == DS.Aggregates(d)
    && DS.Addresses(d.childs) <= DS.Addresses(d'.childs)
    && (d.parent.Some? ==> d'.parent.Some? && d'.parent.value.addr == d.parent.value.addr)
  }

  lemma BehindGrows(c: Config, s: Net, t: Net, v: Addr, u: Addr, x: Addr)
    requires Grows(s, t) && Behind(c, s, v, u, x)
    ensures Behind(c, t, v, u, x)
  {
    assert GrowsAt(s.nodes[u], t.nodes[u]);
  }

  lemma ChildInvGrows(c: Config, s: Net, t: Net, v: Addr)
    requires Grows(s, t) && v in s.nodes && ChildInv(c, s, v) && t.nodes[v].childs == s.nodes[v].childs
    ensures ChildInv(c, t, v)
  {
    if v != c.root || Storing(c) {
      forall ch | ch in t.nodes[v].childs
        ensures Behind(c, t, v, ch.from, ch.addr)
      {
        BehindGrows(c, s, t, v, ch.from, ch.addr);
      }
    }
  }

  lemma DaoInvGrows(c: Config, s: Net, t: Net, m: DaoMsg)
    requires Grows(s, t) && DaoInv(c, s, m)
    ensures DaoInv(c, t, m)
  {
    assert GrowsAt(s.nodes[m.src], t.nodes[m.src]);
    hide ReadBack;
  }

  lemma RouteInvStays(s: Net, t: Net, v: Addr)
    requires v in s.nodes && v in t.nodes && RouteInv(s, v)
    requires t.nodes[v].childs == s.nodes[v].childs && t.nodes[v].routes == s.nodes[v].routes
    requires DS.Installs(t.nodes[v]) == DS.Installs(s.nodes[v])
    ensures RouteInv(t, v)
  {
  }

  // ---- every quiet step keeps it ----

  /** The state of the one node a step changes, against its old state. */
  lemma OneNodeGrows(s: Net, t: Net, v: Addr)
    requires R.Touches(s, t, v) && (v in s.nodes ==> GrowsAt(s.nodes[v], t.nodes[v]))
    ensures Grows(s, t)
  {
  }

  /** All parts of the invariant but those of the changed node and of new DAOs follow. */
  lemma TouchKeepsDown(c: Config, s: Net, t: Net, v: Addr)
    requires DownInv(c, s) && R.Touches(s, t, v) && Grows(s, t)
    requires ChildInv(c, t, v) && RouteInv(t, v)
    requires forall m :: m in t.daos ==> m in s.daos || DaoInv(c, t, m)
    ensures DownInv(c, t)
  {
    forall m | m in t.daos
      ensures DaoInv(c, t, m)
    {
      if m in s.daos {
        DaoInvGrows(c, s, t, m);
      }
    }
    hide DaoInv, Grows;
    forall w | w in t.nodes
      ensures ChildInv(c, t, w) && RouteInv(t, w)
    {
      if w != v {
        ChildInvGrows(c, s, t, w);
        RouteInvStays(s, t, w);
      }
    }
  }

  /** What a DIO leaves alone. */
  lemma DioKeepsDownwardState(d: DS.State, from: Addr, rank: u16, now: real)
    ensures var d' := DS.ReceiveDio(d, from, rank, now);
            && d'.childs == d.childs && d'.routes == d.routes && d'.inserts == d.inserts
            && d'.mop == d.mop && d'.cls == d.cls && d'.self == d.self
  {
  }

  lemma NewDaoInv(c: Config, t: Net, v: Addr, dst: Addr)
    requires v in t.nodes && v != c.root && t.nodes[v].parent.Some? && t.nodes[v].self == v && t.nodes[v].mop == c.mop
    requires dst in DS.DaoDestinations(t.nodes[v], c.root)
    ensures DaoInv(c, t, DaoMsg(v, dst, DaoBody(t.nodes[v])))
  {
    BuiltDaoReadsBack(t.nodes[v]);
    hide ReadBack, DaoBody;
  }

  /** The DAOs an accepted DIO triggers carry what their sender announces at that moment. */
  lemma RecvDioSends(c: Config, s: Net, v: Addr, m: DioMsg, now: real)
    requires Enabled(c, s, RecvDio(v, m, now))
    requires var t := Apply(c, s, RecvDio(v, m, now)); Tree(c, t) && R.Configured(c, v, t.nodes[v])
    requires v == c.root ==> v in s.nodes && s.nodes[v].myRank == 1
    ensures var t := Apply(c, s, RecvDio(v, m, now));
            forall n :: n in t.daos && n !in s.daos ==> DaoInv(c, t, n)
  {
    var t := Apply(c, s, RecvDio(v, m, now));
    forall n | n in t.daos && n !in s.daos
      ensures DaoInv(c, t, n)
    {
      assert v != c.root;
      NewDaoInv(c, t, v, n.dst);
    }
  }

  lemma RecvDioGrows(c: Config, s: Net, v: Addr, m: DioMsg, now: real)
    requires c.WellFormed() && R.Inv(c, s) && Quiet(c, s, RecvDio(v, m, now)) && v in s.nodes
    ensures GrowsAt(s.nodes[v], Apply(c, s, RecvDio(v, m, now)).nodes[v])
  {
    hide R.Inv, Config.WellFormed, DS.ReceiveDio, DS.SentOnDio, DaoBody;
    DioKeepsDownwardState(s.nodes[v], m.src, m.rank, now);
    R.StepImproves(c, s, RecvDio(v, m, now), v);
    R.RecvDioTouches(c, s, v, m, now);
    hide Apply;
  }

  /** The receiver keeps its children and routes; a newcomer has none. */
  lemma RecvDioOwnPart(c: Config, s: Net, t: Net, v: Addr)
    requires DownInv(c, s) && Tree(c, s) && Tree(c, t) && Grows(s, t) && v in t.nodes
    requires v == c.root ==> v in s.nodes && t.nodes[v] == s.nodes[v]
    requires var d' := t.nodes[v];
             if v in s.nodes then var d := s.nodes[v];
                                  d'.childs == d.childs && d'.routes == d.routes && d'.mop == d.mop && d'.cls == d.cls
             else d'.childs == [] && d'.routes == map[]
    ensures ChildInv(c, t, v) && RouteInv(t, v)
  {
    if v in s.nodes {
      ChildInvGrows(c, s, t, v);
      RouteInvStays(s, t, v);
    }
  }

  lemma RecvDioKeepsDown(c: Config, s: Net, v: Addr, m: DioMsg, now: real)
    requires c.WellFormed() && R.Inv(c, s) && DownInv(c, s) && Quiet(c, s, RecvDio(v, m, now))
    ensures DownInv(c, Apply(c, s, RecvDio(v, m, now)))
  {
    var t := Apply(c, s, RecvDio(v, m, now));
    R.RecvDioTouches(c, s, v, m, now);
    R.RecvDioKeepsInv(c, s, v, m, now);
    InvGivesTree(c, s);
    InvGivesTree(c, t);
    assert R.Configured(c, v, t.nodes[v]) && (v == c.root ==> t.nodes[v] == s.nodes[v]);
    RecvDioSends(c, s, v, m, now);
    DioKeepsDownwardState(Before(c, s, v, now), m.src, m.rank, now);
    if v in s.nodes {
      RecvDioGrows(c, s, v, m, now);
    }
    OneNodeGrows(s, t, v);
    hide DS.ReceiveDio, DaoInv, Apply, Grows, GrowsAt, Tree, DownInv, R.Inv;
    RecvDioOwnPart(c, s, t, v);
    TouchKeepsDown(c, s, t, v);
  }

  /** Recording a DAO's targets adds children that the sender stands for. */
  lemma RecvDaoChildInv(c: Config, s: Net, t: Net, v: Addr, m: DaoMsg)
    requires v in s.nodes && ChildInv(c, s, v) && DaoInv(c, s, m) && m.dst == v && Grows(s, t)
    requires t.nodes[v].childs == DS.RecordAll(s.nodes[v].childs, ReadBack(m.body).seen, m.src)
    ensures ChildInv(c, t, v)
  {
    var p := ReadBack(m.body);
    DS.RecordAllMeaning(s.nodes[v].childs, p.seen, m.src);
    if v != c.root || Storing(c) {
      forall ch | ch in t.nodes[v].childs
        ensures Behind(c, t, v, ch.from, ch.addr)
      {
        if ch in s.nodes[v].childs {
          BehindGrows(c, s, t, v, ch.from, ch.addr);
        } else {
          assert Behind(c, s, v, m.src, ch.addr);
          BehindGrows(c, s, t, v, ch.from, ch.addr);
        }
      }
    }
  }

  /** Reinstalling the child list makes the routes exactly that list. */
  lemma RecvDaoRouteInv(d: DS.State, p: Parsed, from: Addr)
    requires p.complete && DS.DistinctChildren(d.childs) && RoutesAreChildren(d)
    ensures RoutesAreChildren(DS.ReceiveDao(d, p, from))
  {
    var childs := DS.RecordAll(d.childs, p.seen, from);
    DS.RecordAllMeaning(d.childs, p.seen, from);
    DS.InstallAllMeaning(d.routes, childs);
    hide DS.RecordAll, DS.InstallAll;
    forall x | x in DS.InstallAll(d.routes, childs)
      ensures DS.Installs(d) ==> Child(x, DS.InstallAll(d.routes, childs)[x]) in childs
    {
      if x in DS.Addresses(childs) {
        var ch :| ch in childs && ch.addr == x;
        assert ch == Child(x, ch.from);
      }
    }
  }

  lemma RecvDaoGrows(d: DS.State, p: Parsed, from: Addr)
    ensures GrowsAt(d, DS.ReceiveDao(d, p, from))
    ensures DS.ReceiveDao(d, p, from).childs == DS.RecordAll(d.childs, p.seen, from)
  {
    DS.RecordAllMeaning(d.childs, p.seen, from);
    hide DS.RecordAll;
  }

  lemma RecvDaoKeepsDown(c: Config, s: Net, v: Addr, m: DaoMsg)
    requires R.Joined(c, s) && DownInv(c, s) && Enabled(c, s, RecvDao(v, m))
    ensures DownInv(c, Apply(c, s, RecvDao(v, m)))
  {
    var t := Apply(c, s, RecvDao(v, m));
    var d, p := s.nodes[v], ReadBack(m.body);
    R.RecvDaoTouches(c, s, v, m);
    assert DaoInv(c, s, m) && ChildInv(c, s, v) && RouteInv(s, v);
    RecvDaoGrows(d, p, m.src);
    hide DS.ReceiveDao, ReadBack, DS.RecordAll, Apply, RoutesAreChildren, DownInv, Grows, GrowsAt;
    OneNodeGrows(s, t, v);
    RecvDaoChildInv(c, s, t, v, m);
    RecvDaoRouteInv(d, p, m.src);
    hide DaoInv, R.Touches;
    TouchKeepsDown(c, s, t, v);
  }

  lemma StepKeepsDown(c: Config, s: Net, e: Event)
    requires c.WellFormed() && R.Inv(c, s) && DownInv(c, s) && Quiet(c, s, e)
    ensures DownInv(c, Apply(c, s, e))
  {
    hide DownInv, Config.WellFormed, R.NodeInv, R.DioInv, R.Paths, DS.ReceiveDio, DS.ReceiveDao, DS.SentOnDio, DaoBody;
    if e.RecvDio? {
      RecvDioKeepsDown(c, s, e.v, e.dio, e.now);
    } else if e.RecvDao? {
      RecvDaoKeepsDown(c, s, e.v, e.dao);
    } else if e.Check? {
      R.QuietCheckChangesNothing(c, s, e);
    } else {
      SameNodesKeepDown(c, s, Apply(c, s, e));
    }
  }

  lemma SameNodesKeepDown(c: Config, s: Net, t: Net)
    requires DownInv(c, s) && t.nodes == s.nodes && t.daos == s.daos
    ensures DownInv(c, t)
  {
    forall m | m in t.daos
      ensures DaoInv(c, t, m)
    {
      DaoInvGrows(c, s, t, m);
    }
    forall v | v in t.nodes
      ensures ChildInv(c, t, v) && RouteInv(t, v)
    {
      ChildInvGrows(c, s, t, v);
      RouteInvStays(s, t, v);
    }
  }

  lemma InitDown(c: Config)
    ensures DownInv(c, Init(c))
  {
  }

  lemma {:induction false} QuietRunDown(c: Config, es: seq<Event>, ss: seq<Net>, i: nat)
    requires c.WellFormed() && QuietRun(c, es, ss) && i < |ss|
    ensures DownInv(c, ss[i])
    decreases i
  {
    hide *;
    StartOf(c, es, ss);
    if i == 0 {
      InitDown(c);
    } else {
      QuietRunDown(c, es, ss, i - 1);
      R.QuietRunInv(c, es, ss, i - 1);
      StepOf(c, es, ss, i - 1);
      StepKeepsDown(c, ss[i - 1], es[i - 1]);
    }
  }

  // ---- routes deliver ----

  /**
   A hop-by-hop delivery: every node on p but the last routes the last one via its successor,
   each hop goes from a parent to its child, and everything strictly between the ends installs routes.
   */
  ghost predicate Delivers(c: Config, s: Net, p: seq<Addr>) {
    && |p| >= 2 && (forall i :: 0 <= i < |p| ==> p[i] in s.nodes)
    && (forall i :: 0 <= i < |p| - 1 ==> Hop(s, p[i], p[i + 1], p[|p| - 1]))
    && (forall i :: 0 < i < |p| - 1 ==> DS.Installs(s.nodes[p[i]]) && p[i] != c.root)
  }

  ghost predicate Hop(s: Net, v: Addr, u: Addr, x: Addr) {
    && v in s.nodes && u in s.nodes && x in s.nodes[v].routes && s.nodes[v].routes[x] == u
    && s.nodes[u].parent.Some? && ParentOf(s, u) == v
  }

  /** Join numbers rise along p. */
  ghost predicate Rising(join: map<Addr, nat>, p: seq<Addr>) {
    && (forall i :: 0 <= i < |p| ==> p[i] in join)
    && (forall i :: 0 <= i < |p| - 1 ==> join[p[i]] < join[p[i + 1]])
  }

  lemma {:induction false} RisingIsAbove(join: map<Addr, nat>, p: seq<Addr>, i: nat, j: nat)
    requires Rising(join, p) && i < j < |p|
    ensures join[p[i]] < join[p[j]]
    decreases j
  {
    if i < j - 1 {
      RisingIsAbove(join, p, i, j - 1);
    }
  }

  /** In a hybrid or storing DODAG a node that aggregates children also routes to them. */
  lemma AggregatorsInstall(c: Config, s: Net, u: Addr)
    requires Tree(c, s) && u in s.nodes && u != c.root && DS.Aggregates(s.nodes[u])
    ensures DS.Installs(s.nodes[u])
  {
  }

  /** The next hop is a tree child of v, and either the target or a node with a route of its own to it. */
  lemma NextHop(c: Config, s: Net, v: Addr, x: Addr)
    requires Tree(c, s) && DownInv(c, s) && v in s.nodes && x in s.nodes[v].routes && (v == c.root ==> Storing(c))
    ensures var u := s.nodes[v].routes[x];
            && u in s.nodes && u != c.root && Hop(s, v, u, x) && u in s.join
            && (v in s.join ==> s.join[v] < s.join[u]) && Depth(c, s, u) == Depth(c, s, v) + 1
            && (x == u || (DS.Installs(s.nodes[u]) && x in s.nodes[u].routes))
  {
    assert ChildInv(c, s, v) && RouteInv(s, v);
    var u := s.nodes[v].routes[x];
    assert Behind(c, s, v, u, x);
    if x != u {
      AggregatorsInstall(c, s, u);
      assert RouteInv(s, u);
    }
  }

  ghost predicate JoinsBelow(s: Net, bound: nat) {
    forall w :: w in s.join ==> s.join[w] < bound
  }

  lemma JoinIsBelow(s: Net, bound: nat, w: Addr)
    requires JoinsBelow(s, bound) && w in s.join
    ensures s.join[w] < bound
  {
  }

  lemma {:induction false} FollowRoute(c: Config, s: Net, v: Addr, x: Addr, bound: nat) returns (p: seq<Addr>)
    requires Tree(c, s) && DownInv(c, s) && v in s.nodes && x in s.nodes[v].routes && (v == c.root ==> Storing(c))
    requires v in s.join && JoinsBelow(s, bound)
    ensures Delivers(c, s, p) && Rising(s.join, p) && |p| >= 2 && p[0] == v && p[|p| - 1] == x
    ensures Depth(c, s, x) == Depth(c, s, v) + |p| - 1
    decreases bound - s.join[v]
  {
    hide *;
    NextHop(c, s, v, x);
    JoinIsBelow(s, bound, s.nodes[v].routes[x]);
    JoinIsBelow(s, bound, v);
    var u := s.nodes[v].routes[x];
    if x == u {
      p := [v, u];
      OneHopDelivers(c, s, v, u);
    } else {
      var q := FollowRoute(c, s, u, x, bound);
      p := [v] + q;
      ExtendDelivery(c, s, v, q);
    }
  }

  lemma OneHopDelivers(c: Config, s: Net, v: Addr, u: Addr)
    requires v in s.join && u in s.join && s.join[v] < s.join[u] && Hop(s, v, u, u)
    ensures Delivers(c, s, [v, u]) && Rising(s.join, [v, u])
  {
  }

  lemma ExtendDelivery(c: Config, s: Net, v: Addr, q: seq<Addr>)
    requires Delivers(c, s, q) && Rising(s.join, q) && v in s.join && s.join[v] < s.join[q[0]]
    requires Hop(s, v, q[0], q[|q| - 1]) && DS.Installs(s.nodes[q[0]]) && q[0] != c.root
    ensures Delivers(c, s, [v] + q) && Rising(s.join, [v] + q)
    ensures ([v] + q)[0] == v && ([v] + q)[|q|] == q[|q| - 1]
  {
    var p := [v] + q;
    forall i | 0 <= i < |p| - 1
      ensures Hop(s, p[i], p[i + 1], p[|p| - 1])
    {
      if i > 0 {
        assert Hop(s, q[i - 1], q[i - 1 + 1], q[|q| - 1]);
      }
    }
  }

  /**
   Downward delivery: whatever DAOs were delivered and in whatever order, a route to x held by v
   leads, following at each next node that node's own route, to x itself; it runs down the tree
   of parents, only through nodes that install routes, in exactly the difference of depths.
   */
  lemma RoutesDeliver(c: Config, es: seq<Event>, ss: seq<Net>, i: nat, v: Addr, x: Addr) returns (p: seq<Addr>)
    requires c.WellFormed() && QuietRun(c, es, ss) && i < |ss| && v in ss[i].nodes && x in ss[i].nodes[v].routes
    ensures Delivers(c, ss[i], p) && p[0] == v && p[|p| - 1] == x && Distinct(p)
    ensures Tree(c, ss[i]) && Depth(c, ss[i], x) == Depth(c, ss[i], v) + |p| - 1
  {
    var s := ss[i];
    R.QuietRunInv(c, es, ss, i);
    InvGivesTree(c, s);
    QuietRunDown(c, es, ss, i);
    assert RouteInv(s, v) && R.Configured(c, v, s.nodes[v]);
    p := FollowRoute(c, s, v, x, |s.join|);
    forall j, k | 0 <= j < k < |p|
      ensures p[j] != p[k]
    {
      RisingIsAbove(s.join, p, j, k);
    }
  }

  /** In a hybrid DODAG only class S nodes other than the root hold routes, so every hop above starts at one. */
  lemma OnlyClassSForwards(c: Config, es: seq<Event>, ss: seq<Net>, i: nat, v: Addr)
    requires c.WellFormed() && QuietRun(c, es, ss) && i < |ss| && c.mop == 6
    requires v in ss[i].nodes && ss[i].nodes[v].routes != map[]
    ensures v != c.root && ss[i].nodes[v].cls == ClassS == c.ClassOf(v)
  {
    R.QuietRunInv(c, es, ss, i);
    QuietRunDown(c, es, ss, i);
    assert RouteInv(ss[i], v) && R.Configured(c, v, ss[i].nodes[v]);
    hide DaoInv, ChildInv, R.NodeInv, R.DioInv;
    var x :| x in ss[i].nodes[v].routes;
  }
}
