/**
 Ranks and parents in runs without invalidation: a distributed Bellman-Ford computation whose
 parent pointers never form a cycle.
 */
module Ranks {
  import opened Wrappers
  import opened Rpl
  import opened DaoOptions
  import opened Graph
  import opened Network
  import opened DaoExchange
  import DS = DagState

  ghost predicate IsMinimum(rank: u16, heard: seq<DioMsg>) {
    && (forall m :: m in heard ==> rank <= m.rank)
    && (exists m :: m in heard && rank == m.rank)
  }

  /** What holds of a joined node v other than the root, given its state, its history and the join order. */
  ghost predicate NodeInv(c: Config, join: map<Addr, nat>, v: Addr, d: DS.State, heard: seq<DioMsg>) {
    && d.parent.Some? && heard != [] && d.parent.value.addr == heard[0].src
    && v in join && d.parent.value.addr in join && join[d.parent.value.addr] < join[v]
    && 1 <= d.parent.value.rank <= join[v] && d.myRank == d.parent.value.rank + 1
    && IsMinimum(d.parent.value.rank, heard)
    && d.defaultRoute == Some(d.parent.value.addr)
    && v in Ball(c.g, c.root, d.myRank - 1)
  }

  ghost predicate Configured(c: Config, v: Addr, d: DS.State) {
    d.self == v && d.mop == c.mop && d.cls == c.ClassOf(v)
  }

  ghost predicate Joined(c: Config, s: Net) {
    && (forall v :: v in s.nodes <==> v in s.join)
    && (forall v :: v in s.join ==> v in c.g)
    && (forall v :: v in s.join ==> s.join[v] < |s.join|)
    && (forall v :: v !in s.nodes ==> s.Heard(v) == [])
    && (forall v :: v in s.nodes ==> Configured(c, v, s.nodes[v]))
  }

  ghost predicate RootInv(c: Config, s: Net) {
    c.root in s.nodes && s.nodes[c.root].myRank == 1 && s.nodes[c.root].parent == None
  }

  ghost predicate DioInv(c: Config, s: Net, m: DioMsg) {
    && m.src in s.nodes && m.src in s.join
    && 1 <= s.nodes[m.src].myRank <= m.rank <= s.join[m.src] + 1
    && m.src in Ball(c.g, c.root, m.rank - 1)
  }

  /** p leads from the root over members, none of which has a rank above its place on p. */
  ghost predicate Ranked(c: Config, nodes: map<Addr, DS.State>, p: seq<Addr>) {
    SimplePath(c.g, c.root, p) && forall i :: 0 <= i < |p| ==> p[i] in nodes && nodes[p[i]].myRank <= i + 1
  }

  /** Some such path of k nodes ends at x. */
  ghost predicate HasPath(c: Config, nodes: map<Addr, DS.State>, x: Addr, k: nat) {
    exists p :: Ranked(c, nodes, p) && |p| == k && p[k - 1] == x
  }

  /** Every rank, of a node or in a DIO, is the length of a path; so ranks fit 16 bits if paths do. */
  ghost predicate Paths(c: Config, s: Net) {
    && (forall v :: v in s.nodes ==> HasPath(c, s.nodes, v, s.nodes[v].myRank))
    && (forall m :: m in s.dios ==> HasPath(c, s.nodes, m.src, m.rank))
  }

  ghost predicate Inv(c: Config, s: Net) {
    && Joined(c, s) && RootInv(c, s) && Paths(c, s)
    && (forall v :: v in s.nodes && v != c.root ==> NodeInv(c, s.join, v, s.nodes[v], s.Heard(v)))
    && (forall m :: m in s.dios ==> DioInv(c, s, m))
  }

  lemma InitInv(c: Config)
    requires c.WellFormed()
    ensures Inv(c, Init(c))
  {
    assert Ranked(c, Init(c).nodes, [c.root]);
  }

  // ---- ranks are lengths of paths ----

  /** A configuration with no more nodes than that has no longer path. */
  lemma SmallGraphIsWellFormed(c: Config)
    requires c.Closed() && |c.g| <= 0xFFFF
    ensures c.WellFormed()
  {
    forall p | SimplePath(c.g, c.root, p)
      ensures |p| <= 0xFFFF
    {
      PathIsSmall(c, p, |p|);
      SubsetSize((set i | 0 <= i < |p| :: p[i]), c.g.Keys);
    }
  }

  lemma {:induction false} PathIsSmall(c: Config, p: seq<Addr>, n: nat)
    requires c.Closed() && SimplePath(c.g, c.root, p) && n <= |p|
    ensures (set i | 0 <= i < n :: p[i]) <= c.g.Keys && |set i | 0 <= i < n :: p[i]| == n
    decreases n
  {
    if n > 0 {
      PathIsSmall(c, p, n - 1);
      assert n > 1 ==> p[n - 2 + 1] in Neighbours(c.g, p[n - 2]) && p[n - 2] in set i | 0 <= i < n - 1 :: p[i];
      assert (set i | 0 <= i < n :: p[i]) == (set i | 0 <= i < n - 1 :: p[i]) + {p[n - 1]};
    }
  }

  lemma {:induction false} SubsetSize<T>(a: set<T>, b: set<T>)
    requires a <= b
    ensures |a| <= |b|
    decreases |a|
  {
    if a != {} {
      var x :| x in a;
      SubsetSize(a - {x}, b - {x});
    }
  }

  /** Members stay and their ranks do not rise. */
  ghost predicate NoRankRises(nodes: map<Addr, DS.State>, nodes': map<Addr, DS.State>) {
    forall v :: v in nodes ==> v in nodes' && nodes'[v].myRank <= nodes[v].myRank
  }

  lemma PathStays(c: Config, nodes: map<Addr, DS.State>, nodes': map<Addr, DS.State>, x: Addr, k: nat)
    requires NoRankRises(nodes, nodes') && HasPath(c, nodes, x, k)
    ensures HasPath(c, nodes', x, k)
  {
    var p :| Ranked(c, nodes, p) && |p| == k && p[k - 1] == x;
    assert Ranked(c, nodes', p);
  }

  /** A receiver that is better off behind the sender is not on the sender's path, which therefore goes on to it. */
  lemma PathGoesOn(c: Config, nodes: map<Addr, DS.State>, m: DioMsg, v: Addr) returns (p: seq<Addr>)
    requires HasPath(c, nodes, m.src, m.rank) && v in Neighbours(c.g, m.src)
    requires v in nodes ==> nodes[v].myRank > m.rank
    ensures |p| == m.rank > 0 && Ranked(c, nodes, p) && SimplePath(c.g, c.root, p + [v])
  {
    p :| Ranked(c, nodes, p) && |p| == m.rank && p[m.rank - 1] == m.src;
    assert forall i :: 0 <= i < |p| ==> p[i] != v;
  }

  lemma RankFits(c: Config, nodes: map<Addr, DS.State>, m: DioMsg, v: Addr)
    requires c.WellFormed() && HasPath(c, nodes, m.src, m.rank) && v in Neighbours(c.g, m.src)
    requires v in nodes ==> nodes[v].myRank > m.rank
    ensures m.rank < 0xFFFF
  {
    var p := PathGoesOn(c, nodes, m, v);
  }

  lemma NewRankHasPath(c: Config, nodes: map<Addr, DS.State>, nodes': map<Addr, DS.State>, m: DioMsg, v: Addr)
    requires HasPath(c, nodes, m.src, m.rank) && v in Neighbours(c.g, m.src)
    requires v in nodes ==> nodes[v].myRank > m.rank
    requires NoRankRises(nodes, nodes') && v in nodes' && nodes'[v].myRank == m.rank + 1
    ensures HasPath(c, nodes', v, m.rank + 1)
  {
    var p := PathGoesOn(c, nodes, m, v);
    assert Ranked(c, nodes', p + [v]);
  }

  // ---- one step ----

  lemma MinimumExtends(rank: u16, heard: seq<DioMsg>, m: DioMsg)
    requires IsMinimum(rank, heard)
    ensures IsMinimum(if m.rank < rank then m.rank else rank, heard + [m])
  {
    var w :| w in heard && rank == w.rank;
    assert w in heard + [m] && m in heard + [m];
  }

  /** A neighbour of the sender of a DIO of rank r is within r hops of the root. */
  lemma OneHopFurther(c: Config, m: DioMsg, v: Addr)
    requires m.rank >= 1 && m.src in Ball(c.g, c.root, m.rank - 1) && v in Neighbours(c.g, m.src)
    ensures v in Ball(c.g, c.root, m.rank)
  {
  }

  lemma JoinedReceiver(c: Config, join: map<Addr, nat>, v: Addr, d: DS.State, heard: seq<DioMsg>, m: DioMsg, now: real)
    requires NodeInv(c, join, v, d, heard)
    requires m.rank >= 1 && m.src in Ball(c.g, c.root, m.rank - 1) && v in Neighbours(c.g, m.src)
    ensures NodeInv(c, join, v, DS.ReceiveDio(d, m.src, m.rank, now), heard + [m])
    ensures DS.ReceiveDio(d, m.src, m.rank, now).myRank <= d.myRank
  {
    DS.LiveParentKeeps(d, m.src, m.rank, now);
    MinimumExtends(d.parent.value.rank, heard, m);
    OneHopFurther(c, m, v);
    hide Ball, IsMinimum;
  }

  lemma NewReceiver(c: Config, join: map<Addr, nat>, v: Addr, m: DioMsg, now: real)
    requires v !in join && m.src in join && join[m.src] < |join|
    requires 1 <= m.rank <= |join| && m.rank < 0xFFFF && m.src in Ball(c.g, c.root, m.rank - 1) && v in Neighbours(c.g, m.src)
    ensures var d := DS.ReceiveDio(DS.Created(v, c.ClassOf(v), c.mop, now, c.trickle), m.src, m.rank, now);
            NodeInv(c, join[v := |join|], v, d, [m])
  {
    DS.NoParentAdopts(DS.Created(v, c.ClassOf(v), c.mop, now, c.trickle), m.src, m.rank, now);
    assert m in [m];
    OneHopFurther(c, m, v);
    hide Ball;
  }

  /** The others keep their invariant as long as the join order only grows and no sender's rank rises. */
  lemma OthersKeepInv(c: Config, s: Net, t: Net, v: Addr)
    requires Inv(c, s) && (forall w :: w in s.nodes ==> w in t.nodes) && (forall w :: w in t.nodes <==> w in t.join)
    requires forall w :: w in s.join ==> t.join[w] == s.join[w]
    requires forall w :: w in s.nodes && w != v ==> t.nodes[w] == s.nodes[w] && t.Heard(w) == s.Heard(w)
    requires v in s.nodes ==> 1 <= t.nodes[v].myRank <= s.nodes[v].myRank
    ensures forall w :: w in s.nodes && w != v && w != c.root ==> NodeInv(c, t.join, w, t.nodes[w], t.Heard(w))
    ensures forall m :: m in s.dios ==> DioInv(c, t, m)
  {
    hide IsMinimum, Ball;
    forall w | w in s.nodes && w != v && w != c.root
      ensures NodeInv(c, t.join, w, t.nodes[w], t.Heard(w))
    {
      assert NodeInv(c, s.join, w, s.nodes[w], s.Heard(w));
    }
    forall m | m in s.dios
      ensures DioInv(c, t, m)
    {
      assert DioInv(c, s, m);
    }
  }

  lemma JoinGrows(join: map<Addr, nat>, v: Addr)
    ensures v !in join ==> |join[v := |join|]| == |join| + 1
    ensures forall w :: w in join && w != v ==> join[v := |join|][w] == join[w]
  {
    if v !in join {
      assert join[v := |join|].Keys == join.Keys + {v};
    }
  }

  /** The step from s to t changes node v only, joining it if it had not joined, and sends no DIO. */
  ghost predicate Touches(s: Net, t: Net, v: Addr) {
    && (forall w :: w in t.nodes <==> w in s.nodes || w == v)
    && t.join == (if v in s.join then s.join else s.join[v := |s.join|])
    && (forall w :: w in s.nodes && w != v ==> t.nodes[w] == s.nodes[w])
    && (forall w :: w != v ==> t.Heard(w) == s.Heard(w))
    && t.dios == s.dios
  }

  lemma TouchKeepsJoined(c: Config, s: Net, t: Net, v: Addr)
    requires Joined(c, s) && Touches(s, t, v) && v in c.g && Configured(c, v, t.nodes[v])
    ensures Joined(c, t)
    ensures forall w :: w in s.join ==> t.join[w] == s.join[w]
  {
    hide Configured, Net.Heard;
    JoinGrows(s.join, v);
  }

  /** Such a step keeps the invariant if the part of v holds. */
  lemma TouchKeepsInv(c: Config, s: Net, t: Net, v: Addr)
    requires Inv(c, s) && Touches(s, t, v) && v in c.g && Configured(c, v, t.nodes[v])
    requires if v == c.root then t.nodes[v].myRank == 1 && t.nodes[v].parent == None
             else NodeInv(c, t.join, v, t.nodes[v], t.Heard(v))
    requires v in s.nodes ==> 1 <= t.nodes[v].myRank <= s.nodes[v].myRank
    requires HasPath(c, t.nodes, v, t.nodes[v].myRank)
    ensures Inv(c, t)
  {
    hide NodeInv, DioInv, Configured, Net.Heard, HasPath, Paths;
    TouchKeepsJoined(c, s, t, v);
    TouchKeepsPaths(c, s, t, v);
    hide Joined;
    OthersKeepInv(c, s, t, v);
  }

  lemma TouchKeepsPaths(c: Config, s: Net, t: Net, v: Addr)
    requires Paths(c, s) && Touches(s, t, v) && HasPath(c, t.nodes, v, t.nodes[v].myRank)
    requires v in s.nodes ==> t.nodes[v].myRank <= s.nodes[v].myRank
    ensures Paths(c, t)
  {
    hide HasPath, Net.Heard;
    forall w | w in t.nodes
      ensures HasPath(c, t.nodes, w, t.nodes[w].myRank)
    {
      if w != v {
        PathStays(c, s.nodes, t.nodes, w, s.nodes[w].myRank);
      }
    }
    forall m | m in t.dios
      ensures HasPath(c, t.nodes, m.src, m.rank)
    {
      PathStays(c, s.nodes, t.nodes, m.src, m.rank);
    }
  }

  lemma RecvDioTouches(c: Config, s: Net, v: Addr, m: DioMsg, now: real)
    requires Enabled(c, s, RecvDio(v, m, now))
    ensures var t := Apply(c, s, RecvDio(v, m, now));
            && Touches(s, t, v) && t.Heard(v) == s.Heard(v) + [m]
            && t.nodes[v] == DS.ReceiveDio(Before(c, s, v, now), m.src, m.rank, now)
  {
    hide DS.ReceiveDio, DS.SentOnDio, DaoBody, Before;
  }

  /** The receiver's part of the invariant: a member follows the better rank, a newcomer the sender. */
  lemma ReceiverPart(c: Config, s: Net, v: Addr, m: DioMsg, now: real)
    requires c.WellFormed() && Inv(c, s) && Quiet(c, s, RecvDio(v, m, now)) && v != c.root
    ensures var d := DS.ReceiveDio(Before(c, s, v, now), m.src, m.rank, now);
            && NodeInv(c, if v in s.join then s.join else s.join[v := |s.join|], v, d, s.Heard(v) + [m])
            && d.myRank >= 1 && (v in s.nodes ==> d.myRank <= s.nodes[v].myRank)
  {
    hide Ball, IsMinimum, DS.ReceiveDio, HasPath, Config.WellFormed;
    assert DioInv(c, s, m);
    if v in s.nodes {
      assert NodeInv(c, s.join, v, s.nodes[v], s.Heard(v));
      JoinedReceiver(c, s.join, v, s.nodes[v], s.Heard(v), m, now);
    } else {
      RankFits(c, s.nodes, m, v);
      NewReceiver(c, s.join, v, m, now);
      assert s.Heard(v) + [m] == [m];
    }
  }

  /** The way to the receiver is the one to the sender and one hop more, if its rank changes at all. */
  lemma MemberHasPath(c: Config, s: Net, t: Net, v: Addr, m: DioMsg, now: real)
    requires HasPath(c, s.nodes, m.src, m.rank) && v in Neighbours(c.g, m.src) && v in s.nodes
    requires HasPath(c, s.nodes, v, s.nodes[v].myRank) && NodeInv(c, s.join, v, s.nodes[v], s.Heard(v))
    requires NoRankRises(s.nodes, t.nodes) && t.nodes[v] == DS.ReceiveDio(s.nodes[v], m.src, m.rank, now)
    ensures HasPath(c, t.nodes, v, t.nodes[v].myRank)
  {
    var d := s.nodes[v];
    assert d.myRank != 1 && d.parent.value.rank < 0xFFFF && d.myRank == d.parent.value.rank + 1;
    hide NodeInv, HasPath;
    DS.LiveParentKeeps(d, m.src, m.rank, now);
    hide NoRankRises, DS.ReceiveDio;
    if m.rank > d.parent.value.rank {
      PathStays(c, s.nodes, t.nodes, v, d.myRank);
    } else {
      NewRankHasPath(c, s.nodes, t.nodes, m, v);
    }
  }

  lemma NewcomerHasPath(c: Config, s: Net, t: Net, v: Addr, m: DioMsg, now: real)
    requires c.WellFormed() && HasPath(c, s.nodes, m.src, m.rank) && v in Neighbours(c.g, m.src) && v !in s.nodes
    requires NoRankRises(s.nodes, t.nodes) && v in t.nodes
    requires t.nodes[v] == DS.ReceiveDio(Before(c, s, v, now), m.src, m.rank, now)
    ensures HasPath(c, t.nodes, v, t.nodes[v].myRank)
  {
    hide HasPath, Config.WellFormed, NoRankRises, DS.ReceiveDio;
    RankFits(c, s.nodes, m, v);
    DS.NoParentAdopts(Before(c, s, v, now), m.src, m.rank, now);
    NewRankHasPath(c, s.nodes, t.nodes, m, v);
  }

  lemma ReceiverHasPath(c: Config, s: Net, t: Net, v: Addr, m: DioMsg, now: real)
    requires c.WellFormed() && Inv(c, s) && Quiet(c, s, RecvDio(v, m, now)) && v != c.root
    requires NoRankRises(s.nodes, t.nodes) && v in t.nodes
    requires t.nodes[v] == DS.ReceiveDio(Before(c, s, v, now), m.src, m.rank, now)
    ensures HasPath(c, t.nodes, v, t.nodes[v].myRank)
  {
    hide DS.ReceiveDio, HasPath, Config.WellFormed, NoRankRises, NodeInv, DioInv, Joined;
    if v in s.nodes {
      MemberHasPath(c, s, t, v, m, now);
    } else {
      NewcomerHasPath(c, s, t, v, m, now);
    }
  }

  lemma DioKeepsConfiguration(d: DS.State, from: Addr, rank: u16, now: real)
    ensures var d' := DS.ReceiveDio(d, from, rank, now);
            && d'.self == d.self && d'.mop == d.mop && d'.cls == d.cls
            && (d.myRank == 1 ==> d' == d)
  {
  }

  lemma OnlyOneMoves(s: Net, t: Net, v: Addr)
    requires Touches(s, t, v) && (v in s.nodes ==> t.nodes[v].myRank <= s.nodes[v].myRank)
    ensures NoRankRises(s.nodes, t.nodes)
  {
  }

  lemma RootIgnoresDio(c: Config, s: Net, t: Net, m: DioMsg, now: real)
    requires Inv(c, s) && Touches(s, t, c.root)
    requires t.nodes[c.root] == DS.ReceiveDio(Before(c, s, c.root, now), m.src, m.rank, now)
    ensures t.nodes[c.root] == s.nodes[c.root] && t.nodes[c.root].myRank == 1 && t.nodes[c.root].parent == None
    ensures HasPath(c, t.nodes, c.root, t.nodes[c.root].myRank)
  {
    DioKeepsConfiguration(s.nodes[c.root], m.src, m.rank, now);
    OnlyOneMoves(s, t, c.root);
    hide HasPath, NodeInv, DioInv, Joined, DS.ReceiveDio;
    PathStays(c, s.nodes, t.nodes, c.root, s.nodes[c.root].myRank);
  }

  lemma RecvDioKeepsInv(c: Config, s: Net, v: Addr, m: DioMsg, now: real)
    requires c.WellFormed() && Inv(c, s) && Quiet(c, s, RecvDio(v, m, now))
    ensures Inv(c, Apply(c, s, RecvDio(v, m, now)))
  {
    var t := Apply(c, s, RecvDio(v, m, now));
    hide NodeInv, Inv, DS.ReceiveDio, Apply, HasPath, Config.WellFormed, NoRankRises, Touches, Configured;
    RecvDioTouches(c, s, v, m, now);
    TouchedJoined(s, t, v);
    ReceiverIsConfigured(c, s, v, m, now);
    if v != c.root {
      ReceiverPart(c, s, v, m, now);
      OnlyOneMoves(s, t, v);
      ReceiverHasPath(c, s, t, v, m, now);
    } else {
      RootIgnoresDio(c, s, t, m, now);
    }
    TouchKeepsInv(c, s, t, v);
  }

  lemma ReceiverIsConfigured(c: Config, s: Net, v: Addr, m: DioMsg, now: real)
    requires Inv(c, s)
    ensures Configured(c, v, DS.ReceiveDio(Before(c, s, v, now), m.src, m.rank, now))
  {
    DioKeepsConfiguration(Before(c, s, v, now), m.src, m.rank, now);
    hide NodeInv, DioInv, Paths, DS.ReceiveDio;
  }

  lemma TouchedJoined(s: Net, t: Net, v: Addr)
    requires Touches(s, t, v)
    ensures v in t.nodes && t.join == if v in s.join then s.join else s.join[v := |s.join|]
  {
  }

  lemma SentDioInv(c: Config, s: Net, u: Addr)
    requires Inv(c, s) && u in s.nodes
    ensures DioInv(c, s, DioMsg(u, s.nodes[u].myRank))
  {
    assert u == c.root || NodeInv(c, s.join, u, s.nodes[u], s.Heard(u));
    assert c.root in Ball(c.g, c.root, 0);
  }

  lemma SendDioKeepsInv(c: Config, s: Net, u: Addr)
    requires Inv(c, s) && u in s.nodes
    ensures Inv(c, Apply(c, s, SendDio(u)))
  {
    var t := Apply(c, s, SendDio(u));
    SentDioInv(c, s, u);
    SameNodesKeepInv(c, s, t, DioMsg(u, s.nodes[u].myRank));
  }

  /** One more DIO in flight, and nothing else. */
  lemma SameNodesKeepInv(c: Config, s: Net, t: Net, m: DioMsg)
    requires Inv(c, s) && t == s.(dios := s.dios + {m}) && DioInv(c, s, m) && HasPath(c, s.nodes, m.src, m.rank)
    ensures Inv(c, t)
  {
    hide Ball, IsMinimum, NodeInv, HasPath;
    forall w | w in t.nodes && w != c.root
      ensures NodeInv(c, t.join, w, t.nodes[w], t.Heard(w))
    {
      assert NodeInv(c, s.join, w, s.nodes[w], s.Heard(w));
    }
    forall n | n in t.dios
      ensures DioInv(c, t, n)
    {
      assert DioInv(c, s, n);
    }
  }

  /** A DAO changes children, routes and the tree, nothing of the upward state. */
  lemma DaoKeepsRank(d: DS.State, p: Parsed, from: Addr)
    ensures var d' := DS.ReceiveDao(d, p, from);
            d'.(childs := d.childs, routes := d.routes, inserts := d.inserts) == d
  {
  }

  lemma RecvDaoTouches(c: Config, s: Net, v: Addr, m: DaoMsg)
    requires Joined(c, s) && Enabled(c, s, RecvDao(v, m))
    ensures var t := Apply(c, s, RecvDao(v, m));
            && Touches(s, t, v) && t.Heard(v) == s.Heard(v) && t.join == s.join
            && t.nodes[v] == DS.ReceiveDao(s.nodes[v], ReadBack(m.body), m.src)
  {
    hide DS.ReceiveDao, ReadBack, Configured;
  }

  lemma RecvDaoKeepsInv(c: Config, s: Net, v: Addr, m: DaoMsg)
    requires Inv(c, s) && Enabled(c, s, RecvDao(v, m))
    ensures Inv(c, Apply(c, s, RecvDao(v, m)))
  {
    var t := Apply(c, s, RecvDao(v, m));
    RecvDaoTouches(c, s, v, m);
    DaoKeepsRank(s.nodes[v], ReadBack(m.body), m.src);
    hide IsMinimum, Ball, ReadBack, DS.ReceiveDao, Apply, HasPath;
    PathStays(c, s.nodes, t.nodes, v, s.nodes[v].myRank);
    hide Touches;
    assert v == c.root || NodeInv(c, s.join, v, s.nodes[v], s.Heard(v));
    assert Configured(c, v, s.nodes[v]);
    TouchKeepsInv(c, s, t, v);
  }

  lemma StepKeepsInv(c: Config, s: Net, e: Event)
    requires c.WellFormed() && Inv(c, s) && Quiet(c, s, e)
    ensures Inv(c, Apply(c, s, e))
  {
    hide Inv, Apply, Enabled;
    if e.SendDio? {
      EventIsEnabled(c, s, e);
      SendDioKeepsInv(c, s, e.u);
    } else if e.RecvDio? {
      RecvDioKeepsInv(c, s, e.v, e.dio, e.now);
    } else if e.RecvDao? {
      RecvDaoKeepsInv(c, s, e.v, e.dao);
    } else {
      QuietCheckChangesNothing(c, s, e);
    }
  }

  lemma EventIsEnabled(c: Config, s: Net, e: Event)
    requires Quiet(c, s, e)
    ensures e.SendDio? ==> e.u in s.nodes
  {
  }

  lemma QuietCheckChangesNothing(c: Config, s: Net, e: Event)
    requires Quiet(c, s, e) && e.Check?
    ensures Apply(c, s, e) == s
  {
    assert s.nodes[e.v := s.nodes[e.v]] == s.nodes;
  }

  lemma {:induction false} QuietRunInv(c: Config, es: seq<Event>, ss: seq<Net>, i: nat)
    requires c.WellFormed() && QuietRun(c, es, ss) && i < |ss|
    ensures Inv(c, ss[i])
    decreases i
  {
    hide *;
    StartOf(c, es, ss);
    if i == 0 {
      InitInv(c);
    } else {
      QuietRunInv(c, es, ss, i - 1);
      StepOf(c, es, ss, i - 1);
      StepKeepsInv(c, ss[i - 1], es[i - 1]);
    }
  }

  // ---- what never changes, and what only improves ----

  /** Membership, parent address and history survive a quiet step; the rank does not rise. */
  ghost predicate Improves(s: Net, t: Net, v: Addr)
    requires v in s.nodes
  {
    && v in t.nodes && t.nodes[v].myRank <= s.nodes[v].myRank && s.Heard(v) <= t.Heard(v)
    && (s.nodes[v].parent.Some? ==>
          t.nodes[v].parent.Some? && t.nodes[v].parent.value.addr == s.nodes[v].parent.value.addr)
  }

  lemma DioImproves(c: Config, s: Net, v: Addr, m: DioMsg, now: real)
    requires c.WellFormed() && Inv(c, s) && Quiet(c, s, RecvDio(v, m, now)) && v in s.nodes && v != c.root
    ensures var d' := DS.ReceiveDio(s.nodes[v], m.src, m.rank, now);
            && s.nodes[v].parent.Some? && d'.parent.Some? && d'.parent.value.addr == s.nodes[v].parent.value.addr
            && d'.myRank <= s.nodes[v].myRank
  {
    assert NodeInv(c, s.join, v, s.nodes[v], s.Heard(v));
    hide Ball, IsMinimum, DS.ReceiveDio, HasPath, Paths, Config.WellFormed, Joined, DioInv;
    ReceiverPart(c, s, v, m, now);
    DS.LiveParentKeeps(s.nodes[v], m.src, m.rank, now);
  }

  lemma StepImproves(c: Config, s: Net, e: Event, v: Addr)
    requires c.WellFormed() && Inv(c, s) && Quiet(c, s, e) && v in s.nodes
    ensures Improves(s, Apply(c, s, e), v)
  {
    hide NodeInv, DioInv, Paths, Config.WellFormed, DS.ReceiveDio, DS.ReceiveDao, DS.SentOnDio;
    if e.RecvDio? {
      RecvDioTouches(c, s, e.v, e.dio, e.now);
      hide Apply, Joined;
      if e.v == v && v != c.root {
        DioImproves(c, s, v, e.dio, e.now);
      } else if e.v == v {
        DioKeepsConfiguration(s.nodes[v], e.dio.src, e.dio.rank, e.now);
      }
    } else if e.RecvDao? {
      RecvDaoTouches(c, s, e.v, e.dao);
      hide Apply, Joined;
      DaoKeepsRank(s.nodes[e.v], ReadBack(e.dao.body), e.dao.src);
    } else if e.Check? {
      hide Inv;
      QuietCheckChangesNothing(c, s, e);
    }
  }

  lemma ImprovesItself(s: Net, v: Addr)
    requires v in s.nodes
    ensures Improves(s, s, v)
  {
  }

  lemma StillJoined(s: Net, t: Net, v: Addr)
    requires v in s.nodes && Improves(s, t, v)
    ensures v in t.nodes
  {
  }

  lemma ImprovesTransitively(s: Net, t: Net, u: Net, v: Addr)
    requires v in s.nodes && v in t.nodes && Improves(s, t, v) && Improves(t, u, v)
    ensures Improves(s, u, v)
  {
  }

  lemma {:induction false} RunImproves(c: Config, es: seq<Event>, ss: seq<Net>, i: nat, j: nat, v: Addr)
    requires c.WellFormed() && QuietRun(c, es, ss) && i <= j < |ss| && v in ss[i].nodes
    ensures Improves(ss[i], ss[j], v)
    decreases j
  {
    hide *;
    StartOf(c, es, ss);
    if i == j {
      ImprovesItself(ss[i], v);
    } else {
      RunImproves(c, es, ss, i, j - 1, v);
      StillJoined(ss[i], ss[j - 1], v);
      QuietRunInv(c, es, ss, j - 1);
      StepOf(c, es, ss, j - 1);
      StepImproves(c, ss[j - 1], es[j - 1], v);
      ImprovesTransitively(ss[i], ss[j - 1], ss[j], v);
    }
  }

  // ---- main results ----

  /**
   A joined node's rank is one more than the least rank it ever heard, is never below one more
   than its hop distance to the root, and its parent is the sender of the first DIO it processed.
   */
  lemma RankIsBestHeard(c: Config, es: seq<Event>, ss: seq<Net>, i: nat, v: Addr)
    requires c.WellFormed() && QuietRun(c, es, ss) && i < |ss| && v in ss[i].nodes && v != c.root
    ensures var d, heard := ss[i].nodes[v], ss[i].Heard(v);
            && d.myRank >= 2 && IsMinimum(d.myRank - 1, heard)
            && heard != [] && d.parent == Some(Peer(heard[0].src, d.myRank - 1))
    ensures forall k: nat :: Distance(c.g, c.root, v, k) ==> k + 1 <= ss[i].nodes[v].myRank
  {
    QuietRunInv(c, es, ss, i);
    assert NodeInv(c, ss[i].join, v, ss[i].nodes[v], ss[i].Heard(v));
    forall k: nat | Distance(c.g, c.root, v, k)
      ensures k + 1 <= ss[i].nodes[v].myRank
    {
      DistanceIsFirstBall(c.g, c.root, v, k);
    }
  }

  /** Between i and j node u sends a DIO that node v then receives; anything else may happen in between. */
  ghost predicate Reaches(es: seq<Event>, ss: seq<Net>, i: nat, j: nat, u: Addr, v: Addr)
    requires i <= j <= |es| < |ss|
  {
    exists a: nat, b: nat, now: real ::
      && i <= a < b < j && es[a] == SendDio(u) && u in ss[a].nodes
      && es[b] == RecvDio(v, DioMsg(u, ss[a].nodes[u].myRank), now)
  }

  /** Every node that has joined by i gets a DIO across to each of its neighbours before j. */
  ghost predicate Round(c: Config, es: seq<Event>, ss: seq<Net>, i: nat, j: nat)
    requires i <= j <= |es| < |ss|
  {
    forall u, v :: u in ss[i].nodes && v in Neighbours(c.g, u) && v != c.root ==> Reaches(es, ss, i, j, u, v)
  }

  ghost predicate Settled(c: Config, s: Net, k: nat) {
    forall x :: x in Ball(c.g, c.root, k) ==> x in s.nodes && s.nodes[x].myRank <= k + 1
  }

  lemma DeliveryLowersRank(c: Config, es: seq<Event>, ss: seq<Net>, i: nat, j: nat, u: Addr, v: Addr)
    requires c.WellFormed() && QuietRun(c, es, ss) && i <= j <= |es|
    requires u in ss[i].nodes && v != c.root && Reaches(es, ss, i, j, u, v)
    ensures v in ss[j].nodes && ss[j].nodes[v].myRank <= ss[i].nodes[u].myRank + 1
  {
    var a: nat, b: nat, now: real :|
      && i <= a < b < j && es[a] == SendDio(u) && u in ss[a].nodes
      && es[b] == RecvDio(v, DioMsg(u, ss[a].nodes[u].myRank), now);
    var m := DioMsg(u, ss[a].nodes[u].myRank);
    RunImproves(c, es, ss, i, a, u);
    RecvDioTouches(c, ss[b], v, m, now);
    QuietRunInv(c, es, ss, b + 1);
    assert m in ss[b + 1].Heard(v);
    assert NodeInv(c, ss[b + 1].join, v, ss[b + 1].nodes[v], ss[b + 1].Heard(v));
    RunImproves(c, es, ss, b + 1, j, v);
  }

  lemma RoundSettlesOneHopMore(c: Config, es: seq<Event>, ss: seq<Net>, i: nat, j: nat, k: nat)
    requires c.WellFormed() && QuietRun(c, es, ss) && i <= j <= |es|
    requires Round(c, es, ss, i, j) && Settled(c, ss[i], k)
    ensures Settled(c, ss[j], k + 1)
  {
    forall x | x in Ball(c.g, c.root, k + 1)
      ensures x in ss[j].nodes && ss[j].nodes[x].myRank <= k + 2
    {
      QuietRunInv(c, es, ss, j);
      if x in Ball(c.g, c.root, k) {
        RunImproves(c, es, ss, i, j, x);
      } else if x != c.root {
        var u :| u in Ball(c.g, c.root, k) && x in Neighbours(c.g, u);
        DeliveryLowersRank(c, es, ss, i, j, u, x);
      }
    }
  }

  lemma {:induction false} RoundsSettle(c: Config, es: seq<Event>, ss: seq<Net>, cuts: seq<nat>)
    requires c.WellFormed() && QuietRun(c, es, ss) && Rounds(c, es, ss, cuts)
    ensures Settled(c, ss[cuts[|cuts| - 1]], |cuts| - 1)
    decreases |cuts|
  {
    hide QuietRun, Round, Settled, Config.WellFormed, Inv;
    var last := |cuts| - 1;
    if last == 0 {
      QuietRunInv(c, es, ss, cuts[0]);
      RootIsSettled(c, ss[cuts[0]]);
    } else {
      RoundsSettle(c, es, ss, cuts[..last]);
      RoundSettlesOneHopMore(c, es, ss, cuts[last - 1], cuts[last], last - 1);
    }
  }

  lemma RootIsSettled(c: Config, s: Net)
    requires Inv(c, s)
    ensures Settled(c, s, 0)
  {
  }

  /** Consecutive rounds, delimited by the positions in cuts. */
  ghost predicate Rounds(c: Config, es: seq<Event>, ss: seq<Net>, cuts: seq<nat>) {
    && cuts != [] && |es| < |ss|
    && (forall k :: 0 <= k < |cuts| ==> cuts[k] <= |es|)
    && (forall k :: 0 <= k < |cuts| - 1 ==> cuts[k] <= cuts[k + 1] && Round(c, es, ss, cuts[k], cuts[k + 1]))
  }

  /**
   Convergence: after d rounds, and ever after, each node within d hops of the root has joined and
   its rank is exactly one more than its hop distance, whatever else was delivered and in whatever order.
   */
  lemma RanksConverge(c: Config, es: seq<Event>, ss: seq<Net>, cuts: seq<nat>, j: nat, x: Addr)
    requires c.WellFormed() && QuietRun(c, es, ss) && Rounds(c, es, ss, cuts)
    requires cuts[|cuts| - 1] <= j < |ss| && x in Ball(c.g, c.root, |cuts| - 1)
    ensures x in ss[j].nodes && ss[j].nodes[x].myRank >= 1
    ensures Distance(c.g, c.root, x, ss[j].nodes[x].myRank - 1)
  {
    var k := ConvergesAt(c, es, ss, cuts, j, x);
    hide *;
  }

  lemma ConvergesAt(c: Config, es: seq<Event>, ss: seq<Net>, cuts: seq<nat>, j: nat, x: Addr) returns (k: nat)
    requires c.WellFormed() && QuietRun(c, es, ss) && Rounds(c, es, ss, cuts)
    requires cuts[|cuts| - 1] <= j < |ss| && x in Ball(c.g, c.root, |cuts| - 1)
    ensures x in ss[j].nodes && ss[j].nodes[x].myRank == k + 1 && Distance(c.g, c.root, x, k)
  {
    k := FirstBallOf(c.g, c.root, x, |cuts| - 1);
    hide *;
    PrefixSettles(c, es, ss, cuts, k);
    SettledExactly(c, es, ss, cuts[k], j, k, x);
    DistanceIsFirstBall(c.g, c.root, x, k);
  }

  lemma PrefixSettles(c: Config, es: seq<Event>, ss: seq<Net>, cuts: seq<nat>, k: nat)
    requires c.WellFormed() && QuietRun(c, es, ss) && Rounds(c, es, ss, cuts) && k < |cuts|
    ensures cuts[k] <= cuts[|cuts| - 1] && cuts[k] < |ss| && Settled(c, ss[cuts[k]], k)
  {
    CutsAscend(c, es, ss, cuts, k);
    RoundsSettle(c, es, ss, cuts[..k + 1]);
  }

  lemma SettledExactly(c: Config, es: seq<Event>, ss: seq<Net>, i: nat, j: nat, k: nat, x: Addr)
    requires c.WellFormed() && QuietRun(c, es, ss) && i <= j < |ss|
    requires Settled(c, ss[i], k) && FirstBall(c.g, c.root, x, k)
    ensures x in ss[j].nodes && ss[j].nodes[x].myRank == k + 1
  {
    RunImproves(c, es, ss, i, j, x);
    QuietRunInv(c, es, ss, j);
    if x == c.root {
      assert x in Ball(c.g, c.root, 0);
    } else {
      DistanceIsFirstBall(c.g, c.root, x, k);
      RankIsBestHeard(c, es, ss, j, x);
    }
  }

  lemma {:induction false} CutsAscend(c: Config, es: seq<Event>, ss: seq<Net>, cuts: seq<nat>, k: nat)
    requires Rounds(c, es, ss, cuts) && k < |cuts|
    ensures cuts[k] <= cuts[|cuts| - 1]
    ensures Rounds(c, es, ss, cuts[..k + 1])
    decreases |cuts| - k
  {
    if k < |cuts| - 1 {
      CutsAscend(c, es, ss, cuts, k + 1);
    }
  }

  lemma {:induction false} FirstBallOf<V(!new)>(g: Graph<V>, s: V, x: V, d: nat) returns (k: nat)
    requires x in Ball(g, s, d)
    ensures k <= d && FirstBall(g, s, x, k)
  {
    if exists e: nat :: e < d && x in Ball(g, s, e) {
      var e: nat :| e < d && x in Ball(g, s, e);
      k := FirstBallOf(g, s, x, e);
    } else {
      k := d;
    }
  }
}
