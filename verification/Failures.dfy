/**
 What the rank and parent guarantees do not survive, each with a run that shows it: one
 invalidation is enough for a cycle of parents, two for a second node of the root's rank.
 */
module Failures {
  import opened Wrappers
  import opened Rpl
  import opened Graph
  import opened DaoExchange
  import opened Network
  import DS = DagState

  lemma {:induction false} Extend(c: Config, es: seq<Event>, ss: seq<Net>, e: Event)
    returns (es': seq<Event>, ss': seq<Net>, t: Net)
    requires Run(c, es, ss) && Enabled(c, ss[|es|], e)
    ensures es' == es + [e] && ss' == ss + [t] && t == Apply(c, ss[|es|], e)
    ensures Run(c, es', ss') && |es'| == |es| + 1 && ss'[|es'|] == t
  {
    t := Apply(c, ss[|es|], e);
    es', ss' := es + [e], ss + [t];
    forall i | 0 <= i < |es'|
      ensures Enabled(c, ss'[i], es'[i]) && ss'[i + 1] == Apply(c, ss'[i], es'[i])
    {
      if i < |es| {
        assert ss'[i] == ss[i] && es'[i] == es[i] && ss'[i + 1] == ss[i + 1];
      }
    }
  }

  /** Root r and two nodes a, b, all in range of one another, with a DIO interval of one second. */
  ghost function Triangle(r: Addr, a: Addr, b: Addr): Config {
    Config(map[r := {a, b}, a := {r, b}, b := {r, a}], r, 6, map[], 1.0)
  }

  /** Sending from u and delivering to v at once. */
  lemma SendAndDeliver(c: Config, es: seq<Event>, ss: seq<Net>, u: Addr, v: Addr, now: real)
    returns (es': seq<Event>, ss': seq<Net>, t: Net)
    requires Run(c, es, ss) && u in ss[|es|].nodes && v in c.g && v in Neighbours(c.g, u)
    ensures Run(c, es', ss') && ss'[|es'|] == t && |es'| == |es| + 2
    ensures es' == es + [SendDio(u), RecvDio(v, DioMsg(u, ss[|es|].nodes[u].myRank), now)]
    ensures var s := ss[|es|];
            && t.nodes == s.nodes[v := DS.ReceiveDio(Before(c, s, v, now), u, s.nodes[u].myRank, now)]
            && s.daos <= t.daos
            && forall dst :: dst in DS.SentOnDio(Before(c, s, v, now), u, s.nodes[u].myRank, now, c.root) ==>
                               DaoMsg(v, dst, DaoBody(t.nodes[v])) in t.daos
  {
    var s := ss[|es|];
    var m := DioMsg(u, s.nodes[u].myRank);
    var mid;
    es', ss', mid := Extend(c, es, ss, SendDio(u));
    hide Run, DS.ReceiveDio, DS.SentOnDio, DaoBody;
    es', ss', t := Extend(c, es', ss', RecvDio(v, m, now));
    assert Before(c, mid, v, now) == Before(c, s, v, now);
  }

  lemma GiveUp(c: Config, es: seq<Event>, ss: seq<Net>, v: Addr, now: real)
    returns (es': seq<Event>, ss': seq<Net>, t: Net)
    requires Run(c, es, ss) && v in ss[|es|].nodes
    ensures Run(c, es', ss') && ss'[|es'|] == t && |es'| == |es| + 1
    ensures t.nodes == ss[|es|].nodes[v := DS.CheckParent(ss[|es|].nodes[v], now)]
  {
    es', ss', t := Extend(c, es, ss, Check(v, now));
  }

  /**
   Parents need not be acyclic once one of them has been given up: the orphan a adopts b, whose
   parent it is. All ranks on the way are finite.
   */
  lemma OrphanAdoptsItsChild(r: Addr, a: Addr, b: Addr) returns (es: seq<Event>, ss: seq<Net>)
    requires r != a && r != b && a != b
    ensures Run(Triangle(r, a, b), es, ss)
    ensures var nodes := ss[|es|].nodes;
            && a in nodes && b in nodes
            && nodes[a].parent == Some(Peer(b, 3)) && nodes[b].parent == Some(Peer(a, 2))
  {
    var c := Triangle(r, a, b);
    es, ss := [], [Init(c)];
    var t;
    es, ss, t := SendAndDeliver(c, es, ss, r, a, 0.0);
    es, ss, t := SendAndDeliver(c, es, ss, a, b, 0.0);
    es, ss, t := GiveUp(c, es, ss, a, 8.0);
    es, ss, t := SendAndDeliver(c, es, ss, b, a, 9.0);
  }

  /**
   Rank 1 is not the root's alone: when a and b are both orphaned, b adopts a at rank 0xFFFF, so its
   own rank wraps to 0, and a, adopting b in turn, gets rank 1.
   */
  lemma OrphanBecomesSecondRoot(r: Addr, a: Addr, b: Addr) returns (es: seq<Event>, ss: seq<Net>)
    requires r != a && r != b && a != b
    ensures Run(Triangle(r, a, b), es, ss)
    ensures var nodes := ss[|es|].nodes;
            a in nodes && nodes[a].myRank == 1 && DS.BuildsTree(nodes[a])
  {
    var c := Triangle(r, a, b);
    es, ss := [], [Init(c)];
    var t;
    es, ss, t := SendAndDeliver(c, es, ss, r, a, 0.0);
    es, ss, t := SendAndDeliver(c, es, ss, r, b, 0.0);
    es, ss, t := GiveUp(c, es, ss, a, 8.0);
    es, ss, t := GiveUp(c, es, ss, b, 8.0);
    es, ss, t := SendAndDeliver(c, es, ss, a, b, 9.0);
    es, ss, t := SendAndDeliver(c, es, ss, b, a, 9.0);
  }

  // ---- the hybrid node's DAO to the root ----

  /** In a hybrid DODAG the DAOs of an accepted DIO reach the root exactly if that DIO's rank exceeds 1 or the parent is the root. */
  lemma RootIsAddressedIff(d: DS.State, from: Addr, rank: u16, now: real, root: Addr)
    requires d.mop == 6 && DS.Accepts(d, from, rank)
    ensures root in DS.SentOnDio(d, from, rank, now, root) <==> rank > 1 || DS.PeerFor(d, from).addr == root
  {
    assert DS.ReceiveDio(d, from, rank, now).parent.value == Peer(DS.PeerFor(d, from).addr, rank);
  }

  ghost predicate NoChecks(es: seq<Event>) {
    forall i :: 0 <= i < |es| ==> !es[i].Check?
  }

  /** b joins behind a, which joins behind the root. */
  lemma TwoHops(r: Addr, a: Addr, b: Addr) returns (es: seq<Event>, ss: seq<Net>)
    requires r != a && r != b && a != b
    ensures Run(Triangle(r, a, b), es, ss) && NoChecks(es)
    ensures var nodes := ss[|es|].nodes;
            && r in nodes && nodes[r].myRank == 1 && b in nodes
            && nodes[b].mop == 6 && nodes[b].myRank == 3 && nodes[b].parent == Some(Peer(a, 2))
  {
    var c := Triangle(r, a, b);
    es, ss := [], [Init(c)];
    var t;
    es, ss, t := SendAndDeliver(c, es, ss, r, a, 0.0);
    es, ss, t := SendAndDeliver(c, es, ss, a, b, 0.0);
  }

  /** A quiet run in which a node with parent a accepts the root's own DIO: its DAO then goes to a alone. */
  lemma RootIsPassedOver(r: Addr, a: Addr, b: Addr) returns (es: seq<Event>, ss: seq<Net>)
    requires r != a && r != b && a != b
    ensures QuietRun(Triangle(r, a, b), es, ss) && es != []
    ensures var s := ss[|es| - 1];
            && es[|es| - 1] == RecvDio(b, DioMsg(r, 1), 0.0)
            && b in s.nodes && s.nodes[b].parent == Some(Peer(a, 2))
            && DS.SentOnDio(s.nodes[b], r, 1, 0.0, r) == [a]
  {
    var c := Triangle(r, a, b);
    es, ss := TwoHops(r, a, b);
    var s := ss[|es|];
    var t;
    es, ss, t := Extend(c, es, ss, SendDio(r));
    assert t.nodes == s.nodes && DioMsg(r, 1) in t.dios && b in Neighbours(c.g, r);
    hide Run, Apply;
    es, ss, t := Extend(c, es, ss, RecvDio(b, DioMsg(r, 1), 0.0));
    UncheckedRunIsQuiet(c, es, ss);
  }

  lemma UncheckedRunIsQuiet(c: Config, es: seq<Event>, ss: seq<Net>)
    requires Run(c, es, ss) && NoChecks(es)
    ensures QuietRun(c, es, ss)
  {
  }
}
