/**
 The 16-bit rank: in quiet runs it wraps around to 0 exactly on those topologies that have a path of
 65,536 nodes from the root.
 */
module Wraparound {
  import opened Rpl
  import opened Graph
  import opened Network
  import F = Failures
  import R = Ranks
  import DS = DagState

  const TOO_MANY := 0x1_0000

  /** The first k nodes of p have joined one behind the other. */
  ghost predicate JoinedOnPath(s: Net, p: seq<Addr>, k: nat)
    requires 0 < k <= |p|
  {
    && (forall x :: x in s.nodes <==> x in p[..k])
    && s.nodes[p[k - 1]].myRank == k % TOO_MANY
  }

  lemma NewcomerGetsNextRank(c: Config, s: Net, from: Addr, v: Addr, k: u16)
    requires v !in s.nodes
    ensures DS.ReceiveDio(Before(c, s, v, 0.0), from, k, 0.0).myRank == (k + 1) % TOO_MANY
  {
    DS.NoParentAdopts(Before(c, s, v, 0.0), from, k, 0.0);
  }

  lemma OneMoreOnPath(s: Net, t: Net, p: seq<Addr>, k: nat, d: DS.State)
    requires 0 < k < |p| && JoinedOnPath(s, p, k)
    requires t.nodes == s.nodes[p[k] := d] && d.myRank == (k + 1) % TOO_MANY
    ensures JoinedOnPath(t, p, k + 1)
  {
    assert p[..k + 1] == p[..k] + [p[k]];
  }

  lemma NoChecksMore(es: seq<Event>, u: Addr, v: Addr, rank: u16)
    requires F.NoChecks(es)
    ensures F.NoChecks(es + [SendDio(u), RecvDio(v, DioMsg(u, rank), 0.0)])
  {
  }

  lemma JoinNext(c: Config, p: seq<Addr>, es: seq<Event>, ss: seq<Net>, k: nat) returns (es': seq<Event>, ss': seq<Net>)
    requires c.Closed() && SimplePath(c.g, c.root, p) && 0 < k < |p| && k < TOO_MANY
    requires Run(c, es, ss) && F.NoChecks(es) && JoinedOnPath(ss[|es|], p, k)
    ensures Run(c, es', ss') && F.NoChecks(es') && JoinedOnPath(ss'[|es'|], p, k + 1)
  {
    var s, t, u, v := ss[|es|], ss[|es|], p[k - 1], p[k];
    assert v in Neighbours(c.g, u) && v in c.g by {
      assert p[k - 1 + 1] in Neighbours(c.g, p[k - 1]);
    }
    assert u in s.nodes && v !in s.nodes by {
      assert p[..k][k - 1] == u;
    }
    hide Run, Config.Closed, SimplePath, DS.ReceiveDio, Before, F.NoChecks;
    NewcomerGetsNextRank(c, s, u, v, k);
    es', ss', t := F.SendAndDeliver(c, es, ss, u, v, 0.0);
    OneMoreOnPath(s, t, p, k, DS.ReceiveDio(Before(c, s, v, 0.0), u, k, 0.0));
    NoChecksMore(es, u, v, k);
  }

  /** The nodes of a path join one behind the other, so the k-th has rank k, until the rank wraps. */
  lemma {:induction false} JoinInTurn(c: Config, p: seq<Addr>, k: nat) returns (es: seq<Event>, ss: seq<Net>)
    requires c.Closed() && SimplePath(c.g, c.root, p) && 0 < k <= |p| && k <= TOO_MANY
    ensures Run(c, es, ss) && F.NoChecks(es) && JoinedOnPath(ss[|es|], p, k)
    decreases k
  {
    if k == 1 {
      es, ss := [], [Init(c)];
    } else {
      es, ss := JoinInTurn(c, p, k - 1);
      hide *;
      es, ss := JoinNext(c, p, es, ss, k - 1);
    }
  }

  /** In this quiet run some rank has become 0. */
  ghost predicate Wraps(c: Config, es: seq<Event>, ss: seq<Net>) {
    QuietRun(c, es, ss) && exists v :: v in ss[|es|].nodes && ss[|es|].nodes[v].myRank == 0
  }

  lemma LongPathWraps(c: Config, p: seq<Addr>) returns (es: seq<Event>, ss: seq<Net>)
    requires c.Closed() && SimplePath(c.g, c.root, p) && |p| >= TOO_MANY
    ensures Wraps(c, es, ss)
  {
    es, ss := JoinInTurn(c, p, TOO_MANY);
    F.UncheckedRunIsQuiet(c, es, ss);
    hide Run, SimplePath;
    assert p[TOO_MANY - 1] in p[..TOO_MANY];
  }

  lemma RankIsNeverZero(c: Config, es: seq<Event>, ss: seq<Net>, i: nat, v: Addr)
    requires c.WellFormed() && QuietRun(c, es, ss) && i < |ss| && v in ss[i].nodes
    ensures ss[i].nodes[v].myRank >= 1
  {
    R.QuietRunInv(c, es, ss, i);
    assert v == c.root || R.NodeInv(c, ss[i].join, v, ss[i].nodes[v], ss[i].Heard(v));
  }

  lemma NeverWraps(c: Config, es: seq<Event>, ss: seq<Net>)
    requires c.WellFormed()
    ensures !Wraps(c, es, ss)
  {
    if Wraps(c, es, ss) {
      var v :| v in ss[|es|].nodes && ss[|es|].nodes[v].myRank == 0;
      RankIsNeverZero(c, es, ss, |es|, v);
    }
  }

  /**
   On any topology: some quiet run wraps a rank around exactly if some path from the root has more
   than 65,535 nodes. All that is proved of quiet runs holds on every other topology.
   */
  lemma WrapsIff(c: Config)
    requires c.Closed()
    ensures (exists es, ss :: Wraps(c, es, ss)) <==> (exists p :: SimplePath(c.g, c.root, p) && |p| >= TOO_MANY)
    ensures (exists es, ss :: Wraps(c, es, ss)) <==> !c.WellFormed()
  {
    if p :| SimplePath(c.g, c.root, p) && |p| >= TOO_MANY {
      var es, ss := LongPathWraps(c, p);
    } else {
      assert c.WellFormed();
      forall es, ss
        ensures !Wraps(c, es, ss)
      {
        NeverWraps(c, es, ss);
      }
    }
  }

  // ---- in numbers of nodes the bound is 65,535 ----

  function Node(i: nat): Addr
    requires i < TOO_MANY
  {
    [(i / 0x100) as byte, (i % 0x100) as byte] + seq(14, _ => 0)
  }

  function Index(x: Addr): nat {
    x[0] as int * 0x100 + x[1] as int
  }

  lemma NodeIndex(i: nat)
    requires i < TOO_MANY
    ensures Index(Node(i)) == i
  {
  }

  ghost function FirstNodes(n: nat): set<Addr>
    requires n <= TOO_MANY
  {
    set i | 0 <= i < n :: Node(i)
  }

  /** 65,536 nodes in a line, each in range of the one before and the one after, the root at one end. */
  ghost function Line(): Config {
    Config(map x | x in FirstNodes(TOO_MANY) :: LineNeighbours(x), Node(0), 6, map[], 1.0)
  }

  ghost function LineNeighbours(x: Addr): set<Addr> {
    set y | y in FirstNodes(TOO_MANY) && (Index(y) == Index(x) + 1 || Index(x) == Index(y) + 1)
  }

  lemma {:induction false} LineSize(n: nat)
    requires n <= TOO_MANY
    ensures |FirstNodes(n)| == n
    decreases n
  {
    if n > 0 {
      LineSize(n - 1);
      NewNode(n - 1);
      assert FirstNodes(n) == FirstNodes(n - 1) + {Node(n - 1)};
    }
  }

  lemma NewNode(k: nat)
    requires k < TOO_MANY
    ensures Node(k) !in FirstNodes(k)
  {
    forall i | 0 <= i < k
      ensures Node(i) != Node(k)
    {
      NodeIndex(i);
      NodeIndex(k);
    }
  }

  lemma LineNeighbour(k: nat)
    requires 0 < k < TOO_MANY
    ensures Node(k - 1) in Line().g && Node(k) in Line().g && Node(k) in Neighbours(Line().g, Node(k - 1))
  {
    NodeIndex(k);
    NodeIndex(k - 1);
  }

  ghost function Along(): seq<Addr> {
    seq(TOO_MANY, i requires 0 <= i < TOO_MANY => Node(i))
  }

  lemma LineIsAPath()
    ensures SimplePath(Line().g, Line().root, Along())
  {
    var p := Along();
    forall i | 0 <= i < |p| - 1
      ensures p[i + 1] in Neighbours(Line().g, p[i])
    {
      LineNeighbour(i + 1);
    }
    forall i, j | 0 <= i < j < |p|
      ensures p[i] != p[j]
    {
      NodeIndex(i);
      NodeIndex(j);
    }
  }

  /** No topology of up to 65,535 nodes wraps a rank around, but one with one node more does. */
  lemma OneNodeMoreWraps(c: Config)
    requires c.Closed() && |c.g| <= 0xFFFF
    ensures forall es, ss :: !Wraps(c, es, ss)
    ensures Line().Closed() && |Line().g| == 0xFFFF + 1 && exists es, ss :: Wraps(Line(), es, ss)
  {
    R.SmallGraphIsWellFormed(c);
    WrapsIff(c);
    LineSize(TOO_MANY);
    assert Line().g.Keys == FirstNodes(TOO_MANY);
    LineIsAPath();
    var es, ss := LongPathWraps(Line(), Along());
  }
}
