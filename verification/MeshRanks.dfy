/** The harness and the protocol agree: its breadth-first depths are the ranks the network converges to, less one. */
module MeshRanks {
  import opened Rpl
  import opened Graph
  import opened Network
  import M = MeshStart
  import R = Ranks

  /** The network runs on the harness's topology, node n having address addr[n] and node 0 being the root. */
  ghost predicate RunsOn(c: Config, adj: map<nat, seq<nat>>, addr: map<nat, Addr>) {
    && M.Closed(adj) && addr.Keys == adj.Keys && c.root == addr[0]
    && (forall m, n :: m in addr && n in addr && addr[m] == addr[n] ==> m == n)
    && (forall n :: n in adj ==> addr[n] in c.g && c.g[addr[n]] == set nb | nb in adj[n] :: addr[nb])
  }

  lemma EdgeMaps(c: Config, adj: map<nat, seq<nat>>, addr: map<nat, Addr>, v: nat, x: nat)
    requires RunsOn(c, adj, addr) && v in adj && x in Neighbours(M.AsGraph(adj), v)
    ensures x in adj && x in addr && v in addr && addr[x] in Neighbours(c.g, addr[v])
  {
  }

  lemma RootMaps(c: Config, adj: map<nat, seq<nat>>, addr: map<nat, Addr>)
    requires RunsOn(c, adj, addr)
    ensures 0 in adj && addr.Keys == adj.Keys && addr[0] == c.root
  {
  }

  lemma {:induction false} BallMaps(c: Config, adj: map<nat, seq<nat>>, addr: map<nat, Addr>, d: nat, x: nat)
    requires RunsOn(c, adj, addr) && x in Ball(M.AsGraph(adj), 0, d)
    ensures x in adj && x in addr && addr[x] in Ball(c.g, c.root, d)
    decreases d
  {
    hide *;
    if d == 0 {
      RootMaps(c, adj, addr);
      BallZero(M.AsGraph(adj), 0);
      BallZero(c.g, c.root);
    } else {
      var v := BallOrigin(M.AsGraph(adj), 0, d, x);
      BallMaps(c, adj, addr, d - 1, v);
      if x == v {
        BallGrows(c.g, c.root, d - 1, d);
      } else {
        EdgeMaps(c, adj, addr, v, x);
        BallStep(c.g, c.root, d - 1, addr[v], addr[x]);
      }
    }
  }

  lemma {:induction false} BallLifts(c: Config, adj: map<nat, seq<nat>>, addr: map<nat, Addr>, d: nat, y: Addr)
    returns (x: nat)
    requires RunsOn(c, adj, addr) && y in Ball(c.g, c.root, d)
    ensures x in adj && addr[x] == y && x in Ball(M.AsGraph(adj), 0, d)
    decreases d
  {
    if d == 0 {
      x := 0;
    } else {
      var w := BallOrigin(c.g, c.root, d, y);
      var v := BallLifts(c, adj, addr, d - 1, w);
      hide Ball;
      if y == w {
        x := v;
        BallGrows(M.AsGraph(adj), 0, d - 1, d);
      } else {
        x :| x in adj[v] && addr[x] == y;
        BallStep(M.AsGraph(adj), 0, d - 1, v, x);
      }
    }
  }

  lemma DistancesCorrespond(c: Config, adj: map<nat, seq<nat>>, addr: map<nat, Addr>, x: nat, d: nat)
    requires RunsOn(c, adj, addr) && x in adj && Distance(M.AsGraph(adj), 0, x, d)
    ensures Distance(c.g, c.root, addr[x], d) && addr[x] in Ball(c.g, c.root, d)
  {
    DistanceIsFirstBall(M.AsGraph(adj), 0, x, d);
    BallMaps(c, adj, addr, d, x);
    forall e: nat | e < d && addr[x] in Ball(c.g, c.root, e)
      ensures false
    {
      var z := BallLifts(c, adj, addr, e, addr[x]);
    }
    DistanceIsFirstBall(c.g, c.root, addr[x], d);
  }

  /** After as many rounds as x is deep, the daemon on x has rank depth[x] + 1, and keeps it. */
  lemma DepthPlusOneIsRank(c: Config, adj: map<nat, seq<nat>>, addr: map<nat, Addr>, depth: map<nat, nat>, x: nat,
                           es: seq<Event>, ss: seq<Net>, cuts: seq<nat>, j: nat)
    requires c.WellFormed() && RunsOn(c, adj, addr) && M.Exact(adj, depth) && x in depth
    requires QuietRun(c, es, ss) && R.Rounds(c, es, ss, cuts)
    requires |cuts| >= depth[x] + 1 && cuts[depth[x]] <= j < |ss|
    ensures x in addr && addr[x] in ss[j].nodes && ss[j].nodes[addr[x]].myRank == depth[x] + 1
  {
    DistanceIsFirstBall(M.AsGraph(adj), 0, x, depth[x]);
    BallMaps(c, adj, addr, depth[x], x);
    DistancesCorrespond(c, adj, addr, x, depth[x]);
    R.CutsAscend(c, es, ss, cuts, depth[x]);
    R.RanksConverge(c, es, ss, cuts[..depth[x] + 1], j, addr[x]);
    hide QuietRun, R.Rounds, RunsOn, Distance;
    DistanceIsUnique(c.g, c.root, addr[x], depth[x], ss[j].nodes[addr[x]].myRank - 1);
  }
}
