/**
 The mesh harness starts the daemons in breadth-first order from the root, node 0
 (test/hymrpl_mesh_resilience.py). Starting a node is appending it to `started`.
 */
module MeshStart {
  import opened Graph

  /** The adjacency table seen as a graph. */
  function AsGraph(adj: map<nat, seq<nat>>): Graph<nat> {
    map n | n in adj :: set nb | nb in adj[n]
  }

  /** Every listed neighbour has a row of its own, as the table built from LINKS guarantees. */
  ghost predicate Closed(adj: map<nat, seq<nat>>) {
    0 in adj && forall n, nb :: n in adj && nb in adj[n] ==> nb in adj
  }

  /** Depths are walkable: every node has a walk of that many hops from node 0. */
  ghost predicate Sound(adj: map<nat, seq<nat>>, depth: map<nat, nat>) {
    && 0 in depth && depth[0] == 0 && depth.Keys <= adj.Keys
    && forall x :: x in depth ==> x in Ball(AsGraph(adj), 0, depth[x])
  }

  /** The keys of the depth table in insertion order: each once, levels never going down. */
  ghost predicate Ordered(depth: map<nat, nat>, keys: seq<nat>) {
    && (forall x :: x in keys <==> x in depth)
    && (forall i, j :: 0 <= i < j < |keys| ==> keys[i] != keys[j] && depth[keys[i]] <= depth[keys[j]])
  }

  /** No edge out of the first `done` nodes skips a level, which is what makes the depths exact. */
  ghost predicate Scanned(adj: map<nat, seq<nat>>, depth: map<nat, nat>, keys: seq<nat>, done: nat)
    requires done <= |keys|
  {
    forall i, w :: 0 <= i < done && keys[i] in adj && w in adj[keys[i]] ==>
                     keys[i] in depth && w in depth && depth[w] <= depth[keys[i]] + 1
  }

  /** When all nodes are scanned, everything within k hops has a depth of at most k. */
  lemma {:induction false} BallIsDiscovered(adj: map<nat, seq<nat>>, depth: map<nat, nat>, keys: seq<nat>,
                                            x: nat, k: nat)
    requires Closed(adj) && Sound(adj, depth) && Ordered(depth, keys) && Scanned(adj, depth, keys, |keys|)
    requires x in Ball(AsGraph(adj), 0, k)
    ensures x in depth && depth[x] <= k
    decreases k
  {
    if k > 0 {
      var g := AsGraph(adj);
      if x in Ball(g, 0, k - 1) {
        BallIsDiscovered(adj, depth, keys, x, k - 1);
      } else {
        var v :| v in Ball(g, 0, k - 1) && x in Neighbours(g, v);
        BallIsDiscovered(adj, depth, keys, v, k - 1);
        assert v in keys;
      }
    }
  }

  ghost predicate Reachable(adj: map<nat, seq<nat>>, x: nat) {
    exists k: nat :: x in Ball(AsGraph(adj), 0, k)
  }

  /** The table holds exactly the nodes reachable from node 0, each with its hop distance. */
  ghost predicate Exact(adj: map<nat, seq<nat>>, depth: map<nat, nat>) {
    && (forall x :: x in depth <==> Reachable(adj, x))
    && (forall x :: x in depth ==> Distance(AsGraph(adj), 0, x, depth[x]))
  }

  lemma DepthIsDistance(adj: map<nat, seq<nat>>, depth: map<nat, nat>, keys: seq<nat>)
    requires Closed(adj) && Sound(adj, depth) && Ordered(depth, keys) && Scanned(adj, depth, keys, |keys|)
    ensures Exact(adj, depth)
  {
    forall x, k: nat | x in Ball(AsGraph(adj), 0, k)
      ensures x in depth && depth[x] <= k
    {
      BallIsDiscovered(adj, depth, keys, x, k);
    }
    forall x | x in depth
      ensures Distance(AsGraph(adj), 0, x, depth[x])
    {
      FirstBallIsDistance(AsGraph(adj), 0, x, depth[x]);
    }
  }

  /** Nothing discovered so far is more than one level below n. */
  ghost predicate Near(depth: map<nat, nat>, n: nat) {
    n in depth && forall x :: x in depth ==> depth[x] <= depth[n] + 1
  }

  /** What holds throughout the search when the first `done` nodes have been scanned. */
  ghost predicate Searching(adj: map<nat, seq<nat>>, depth: map<nat, nat>, keys: seq<nat>,
                            visited: set<nat>, done: nat) {
    Sound(adj, depth) && Ordered(depth, keys) && visited == depth.Keys && done <= |keys| && Scanned(adj, depth, keys, done)
  }

  lemma SearchStarts(adj: map<nat, seq<nat>>)
    requires Closed(adj)
    ensures Searching(adj, map[0 := 0], [0], {0}, 0) && Near(map[0 := 0], 0)
  {
  }

  lemma SearchKnows(adj: map<nat, seq<nat>>, depth: map<nat, nat>, keys: seq<nat>, visited: set<nat>, done: nat)
    requires Closed(adj) && Searching(adj, depth, keys, visited, done)
    ensures forall i :: 0 <= i < |keys| ==> keys[i] in adj && keys[i] in depth
    ensures visited == depth.Keys
  {
  }

  lemma AppendKeepsSound(adj: map<nat, seq<nat>>, depth: map<nat, nat>, n: nat, nb: nat)
    requires Closed(adj) && Sound(adj, depth) && n in depth && nb in adj[n] && nb !in depth
    ensures Sound(adj, depth[nb := depth[n] + 1])
  {
    assert nb in Neighbours(AsGraph(adj), n);
  }

  lemma AppendKeepsOrder(depth: map<nat, nat>, keys: seq<nat>, n: nat, nb: nat)
    requires Ordered(depth, keys) && Near(depth, n) && nb !in depth
    ensures Ordered(depth[nb := depth[n] + 1], keys + [nb])
  {
    assert forall x :: x in keys + [nb] <==> x in keys || x == nb;
  }

  lemma AppendKeepsScan(adj: map<nat, seq<nat>>, depth: map<nat, nat>, keys: seq<nat>, done: nat, nb: nat, d: nat)
    requires done <= |keys| && Scanned(adj, depth, keys, done) && nb !in depth
    ensures Scanned(adj, depth[nb := d], keys + [nb], done)
  {
  }

  /** Appending a new neighbour of the node at `done`, one level below it. */
  lemma AppendKeeps(adj: map<nat, seq<nat>>, depth: map<nat, nat>, keys: seq<nat>, visited: set<nat>, done: nat, nb: nat)
    requires Closed(adj) && Searching(adj, depth, keys, visited, done) && done < |keys|
    requires keys[done] in adj && nb in adj[keys[done]] && nb !in depth && Near(depth, keys[done])
    ensures Searching(adj, depth[nb := depth[keys[done]] + 1], keys + [nb], visited + {nb}, done)
    ensures Near(depth[nb := depth[keys[done]] + 1], keys[done])
    ensures (keys + [nb])[done + 1..] == keys[done + 1..] + [nb]
  {
    hide Sound, Ordered, Scanned, Closed;
    var n := keys[done];
    AppendKeepsSound(adj, depth, n, nb);
    AppendKeepsOrder(depth, keys, n, nb);
    AppendKeepsScan(adj, depth, keys, done, nb, depth[n] + 1);
  }

  /** Once all neighbours of the node at `done` are in the table, that node counts as scanned. */
  lemma ScanKeeps(adj: map<nat, seq<nat>>, depth: map<nat, nat>, keys: seq<nat>, visited: set<nat>, done: nat)
    requires Closed(adj) && Searching(adj, depth, keys, visited, done) && done < |keys|
    requires Near(depth, keys[done]) && keys[done] in adj
    requires forall j :: 0 <= j < |adj[keys[done]]| ==> adj[keys[done]][j] in depth
    ensures Searching(adj, depth, keys, visited, done + 1) && done < |adj|
    ensures done + 1 < |keys| ==> Near(depth, keys[done + 1])
  {
    DistinctFits(keys, adj.Keys);
  }

  lemma {:induction false} DistinctFits(keys: seq<nat>, s: set<nat>)
    requires forall i, j :: 0 <= i < j < |keys| ==> keys[i] != keys[j]
    requires forall x :: x in keys ==> x in s
    ensures |keys| <= |s|
    decreases |keys|
  {
    if keys != [] {
      var last := keys[|keys| - 1];
      DistinctFits(keys[..|keys| - 1], s - {last});
    }
  }

  /** One turn of the queue loop: every neighbour of n not seen before joins the table and the queue. */
  method ScanNeighbours(adj: map<nat, seq<nat>>, n: nat, depth0: map<nat, nat>, keys0: seq<nat>,
                        visited0: set<nat>, queue0: seq<nat>, ghost done: nat)
    returns (depth: map<nat, nat>, keys: seq<nat>, visited: set<nat>, queue: seq<nat>)
    requires Closed(adj) && Searching(adj, depth0, keys0, visited0, done) && n in adj
    requires done < |keys0| && keys0[done] == n && keys0[done + 1..] == queue0 && Near(depth0, n)
    ensures Searching(adj, depth, keys, visited, done + 1) && done < |adj|
    ensures keys[done + 1..] == queue
    ensures queue != [] ==> Near(depth, queue[0])
  {
    depth, keys, visited, queue := depth0, keys0, visited0, queue0;
    hide Sound, Ordered, Scanned, Closed;
    for i := 0 to |adj[n]|
      invariant Searching(adj, depth, keys, visited, done) && Near(depth, n)
      invariant done < |keys| && keys[done] == n && keys[done + 1..] == queue
      invariant forall j :: 0 <= j < i ==> adj[n][j] in depth
    {
      var nb := adj[n][i];
      if nb !in visited {
        AppendKeeps(adj, depth, keys, visited, done, nb);
        visited := visited + {nb};
        depth := depth[nb := depth[n] + 1];
        queue := queue + [nb];
        keys := keys + [nb];
      }
    }
    ScanKeeps(adj, depth, keys, visited, done);
  }

  /** The queue loop: depths of everything reachable from node 0, with their insertion order. */
  method Depths(adj: map<nat, seq<nat>>) returns (depth: map<nat, nat>, keys: seq<nat>)
    requires Closed(adj)
    ensures Ordered(depth, keys) && Exact(adj, depth)
  {
    depth, keys := map[0 := 0], [0];
    var visited, queue := {0}, [0];
    ghost var done := 0;
    SearchStarts(adj);
    while queue != []
      invariant Searching(adj, depth, keys, visited, done) && keys[done..] == queue
      invariant queue != [] ==> Near(depth, queue[0])
      decreases |adj| - done
    {
      var n := queue[0];
      assert keys[done] == n;
      SearchKnows(adj, depth, keys, visited, done);
      depth, keys, visited, queue := ScanNeighbours(adj, n, depth, keys, visited, queue[1..], done);
      done := done + 1;
    }
    DepthIsDistance(adj, depth, keys);
  }

  method MaxDepth(depth: map<nat, nat>, keys: seq<nat>) returns (max: nat)
    requires Ordered(depth, keys)
    ensures forall x :: x in depth ==> depth[x] <= max
  {
    max := 0;
    for i := 0 to |keys|
      invariant forall j :: 0 <= j < i ==> depth[keys[j]] <= max
    {
      if max < depth[keys[i]] {
        max := depth[keys[i]];
      }
    }
  }

  /** Each node at most once, and no node before a nearer one. */
  ghost predicate InOrder(depth: map<nat, nat>, started: seq<nat>) {
    forall i, j :: 0 <= i < j < |started| ==>
                     started[i] != started[j] && started[i] in depth && started[j] in depth && depth[started[i]] <= depth[started[j]]
  }

  /** What is started once all levels below d, and the nodes of level d listed in `some`, have been visited. */
  ghost predicate StartedUpTo(depth: map<nat, nat>, skip: set<nat>, started: seq<nat>, d: nat, some: seq<nat>) {
    forall x :: x in started <==> x in depth && x !in skip && (depth[x] < d || (depth[x] == d && x in some))
  }

  lemma StartKeepsOrder(depth: map<nat, nat>, started: seq<nat>, idx: nat)
    requires InOrder(depth, started) && idx in depth && idx !in started
    requires forall x :: x in started ==> x in depth && depth[x] <= depth[idx]
    ensures InOrder(depth, started + [idx])
    ensures forall x :: x in started + [idx] <==> x in started || x == idx
  {
  }

  /** The pass over one level: the nodes at depth d, in table order, except those to skip. */
  method StartLevel(depth: map<nat, nat>, keys: seq<nat>, skip: set<nat>, d: nat, started0: seq<nat>)
    returns (started: seq<nat>)
    requires Ordered(depth, keys) && StartedUpTo(depth, skip, started0, d, []) && InOrder(depth, started0)
    ensures StartedUpTo(depth, skip, started, d, keys) && InOrder(depth, started)
  {
    started := started0;
    for k := 0 to |keys|
      invariant StartedUpTo(depth, skip, started, d, keys[..k]) && InOrder(depth, started)
    {
      var idx := keys[k];
      assert keys[..k + 1] == keys[..k] + [idx];
      if depth[idx] == d && idx !in skip {
        assert idx !in keys[..k];
        StartKeepsOrder(depth, started, idx);
        started := started + [idx];
      }
    }
    assert keys[..|keys|] == keys;
  }

  /** Starts every reachable node outside `skip` exactly once, nearer nodes first. */
  method StartRpld(adj: map<nat, seq<nat>>, skip: set<nat>) returns (depth: map<nat, nat>, started: seq<nat>)
    requires Closed(adj)
    ensures Exact(adj, depth)
    ensures forall x :: x in started <==> x in depth && x !in skip
    ensures InOrder(depth, started)
  {
    var keys;
    depth, keys := Depths(adj);
    var maxDepth := MaxDepth(depth, keys);
    hide Exact;
    started := [];
    for d := 0 to maxDepth + 1
      invariant StartedUpTo(depth, skip, started, d, []) && InOrder(depth, started)
    {
      started := StartLevel(depth, keys, skip, d, started);
    }
  }
}
