/**
 Radio topologies: a finite directed graph as an adjacency map, the balls around a source,
 walks, and hop distance. The mesh harness and the rank theorems both measure distance here.
 */
module Graph {
  type Graph<V(==)> = map<V, set<V>>

  function Neighbours<V>(g: Graph<V>, v: V): set<V> {
    if v in g then g[v] else {}
  }

  /** Everything at most d hops away from s. */
  ghost function Ball<V(!new)>(g: Graph<V>, s: V, d: nat): set<V> {
    if d == 0 then {s}
    else Ball(g, s, d - 1) + set v, w | v in Ball(g, s, d - 1) && w in Neighbours(g, v) :: w
  }

  /** p is a non-empty walk that follows edges. */
  ghost predicate IsWalk<V>(g: Graph<V>, p: seq<V>) {
    |p| > 0 && forall i :: 0 <= i < |p| - 1 ==> p[i + 1] in Neighbours(g, p[i])
  }

  ghost predicate WalkBetween<V>(g: Graph<V>, s: V, x: V, p: seq<V>) {
    IsWalk(g, p) && p[0] == s && p[|p| - 1] == x
  }

  /** A walk from s that visits nothing twice. */
  ghost predicate SimplePath<V>(g: Graph<V>, s: V, p: seq<V>) {
    IsWalk(g, p) && p[0] == s && forall i, j :: 0 <= i < j < |p| ==> p[i] != p[j]
  }

  /** d is the hop count of a shortest walk from s to x. */
  ghost predicate Distance<V(!new)>(g: Graph<V>, s: V, x: V, d: nat) {
    && (exists p :: WalkBetween(g, s, x, p) && |p| == d + 1)
    && (forall p :: WalkBetween(g, s, x, p) ==> |p| >= d + 1)
  }

  lemma {:induction false} BallGrows<V(!new)>(g: Graph<V>, s: V, d: nat, e: nat)
    requires d <= e
    ensures Ball(g, s, d) <= Ball(g, s, e)
    decreases e
  {
    if d < e {
      BallGrows(g, s, d, e - 1);
    }
  }

  lemma BallZero<V(!new)>(g: Graph<V>, s: V)
    ensures Ball(g, s, 0) == {s}
  {
  }

  lemma BallStep<V(!new)>(g: Graph<V>, s: V, d: nat, v: V, w: V)
    requires v in Ball(g, s, d) && w in Neighbours(g, v)
    ensures w in Ball(g, s, d + 1)
  {
  }

  lemma BallOrigin<V(!new)>(g: Graph<V>, s: V, d: nat, x: V) returns (v: V)
    requires d > 0 && x in Ball(g, s, d)
    ensures v in Ball(g, s, d - 1) && (x == v || x in Neighbours(g, v))
  {
    if x in Ball(g, s, d - 1) {
      v := x;
    } else {
      v :| v in Ball(g, s, d - 1) && x in Neighbours(g, v);
    }
  }

  lemma {:induction false} WalkStaysInBall<V(!new)>(g: Graph<V>, s: V, x: V, p: seq<V>)
    requires WalkBetween(g, s, x, p)
    ensures x in Ball(g, s, |p| - 1)
    decreases |p|
  {
    if |p| > 1 {
      var q := p[..|p| - 1];
      WalkStaysInBall(g, s, q[|q| - 1], q);
      assert p[|p| - 2 + 1] in Neighbours(g, p[|p| - 2]);
    }
  }

  lemma {:induction false} BallHasWalk<V(!new)>(g: Graph<V>, s: V, x: V, d: nat) returns (p: seq<V>)
    requires x in Ball(g, s, d)
    ensures WalkBetween(g, s, x, p) && |p| <= d + 1
  {
    if d == 0 {
      p := [s];
    } else if x in Ball(g, s, d - 1) {
      p := BallHasWalk(g, s, x, d - 1);
    } else {
      var v :| v in Ball(g, s, d - 1) && x in Neighbours(g, v);
      var q := BallHasWalk(g, s, v, d - 1);
      p := q + [x];
    }
  }

  /** Balls and walks agree: being in ball d but in no smaller one is being at distance d. */
  lemma DistanceIsFirstBall<V(!new)>(g: Graph<V>, s: V, x: V, d: nat)
    ensures Distance(g, s, x, d) <==> FirstBall(g, s, x, d)
  {
    if Distance(g, s, x, d) {
      var p :| WalkBetween(g, s, x, p) && |p| == d + 1;
      WalkStaysInBall(g, s, x, p);
      forall e: nat | e < d && x in Ball(g, s, e)
        ensures false
      {
        var q := BallHasWalk(g, s, x, e);
      }
    }
    if FirstBall(g, s, x, d) {
      FirstBallIsDistance(g, s, x, d);
    }
  }

  ghost predicate FirstBall<V(!new)>(g: Graph<V>, s: V, x: V, d: nat) {
    x in Ball(g, s, d) && forall e: nat :: e < d ==> x !in Ball(g, s, e)
  }

  lemma FirstBallIsDistance<V(!new)>(g: Graph<V>, s: V, x: V, d: nat)
    requires FirstBall(g, s, x, d)
    ensures Distance(g, s, x, d)
  {
    forall p | WalkBetween(g, s, x, p)
      ensures |p| >= d + 1
    {
      WalkStaysInBall(g, s, x, p);
    }
    var p := BallHasWalk(g, s, x, d);
    assert |p| >= d + 1;
  }

  lemma DistanceIsUnique<V(!new)>(g: Graph<V>, s: V, x: V, d: nat, e: nat)
    requires Distance(g, s, x, d) && Distance(g, s, x, e)
    ensures d == e
  {
    var p :| WalkBetween(g, s, x, p) && |p| == d + 1;
    var q :| WalkBetween(g, s, x, q) && |q| == e + 1;
  }
}
