/** From dag_build_dao through the bytes to process_dao: what one node's DAO tells another. */
module DaoExchange {
  import opened Wrappers
  import opened Rpl
  import opened DaoOptions
  import DS = DagState

  /** The option bytes of a DAO that a node in state d builds. */
  ghost function DaoBody(d: DS.State): seq<byte> {
    PrintAll(DS.DaoOptionsOf(d))
  }

  /** What the receiver's option walk makes of the bytes of a DAO. */
  ghost function ReadBack(body: seq<byte>): Parsed {
    Walk(Received(body), 0, |body|, NOTHING)
  }

  /** The addresses a node announces: itself, then its children if it aggregates. */
  ghost function Announced(d: DS.State): seq<Addr> {
    [d.self] + if DS.Aggregates(d) then seq(|d.childs|, i requires 0 <= i < |d.childs| => d.childs[i].addr) else []
  }

  lemma {:induction false} ConcatMeaning(a: seq<Opt>, b: seq<Opt>, otherwise: Option<Addr>)
    ensures Targets(a + b) == Targets(a) + Targets(b)
    ensures LastTransit(a + b, otherwise) == LastTransit(b, LastTransit(a, otherwise))
    decreases |a|
  {
    if a == [] {
      assert a + b == b;
    } else {
      assert (a + b)[1..] == a[1..] + b;
      ConcatMeaning(a[1..], b, if a[0].Transit? then Some(a[0].parent) else otherwise);
    }
  }

  lemma {:induction false} ChildTargetsMeaning(childs: seq<Child>, otherwise: Option<Addr>)
    ensures AllWellFormed(DS.ChildTargets(childs))
    ensures Targets(DS.ChildTargets(childs)) == seq(|childs|, i requires 0 <= i < |childs| => childs[i].addr)
    ensures LastTransit(DS.ChildTargets(childs), otherwise) == otherwise
    decreases |childs|
  {
    if childs != [] {
      assert DS.ChildTargets(childs)[1..] == DS.ChildTargets(childs[1..]);
      ChildTargetsMeaning(childs[1..], otherwise);
    }
  }

  /** One target and the transit behind it. */
  function Group(target: Addr, transit: Addr): seq<Opt> {
    [DS.TargetOf(target), Transit(0, 0, 0, 0, transit)]
  }

  lemma GroupMeaning(target: Addr, transit: Addr, otherwise: Option<Addr>)
    ensures Targets(Group(target, transit)) == [target]
    ensures LastTransit(Group(target, transit), otherwise) == Some(transit)
  {
    var t, x := DS.TargetOf(target), Transit(0, 0, 0, 0, transit);
    assert [t, x][1..] == [x] && [x][1..] == [];
    assert Targets([x]) == [] && LastTransit([x], otherwise) == Some(x.parent);
  }

  /**
   A DAO built by any node with a parent is read back in full wherever in memory it lies and
   whatever lies behind it: the node itself and, if it aggregates, all its children in order, with
   the node's parent as transit, although the printed transit option precedes the aggregated targets.
   */
  lemma BuiltDaoReadsBackAt(mem: Memory, p: nat, d: DS.State)
    requires d.parent.Some? && Holds(mem, p, DaoBody(d))
    ensures Walk(mem, p, |DaoBody(d)|, NOTHING) == Parsed(Announced(d), Some(d.parent.value.addr), true)
  {
    var head := Group(d.self, d.parent.value.addr);
    var tail := if DS.Aggregates(d) then DS.ChildTargets(d.childs) else [];
    assert DS.DaoOptionsOf(d) == head + tail;
    GroupMeaning(d.self, d.parent.value.addr, None);
    ChildTargetsMeaning(d.childs, Some(d.parent.value.addr));
    ConcatMeaning(head, tail, None);
    DaoRoundTrip(mem, p, head + tail);
  }

  lemma BuiltDaoReadsBack(d: DS.State)
    requires d.parent.Some?
    ensures ReadBack(DaoBody(d)) == Parsed(Announced(d), Some(d.parent.value.addr), true)
  {
    BuiltDaoReadsBackAt(Received(DaoBody(d)), 0, d);
  }

  /** The source-route tree of the receiver learns the first sixteen of them, no more. */
  lemma TreeLearnsAtMostSixteen(d: DS.State, root: DS.State)
    requires d.parent.Some? && DS.BuildsTree(root)
    ensures DS.ReceiveDao(root, ReadBack(DaoBody(d)), d.self).inserts ==
            root.inserts + seq(if |Announced(d)| <= 16 then |Announced(d)| else 16,
            i requires 0 <= i < |Announced(d)| =>
              Insert(d.parent.value.addr, d.self, Announced(d)[i]))
  {
    BuiltDaoReadsBack(d);
  }

  /** The receiver's tree hears of x in the DAO that d builds. */
  ghost predicate Learns(d: DS.State, x: Addr) {
    Insert(if d.parent.Some? then d.parent.value.addr else x, d.self, x)
    in DS.TreeInserts(ReadBack(DaoBody(d)), d.self)
  }

  /**
   The promise that the root processes all targets of a DAO is kept exactly if whatever comes after
   the sixteenth has been announced before; without repetition, if no more than sixteen are announced.
   */
  lemma TreeLearnsAllIff(d: DS.State)
    requires d.parent.Some?
    ensures (forall x :: x in Announced(d) ==> Learns(d, x)) <==>
            (forall i :: 16 <= i < |Announced(d)| ==> Announced(d)[i] in Announced(d)[..16])
    ensures AllDistinct(Announced(d)) ==>
              ((forall x :: x in Announced(d) ==> Learns(d, x)) <==> |Announced(d)| <= 16)
  {
    BuiltDaoReadsBack(d);
    var a, p := Announced(d), ReadBack(DaoBody(d));
    hide ReadBack, DaoBody, Announced;
    forall x
      ensures Learns(d, x) <==> x in p.Kept()
    {
      EnteredIffKept(p, d.parent.value.addr, d.self, x);
    }
    KeptIsAllIff(p);
  }

  lemma KeptIsAllIff(p: Parsed)
    ensures (forall x :: x in p.seen ==> x in p.Kept()) <==>
            (forall i :: 16 <= i < |p.seen| ==> p.seen[i] in p.seen[..16])
    ensures AllDistinct(p.seen) ==> ((forall x :: x in p.seen ==> x in p.Kept()) <==> |p.seen| <= 16)
  {
    var a := p.seen;
    if |a| > 16 {
      assert a == a[..16] + a[16..];
      assert forall i :: 16 <= i < |a| ==> a[i] in a && a[16..][i - 16] == a[i];
      assert AllDistinct(a) ==> a[16] !in a[..16];
    }
  }

  ghost predicate AllDistinct(a: seq<Addr>) {
    forall i, j :: 0 <= i < j < |a| ==> a[i] != a[j]
  }

  lemma EnteredIffKept(p: Parsed, transit: Addr, from: Addr, x: Addr)
    requires p.transit == Some(transit)
    ensures Insert(transit, from, x) in DS.TreeInserts(p, from) <==> x in p.Kept()
  {
    var ins := DS.TreeInserts(p, from);
    assert forall i :: 0 <= i < |ins| ==> ins[i] == Insert(transit, from, p.Kept()[i]);
    if x in p.Kept() {
      var i :| 0 <= i < |p.Kept()| && p.Kept()[i] == x;
      assert ins[i] == Insert(transit, from, x);
    }
  }

  // ---- which transit a target is entered under ----

  ghost function FirstTransit(opts: seq<Opt>): Option<Addr> {
    if opts == [] then None
    else if opts[0].Transit? then Some(opts[0].parent)
    else FirstTransit(opts[1..])
  }

  /** The transit options that the targets are meant to be entered under: for each, the first one behind it. */
  ghost function Following(opts: seq<Opt>): seq<Option<Addr>> {
    if opts == [] then []
    else (if opts[0].Target? then [FirstTransit(opts[1..])] else []) + Following(opts[1..])
  }

  lemma {:induction false} OnePerTarget(opts: seq<Opt>)
    ensures |Following(opts)| == |Targets(opts)|
    decreases |opts|
  {
    if opts != [] {
      OnePerTarget(opts[1..]);
    }
  }

  /** The entries are the first sixteen targets, each under the transit that follows it. */
  ghost predicate AsPromised(targets: seq<Addr>, following: seq<Option<Addr>>, from: Addr, entered: seq<Insert>) {
    var n := if |targets| <= 16 then |targets| else 16;
    && |following| == |targets| && |entered| == n
    && forall i :: 0 <= i < n ==> entered[i].sender == from && entered[i].target == targets[i]
                                  && Some(entered[i].transit) == following[i]
  }

  /** All the transits that count exist and are the last one. */
  ghost predicate OneParentThroughout(following: seq<Option<Addr>>, last: Option<Addr>) {
    forall i :: 0 <= i < |following| && i < 16 ==> following[i].Some? && following[i] == last
  }

  lemma EnteredAsPromisedIff(p: Parsed, following: seq<Option<Addr>>, from: Addr)
    requires |following| == |p.seen|
    ensures AsPromised(p.seen, following, from, DS.TreeInserts(p, from)) <==> OneParentThroughout(following, p.transit)
  {
    var entered := DS.TreeInserts(p, from);
    assert p.transit.Some? ==> forall i :: 0 <= i < |entered| ==> entered[i] == Insert(p.transit.value, from, p.seen[i]);
    if p.seen != [] && p.transit.None? {
      assert following[0] == None || following[0] != p.transit;
    }
  }

  lemma InsertsAppend(root: DS.State, p: Parsed, from: Addr)
    requires DS.BuildsTree(root) && p.complete
    ensures DS.ReceiveDao(root, p, from).inserts == root.inserts + DS.TreeInserts(p, from)
  {
    hide DS.RecordAll, DS.TreeInserts;
  }

  /**
   For every option list, wherever in memory: each of the first sixteen targets is entered under the
   transit that follows it exactly if all these transits exist and name the parent that the last
   transit option of the whole list names.
   */
  lemma EnteredUnderNextTransitIff(mem: Memory, p: nat, opts: seq<Opt>, root: DS.State, from: Addr)
    requires AllWellFormed(opts) && Holds(mem, p, PrintAll(opts)) && DS.BuildsTree(root)
    ensures var inserts := DS.ReceiveDao(root, Walk(mem, p, |PrintAll(opts)|, NOTHING), from).inserts;
            && root.inserts <= inserts
            && (AsPromised(Targets(opts), Following(opts), from, inserts[|root.inserts|..]) <==>
                OneParentThroughout(Following(opts), LastTransit(opts, None)))
  {
    DaoRoundTrip(mem, p, opts);
    OnePerTarget(opts);
    var found := Parsed(Targets(opts), LastTransit(opts, None), true);
    hide *;
    InsertsAppend(root, found, from);
    EnteredAsPromisedIff(found, Following(opts), from);
  }

  lemma {:induction false} NoTransitFollows(childs: seq<Child>)
    ensures FirstTransit(DS.ChildTargets(childs)) == None
    ensures Following(DS.ChildTargets(childs)) == seq(|childs|, i => None)
    decreases |childs|
  {
    if childs != [] {
      assert DS.ChildTargets(childs)[1..] == DS.ChildTargets(childs[1..]);
      NoTransitFollows(childs[1..]);
    }
  }

  /** In the DAO that a node builds the transit option follows its own target only. */
  lemma BuiltDaoFollowing(d: DS.State)
    requires d.parent.Some?
    ensures AllWellFormed(DS.DaoOptionsOf(d))
    ensures LastTransit(DS.DaoOptionsOf(d), None) == Some(d.parent.value.addr)
    ensures Following(DS.DaoOptionsOf(d)) ==
            [Some(d.parent.value.addr)] + seq(if DS.Aggregates(d) then |d.childs| else 0, i => None)
  {
    var head := Group(d.self, d.parent.value.addr);
    var tail := if DS.Aggregates(d) then DS.ChildTargets(d.childs) else [];
    var opts := head + tail;
    assert DS.DaoOptionsOf(d) == opts;
    GroupMeaning(d.self, d.parent.value.addr, None);
    ChildTargetsMeaning(d.childs, Some(d.parent.value.addr));
    ConcatMeaning(head, tail, None);
    NoTransitFollows(if DS.Aggregates(d) then d.childs else []);
    assert DS.ChildTargets([]) == [];
    assert opts[1..][1..] == tail;
  }

  /** So what a node announces is entered as promised exactly if it announces nobody but itself. */
  lemma BuiltDaoEnteredIff(d: DS.State, root: DS.State)
    requires d.parent.Some? && DS.BuildsTree(root)
    ensures var inserts := DS.ReceiveDao(root, ReadBack(DaoBody(d)), d.self).inserts;
            && root.inserts <= inserts
            && (AsPromised(Announced(d), Following(DS.DaoOptionsOf(d)), d.self, inserts[|root.inserts|..]) <==>
                !DS.Aggregates(d) || d.childs == [])
  {
    var opts := DS.DaoOptionsOf(d);
    BuiltDaoFollowing(d);
    BuiltDaoReadsBack(d);
    DaoRoundTrip(Received(DaoBody(d)), 0, opts);
    hide Walk, DS.ReceiveDao, DS.DaoOptionsOf, Following, PrintAll, Targets, LastTransit, AsPromised;
    EnteredUnderNextTransitIff(Received(DaoBody(d)), 0, opts, root, d.self);
    assert DS.Aggregates(d) && d.childs != [] ==> Following(opts)[1].None?;
  }

  /**
   The smallest list that breaks the promise: with two groups of target and transit, the first
   target is entered under the second group's parent, not under the transit that follows it.
   */
  lemma LastTransitServesAll(t1: Addr, x1: Addr, t2: Addr, x2: Addr, from: Addr)
    ensures var opts := Group(t1, x1) + Group(t2, x2);
            DS.TreeInserts(Parsed(Targets(opts), LastTransit(opts, None), true), from) ==
            [Insert(x2, from, t1), Insert(x2, from, t2)]
  {
    GroupMeaning(t1, x1, None);
    GroupMeaning(t2, x2, Some(x1));
    ConcatMeaning(Group(t1, x1), Group(t2, x2), None);
  }
}
