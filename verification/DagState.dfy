/**
 What one received DIO or DAO, or one liveness check, does to the state a node keeps for one
 DODAG (process.c, parent_check_cb of rpld_new.c, the dag_build_dao switch of dag.c.patch).
 The classes in Dag.dfy are proved against these functions; the network is built from them.
 */
module DagState {
  import opened Wrappers
  import opened Rpl
  import opened DaoOptions
  import opened Messages

  const PARENT_TIMEOUT_FACTOR := 8.0

  datatype State = State(
    self: Addr, mop: nat, cls: Class,
    myRank: u16, parent: Option<Peer>, defaultRoute: Option<Addr>,
    childs: seq<Child>, routes: map<Addr, Addr>, inserts: seq<Insert>,
    lastSeen: real, trickle: real)

  // ---- receiving a DIO ----

  /** dag_create for a node that hears of the DODAG: no rank yet, the class of the interface. */
  function Created(self: Addr, cls: Class, mop: nat, now: real, trickle: real): State {
    State(self, mop, cls, INFINITE_RANK, None, None, [], map[], [], now, trickle)
  }

  /** The peer a DIO from `from` is judged against: a fresh one, the present one, or an adopted one. */
  function PeerFor(d: State, from: Addr): Peer {
    if d.parent.None? then Peer(from, INFINITE_RANK)
    else if d.parent.value.addr != from && d.parent.value.rank == INFINITE_RANK then Peer(from, INFINITE_RANK)
    else d.parent.value
  }

  function NextRank(rank: u16): u16 {
    (rank + 1) % 0x1_0000
  }

  /** Parent bookkeeping, before the rank is looked at. */
  function Track(d: State, from: Addr, now: real): State {
    var peer := PeerFor(d, from);
    d.(parent := Some(peer), lastSeen := if peer.addr == from then now else d.lastSeen)
  }

  function ReceiveDio(d: State, from: Addr, rank: u16, now: real): State {
    if d.myRank == ROOT_RANK then d
    else
      var t := Track(d, from, now);
      if rank > t.parent.value.rank then t
      else t.(parent := Some(t.parent.value.(rank := rank)), myRank := NextRank(rank),
           defaultRoute := Some(t.parent.value.addr))
  }

  /** The rank test passes, so routes are refreshed and DAOs go out. */
  predicate Accepts(d: State, from: Addr, rank: u16) {
    d.myRank != ROOT_RANK && rank <= PeerFor(d, from).rank
  }

  /** A node with a live parent keeps its address and takes the lower of the two ranks, from whomever it comes. */
  lemma LiveParentKeeps(d: State, from: Addr, rank: u16, now: real)
    requires d.myRank != ROOT_RANK && d.parent.Some? && d.parent.value.rank != INFINITE_RANK
    ensures var p := d.parent.value;
            ReceiveDio(d, from, rank, now) ==
            if rank <= p.rank
            then d.(parent := Some(p.(rank := rank)), myRank := NextRank(rank), defaultRoute := Some(p.addr),
                    lastSeen := if p.addr == from then now else d.lastSeen)
            else d.(lastSeen := if p.addr == from then now else d.lastSeen)
  {
  }

  /** A node without a parent, or with a given-up one, follows the sender whatever its rank. */
  lemma NoParentAdopts(d: State, from: Addr, rank: u16, now: real)
    requires d.myRank != ROOT_RANK && (d.parent.Some? ==> d.parent.value.rank == INFINITE_RANK)
    ensures ReceiveDio(d, from, rank, now) ==
            d.(parent := Some(Peer(from, rank)), myRank := NextRank(rank), defaultRoute := Some(from), lastSeen := now)
  {
  }

  /** Where the DAOs of an accepted DIO go; d is the state after the update. */
  function DaoDestinations(d: State, dodagid: Addr): seq<Addr>
    requires d.parent.Some?
  {
    if d.mop == MOP_STORING || d.mop == MOP_STORING_MULTICAST then [d.parent.value.addr]
    else if d.mop == MOP_NONSTORING then [dodagid]
    else if d.mop == MOP_HYBRID then
      [d.parent.value.addr] + if d.parent.value.rank > 1 then [dodagid] else []
    else []
  }

  function SentOnDio(d: State, from: Addr, rank: u16, now: real, dodagid: Addr): seq<Addr> {
    if Accepts(d, from, rank) then DaoDestinations(ReceiveDio(d, from, rank, now), dodagid) else []
  }

  /**
   An accepted DIO is answered, in MOP 2 and 3 with a DAO to the parent, in MOP 1 with one to the root, in
   MOP 6 with one to the parent and, if the DIO's rank exceeds 1, another to the root. Accepted is what
   reaches a node that is not of rank 1 and knows of no better rank, or of no live parent.
   */
  lemma Answers(d: State, from: Addr, rank: u16, now: real, dodagid: Addr)
    requires d.parent.Some? ==> d.myRank != 1
    requires d.parent.None? ==> d.myRank == 0xFFFF
    ensures var p := ReceiveDio(d, from, rank, now).parent;
            && p.Some?
            && SentOnDio(d, from, rank, now, dodagid) ==
               if d.parent.Some? && rank > d.parent.value.rank then []
               else if d.mop == 2 || d.mop == 3 then [p.value.addr]
               else if d.mop == 1 then [dodagid]
               else if d.mop == 6 then (if rank > 1 then [p.value.addr, dodagid] else [p.value.addr])
               else []
  {
  }

  // ---- receiving a DAO ----

  predicate HasChild(childs: seq<Child>, addr: Addr) {
    exists i :: 0 <= i < |childs| && childs[i].addr == addr
  }

  /** dag_lookup_child_or_create: an address already listed keeps its entry. */
  function AddChild(childs: seq<Child>, addr: Addr, from: Addr): seq<Child> {
    if HasChild(childs, addr) then childs else childs + [Child(addr, from)]
  }

  function RecordAll(childs: seq<Child>, targets: seq<Addr>, from: Addr): seq<Child> {
    if targets == [] then childs
    else AddChild(RecordAll(childs, targets[..|targets| - 1], from), targets[|targets| - 1], from)
  }

  lemma RecordNone(childs: seq<Child>, from: Addr)
    ensures RecordAll(childs, [], from) == childs
  {
  }

  lemma RecordOneMore(childs: seq<Child>, targets: seq<Addr>, target: Addr, from: Addr)
    ensures RecordAll(childs, targets + [target], from) == AddChild(RecordAll(childs, targets, from), target, from)
  {
    assert (targets + [target])[..|targets|] == targets;
  }

  function InstallAll(routes: map<Addr, Addr>, childs: seq<Child>): map<Addr, Addr> {
    if childs == [] then routes
    else InstallAll(routes, childs[..|childs| - 1])[childs[|childs| - 1].addr := childs[|childs| - 1].from]
  }

  /** The node turns its child list into kernel routes. */
  predicate Installs(d: State) {
    || d.mop == MOP_STORING || d.mop == MOP_STORING_MULTICAST
    || (d.mop == MOP_HYBRID && d.myRank != ROOT_RANK && d.cls == ClassS)
  }

  /** The node feeds the source-route tree. */
  predicate BuildsTree(d: State) {
    d.mop == MOP_NONSTORING || (d.mop == MOP_HYBRID && d.myRank == ROOT_RANK)
  }

  function TreeInserts(p: Parsed, from: Addr): seq<Insert> {
    if p.transit.None? then []
    else seq(|p.Kept()|, i requires 0 <= i < |p.Kept()| => Insert(p.transit.value, from, p.Kept()[i]))
  }

  /** process_dao once the option walk has gathered p. */
  function ReceiveDao(d: State, p: Parsed, from: Addr): State {
    var d' := d.(childs := RecordAll(d.childs, p.seen, from));
    if !p.complete then d'
    else if Installs(d') then d'.(routes := InstallAll(d'.routes, d'.childs))
    else if BuildsTree(d') then d'.(inserts := d'.inserts + TreeInserts(p, from))
    else d'
  }

  /** Of a DAO whose options do not parse to the end nothing but the children is kept. */
  lemma MalformedIsOnlyRecorded(d: State, p: Parsed, from: Addr)
    requires !p.complete
    ensures ReceiveDao(d, p, from) == d.(childs := RecordAll(d.childs, p.seen, from))
  {
  }

  // ---- building a DAO ----

  /** Class S nodes, and every node of a storing DODAG, announce their children too. */
  predicate Aggregates(d: State) {
    d.mop == MOP_STORING || d.mop == MOP_STORING_MULTICAST || (d.mop == MOP_HYBRID && d.cls == ClassS)
  }

  function TargetOf(addr: Addr): Opt { Target(0, 128, addr) }

  function ChildTargets(childs: seq<Child>): (r: seq<Opt>) {
    seq(|childs|, i requires 0 <= i < |childs| => TargetOf(childs[i].addr))
  }

  /** The own target and the transit information come first, then the aggregated children. */
  function DaoOptionsOf(d: State): seq<Opt> {
    [TargetOf(d.self)]
    + (if d.parent.Some? then [Transit(0, 0, 0, 0, d.parent.value.addr)] else [])
    + (if Aggregates(d) then ChildTargets(d.childs) else [])
  }

  function ChildAddrs(childs: seq<Child>): seq<Addr> {
    seq(|childs|, i requires 0 <= i < |childs| => childs[i].addr)
  }

  /** The addresses a DAO of this node carries beside its own: all children in MOP 2 and 3, and in MOP 6 of a class S node. */
  function Others(d: State): seq<Addr> {
    if d.mop == 2 || d.mop == 3 || (d.mop == 6 && d.cls == ClassS) then ChildAddrs(d.childs) else []
  }

  lemma {:induction false} ChildTargetsAreBytes(childs: seq<Child>)
    ensures AllWellFormed(ChildTargets(childs)) && PrintAll(ChildTargets(childs)) == TargetsBytes(ChildAddrs(childs))
    decreases |childs|
  {
    if childs != [] {
      assert ChildTargets(childs)[1..] == ChildTargets(childs[1..]) && ChildAddrs(childs)[1..] == ChildAddrs(childs[1..]);
      ChildTargetsAreBytes(childs[1..]);
      assert TargetOf(childs[0].addr).Print() == TargetBytes(childs[0].addr);
    }
  }

  /** What is printed, byte by byte. */
  lemma OptionsAreBytes(d: State)
    ensures AllWellFormed(DaoOptionsOf(d))
    ensures PrintAll(DaoOptionsOf(d)) == DaoBytes(d.self, if d.parent.Some? then Some(d.parent.value.addr) else None, Others(d))
  {
    var own := [TargetOf(d.self)];
    var transit := if d.parent.Some? then [Transit(0, 0, 0, 0, d.parent.value.addr)] else [];
    var others := if Aggregates(d) then ChildTargets(d.childs) else [];
    PrintOneMore([], TargetOf(d.self));
    assert [] + own == own && PrintAll(own) == TargetBytes(d.self);
    if d.parent.Some? {
      PrintOneMore([], transit[0]);
      assert [] + transit == transit && PrintAll(transit) == TransitBytes(d.parent.value.addr);
    }
    ChildTargetsAreBytes(d.childs);
    hide PrintAll, Opt.Print, ChildTargets, TargetsBytes;
    PrintAppend(own, transit);
    PrintAppend(own + transit, others);
    PrintOneMore([], TargetOf(d.self));
    assert TargetsBytes([]) == [] by {
      NoTargets();
    }
  }

  lemma NoTargets()
    ensures TargetsBytes([]) == []
  {
  }

  // ---- the liveness timer ----

  predicate TimedOut(d: State, now: real) {
    && d.myRank != ROOT_RANK && d.parent.Some? && d.parent.value.rank != INFINITE_RANK
    && now - d.lastSeen >= PARENT_TIMEOUT_FACTOR * d.trickle
  }

  function CheckParent(d: State, now: real): State {
    if TimedOut(d, now)
    then d.(parent := Some(d.parent.value.(rank := INFINITE_RANK)), myRank := INFINITE_RANK)
    else d
  }

  /** Eight intervals of silence cost a node other than the root its parent's rank and its own, and nothing else. */
  lemma CheckMeaning(d: State, now: real)
    ensures var live := d.parent.Some? && d.parent.value.rank != 0xFFFF;
            if d.myRank != 1 && live && now - d.lastSeen >= 8.0 * d.trickle
            then CheckParent(d, now) == d.(parent := Some(Peer(d.parent.value.addr, 0xFFFF)), myRank := 0xFFFF)
            else CheckParent(d, now) == d
  {
  }

  // ---- what recording and installing mean ----

  ghost function Addresses(childs: seq<Child>): set<Addr> {
    set c | c in childs :: c.addr
  }

  ghost predicate DistinctChildren(childs: seq<Child>) {
    forall i, j :: 0 <= i < j < |childs| ==> childs[i].addr != childs[j].addr
  }

  /** Listed children keep their entry; every new target enters with the DAO's sender as `from`. */
  lemma {:induction false} RecordAllMeaning(childs: seq<Child>, targets: seq<Addr>, from: Addr)
    ensures forall c :: c in RecordAll(childs, targets, from) <==>
                        c in childs || (c.from == from && c.addr in targets && !HasChild(childs, c.addr))
    ensures DistinctChildren(childs) ==> DistinctChildren(RecordAll(childs, targets, from))
    decreases |targets|
  {
    if targets != [] {
      var init, last := targets[..|targets| - 1], targets[|targets| - 1];
      RecordAllMeaning(childs, init, from);
      assert targets == init + [last];
      assert Child(last, from) in RecordAll(childs, targets, from) || HasChild(RecordAll(childs, init, from), last);
    }
  }

  /** The list grows at its end: what was there stays in front, and new targets follow in the DAO's order. */
  lemma {:induction false} NewTargetsAreAppended(childs: seq<Child>, targets: seq<Addr>, from: Addr)
    ensures childs <= RecordAll(childs, targets, from)
    ensures (forall i, j :: 0 <= i < j < |targets| ==> targets[i] != targets[j])
            && (forall i :: 0 <= i < |targets| ==> !HasChild(childs, targets[i])) ==>
              RecordAll(childs, targets, from) == childs + seq(|targets|, i requires 0 <= i < |targets| => Child(targets[i], from))
    decreases |targets|
  {
    if targets != [] {
      var init, last := targets[..|targets| - 1], targets[|targets| - 1];
      NewTargetsAreAppended(childs, init, from);
      if (forall i, j :: 0 <= i < j < |targets| ==> targets[i] != targets[j])
         && (forall i :: 0 <= i < |targets| ==> !HasChild(childs, targets[i])) {
        var before := RecordAll(childs, init, from);
        assert forall i :: |childs| <= i < |before| ==> before[i].addr == targets[i - |childs|];
        assert targets[|targets| - 1] == last;
        assert forall i :: 0 <= i < |childs| ==> before[i] == childs[i];
        assert !HasChild(before, last);
      }
    }
  }

  /** After installing, every child is routed via the neighbour it was learnt from, and nothing else changed. */
  lemma {:induction false} InstallAllMeaning(routes: map<Addr, Addr>, childs: seq<Child>)
    requires DistinctChildren(childs)
    ensures InstallAll(routes, childs).Keys == routes.Keys + Addresses(childs)
    ensures forall c :: c in childs ==> InstallAll(routes, childs)[c.addr] == c.from
    ensures forall x :: x in routes && x !in Addresses(childs) ==> InstallAll(routes, childs)[x] == routes[x]
    decreases |childs|
  {
    if childs != [] {
      var init, last := childs[..|childs| - 1], childs[|childs| - 1];
      assert childs == init + [last];
      assert forall c :: c in childs <==> c in init || c == last;
      InstallAllMeaning(routes, init);
    }
  }
}
