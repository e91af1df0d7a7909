/**
 struct dag and struct iface as mutable objects: the handlers of process.c and the liveness
 timer of rpld_new.c, statement by statement, proved against DagState.
 */
module Dag {
  import opened Wrappers
  import opened Rpl
  import opened DaoOptions
  import opened Messages
  import DS = DagState

  const DIO_HEADER := 24
  const DAO_HEADER := 20

  class Dag {
    const self: Addr
    const mop: nat
    const trickle: real
    var nodeClass: Class
    var myRank: u16
    var parent: Option<Peer>
    var defaultRoute: Option<Addr>
    var childs: seq<Child>
    var routes: map<Addr, Addr>
    var inserts: seq<Insert>
    var parentLastSeen: real

    function Abs(): DS.State
      reads this
    {
      DS.State(self, mop, nodeClass, myRank, parent, defaultRoute, childs, routes, inserts, parentLastSeen, trickle)
    }

    constructor (self: Addr, mop: nat, cls: Class, now: real, trickle: real)
      ensures Abs() == DS.Created(self, cls, mop, now, trickle)
    {
      this.self, this.mop, this.trickle := self, mop, trickle;
      nodeClass, myRank, parent, defaultRoute := cls, INFINITE_RANK, None, None;
      childs, routes, inserts, parentLastSeen := [], map[], [], now;
    }

    /** The second half of process_dio, once the DAG is known. */
    method ReceiveDio(from: Addr, rank: u16, now: real, dodagid: Addr) returns (sent: seq<Addr>)
      modifies this
      ensures Abs() == DS.ReceiveDio(old(Abs()), from, rank, now)
      ensures sent == DS.SentOnDio(old(Abs()), from, rank, now, dodagid)
    {
      sent := [];
      if myRank == ROOT_RANK {
        return;
      }
      if parent.None? {
        parent := Some(Peer(from, INFINITE_RANK));
      }
      if parent.value.addr == from {
        parentLastSeen := now;
      } else if parent.value.rank == INFINITE_RANK {
        parent := Some(Peer(from, INFINITE_RANK));
        parentLastSeen := now;
      }
      if rank > parent.value.rank {
        return;
      }
      defaultRoute := Some(parent.value.addr);
      parent := Some(parent.value.(rank := rank));
      myRank := (rank + 1) % 0x1_0000;
      if mop == MOP_STORING || mop == MOP_STORING_MULTICAST {
        sent := [parent.value.addr];
      } else if mop == MOP_NONSTORING {
        sent := [dodagid];
      } else if mop == MOP_HYBRID {
        sent := [parent.value.addr];
        if parent.value.rank > 1 {
          sent := sent + [dodagid];
        }
      }
    }

    method RecordTarget(addr: Addr, from: Addr)
      modifies this`childs
      ensures childs == DS.AddChild(old(childs), addr, from)
    {
      for i := 0 to |childs|
        invariant forall j :: 0 <= j < i ==> childs[j].addr != addr
      {
        if childs[i].addr == addr {
          return;
        }
      }
      childs := childs + [Child(addr, from)];
    }

    method InstallChildRoutes()
      modifies this`routes
      ensures routes == DS.InstallAll(old(routes), childs)
    {
      for i := 0 to |childs|
        invariant routes == DS.InstallAll(old(routes), childs[..i])
      {
        routes := routes[childs[i].addr := childs[i].from];
        assert childs[..i + 1][..i] == childs[..i];
      }
      assert childs[..|childs|] == childs;
    }

    /** What the loop does with a Target option: a child entry, and a slot in the array while there is room. */
    method NoteTarget(target: Addr, from: Addr, targets: array<Addr>, count0: nat,
                      ghost childs0: seq<Child>, ghost acc: Parsed) returns (count: nat)
      requires targets.Length == MAX_DAO_TARGETS
      requires childs == DS.RecordAll(childs0, acc.seen, from)
      requires count0 <= MAX_DAO_TARGETS && targets[..count0] == acc.Kept()
      modifies this`childs, targets
      ensures childs == DS.RecordAll(childs0, acc.seen + [target], from)
      ensures count <= MAX_DAO_TARGETS && targets[..count] == acc.(seen := acc.seen + [target]).Kept()
    {
      DS.RecordOneMore(childs0, acc.seen, target, from);
      RecordTarget(target, from);
      count := count0;
      if count < MAX_DAO_TARGETS {
        targets[count] := target;
        count := count + 1;
      }
    }

    /** The option switch at offset p: the loop's variables stay those of what has been gathered. */
    method HandleOption(mem: Memory, p: nat, from: Addr, targets: array<Addr>, count0: nat, transit0: Option<Addr>,
                        ghost childs0: seq<Child>, ghost acc: Parsed) returns (count: nat, transit: Option<Addr>)
      requires targets.Length == MAX_DAO_TARGETS
      requires childs == DS.RecordAll(childs0, acc.seen, from)
      requires count0 <= MAX_DAO_TARGETS && targets[..count0] == acc.Kept() && transit0 == acc.transit
      modifies this`childs, targets
      ensures var next := Absorb(mem, p, acc);
              && childs == DS.RecordAll(childs0, next.seen, from)
              && count <= MAX_DAO_TARGETS && targets[..count] == next.Kept() && transit == next.transit
    {
      count, transit := count0, transit0;
      if mem(p) == OPT_TRANSIT {
        transit := Some(AddrAt(mem, p + 6));
      } else if mem(p) == OPT_TARGET {
        count := NoteTarget(AddrAt(mem, p + 4), from, targets, count, childs0, acc);
      }
    }

    /** The option loop of process_dao; `targets` holds the first sixteen targets afterwards. */
    method WalkOptions(mem: Memory, start: nat, len: nat, from: Addr, targets: array<Addr>)
      returns (count: nat, transit: Option<Addr>, complete: bool)
      requires targets.Length == MAX_DAO_TARGETS
      modifies this`childs, targets
      ensures var p := Walk(mem, start, len, NOTHING);
              && childs == DS.RecordAll(old(childs), p.seen, from)
              && transit == p.transit && complete == p.complete
              && count <= MAX_DAO_TARGETS && targets[..count] == p.Kept()
    {
      var p: nat, optlen: int := start, len;
      count, transit, complete := 0, None, true;
      ghost var acc := NOTHING;
      DS.RecordNone(childs, from);
      hide Walk, Absorb, DS.RecordAll, Parsed.Kept;
      assert targets[..0] == acc.Kept() by {
        NothingKept();
      }
      while optlen > 0
        invariant Walk(mem, p, optlen, acc) == Walk(mem, start, len, NOTHING)
        invariant childs == DS.RecordAll(old(childs), acc.seen, from)
        invariant count <= MAX_DAO_TARGETS && targets[..count] == acc.Kept()
        invariant transit == acc.transit && complete == acc.complete == true
        decreases optlen
      {
        WalkStep(mem, p, optlen, acc);
        if optlen < 2 {
          complete := false;
          KeptIgnoresEnd(acc);
          return;
        }
        count, transit := HandleOption(mem, p, from, targets, count, transit, old(childs), acc);
        AbsorbGoesOn(mem, p, acc);
        acc := Absorb(mem, p, acc);
        optlen := optlen - (2 + mem(p + 1));
        p := p + 2 + mem(p + 1);
      }
      WalkStep(mem, p, optlen, acc);
    }

    /** One t_insert for each kept target. */
    method InsertTargets(targets: array<Addr>, count: nat, transit: Option<Addr>, from: Addr, ghost p: Parsed)
      requires count <= targets.Length && targets[..count] == p.Kept() && transit == p.transit
      modifies this`inserts
      ensures inserts == old(inserts) + DS.TreeInserts(p, from)
    {
      if transit.Some? {
        for i := 0 to count
          invariant inserts == old(inserts) + DS.TreeInserts(p, from)[..i]
        {
          assert targets[i] == targets[..count][i];
          inserts := inserts + [Insert(transit.value, from, targets[i])];
        }
      }
    }

    /** process_dao once the DAG is known; an acknowledgement answers every DAO whose options parse. */
    method ReceiveDao(mem: Memory, len: nat, from: Addr) returns (acked: bool)
      modifies this
      ensures var p := Walk(mem, DAO_HEADER, len - DAO_HEADER, NOTHING);
              && Abs() == (if len < DAO_HEADER then old(Abs()) else DS.ReceiveDao(old(Abs()), p, from))
              && acked == (len >= DAO_HEADER && p.complete)
    {
      if len < DAO_HEADER {
        return false;
      }
      ghost var p := Walk(mem, DAO_HEADER, len - DAO_HEADER, NOTHING);
      var targets := new Addr[MAX_DAO_TARGETS];
      var count, transit, complete := WalkOptions(mem, DAO_HEADER, len - DAO_HEADER, from, targets);
      if !complete {
        return false;
      }
      if mop == MOP_STORING || mop == MOP_STORING_MULTICAST {
        InstallChildRoutes();
      } else if mop == MOP_NONSTORING {
        InsertTargets(targets, count, transit, from, p);
      } else if mop == MOP_HYBRID {
        if myRank == ROOT_RANK {
          InsertTargets(targets, count, transit, from, p);
        } else if nodeClass == ClassS {
          InstallChildRoutes();
        }
      }
      acked := true;
    }

    /** The aggregation loop of dag_build_dao, behind what has been printed already. */
    method AppendChildTargets(sb0: seq<byte>, ghost head: seq<Opt>) returns (sb: seq<byte>)
      requires AllWellFormed(head) && sb0 == PrintAll(head)
      ensures AllWellFormed(head + DS.ChildTargets(childs)) && sb == PrintAll(head + DS.ChildTargets(childs))
    {
      hide PrintAll, Opt.Print;
      sb := sb0;
      ghost var all := DS.ChildTargets(childs);
      assert head + all[..0] == head;
      for i := 0 to |childs|
        invariant AllWellFormed(head + all[..i]) && sb == PrintAll(head + all[..i])
      {
        var target := DS.TargetOf(childs[i].addr);
        assert head + all[..i + 1] == (head + all[..i]) + [target];
        PrintOneMore(head + all[..i], target);
        sb := sb + target.Print();
      }
      assert all[..|childs|] == all;
    }

    /** dag_build_dao: what a DAO sent now carries behind its header. */
    method BuildDao() returns (sb: seq<byte>)
      ensures AllWellFormed(DS.DaoOptionsOf(Abs()))
      ensures sb == PrintAll(DS.DaoOptionsOf(Abs()))
      ensures sb == DaoBytes(self, if parent.Some? then Some(parent.value.addr) else None,
                             if mop == 2 || mop == 3 || (mop == 6 && nodeClass == ClassS) then DS.ChildAddrs(childs) else [])
    {
      DS.OptionsAreBytes(Abs());
      hide PrintAll, Opt.Print, DS.ChildTargets, DaoBytes;
      ghost var head := [];
      PrintOneMore([], DS.TargetOf(self));
      head := [] + [DS.TargetOf(self)];
      sb := DS.TargetOf(self).Print();
      if parent.Some? {
        var transit := Transit(0, 0, 0, 0, parent.value.addr);
        PrintOneMore(head, transit);
        sb := sb + transit.Print();
        head := head + [transit];
      }
      if mop == MOP_STORING || mop == MOP_STORING_MULTICAST || (mop == MOP_HYBRID && nodeClass == ClassS) {
        sb := AppendChildTargets(sb, head);
        head := head + DS.ChildTargets(childs);
      }
      assert head == DS.DaoOptionsOf(Abs());
    }

    /** parent_check_cb; gaveUp is where the route flush, the early DIO and the engine's notice follow. */
    method CheckParent(now: real) returns (gaveUp: bool)
      modifies this
      ensures Abs() == DS.CheckParent(old(Abs()), now)
      ensures gaveUp == DS.TimedOut(old(Abs()), now)
    {
      gaveUp := false;
      if myRank == ROOT_RANK || parent.None? || parent.value.rank == INFINITE_RANK {
        return;
      }
      var timeout := DS.PARENT_TIMEOUT_FACTOR * trickle;
      if now - parentLastSeen < timeout {
        return;
      }
      parent := Some(parent.value.(rank := INFINITE_RANK));
      myRank := INFINITE_RANK;
      gaveUp := true;
    }
  }

  /** (instance, DODAG id), the key dag_lookup searches for. */
  type DagId = (byte, Addr)

  function DioRank(mem: Memory): u16 {
    mem(2) * 0x100 + mem(3)
  }

  function DioMop(mem: Memory): nat {
    mem(4) / 8 % 8
  }

  /** The checks on the option that must follow the header when the DAG is still unknown. */
  predicate Joinable(mem: Memory, len: nat) {
    && len - DIO_HEADER >= 8
    && mem(DIO_HEADER) == OPT_ROUTE_INFO
    && len - DIO_HEADER - 8 >= (mem(DIO_HEADER + 2) + 7) / 8
  }

  /** What the handlers read of a DIO is what its fields say. */
  lemma DioIsDecoded(mem: Memory, len: nat, dio: Dio)
    requires IsDio(mem, len, dio)
    ensures len >= 24 && mem(0) == dio.instance && AddrAt(mem, 8) == dio.dodagid
    ensures DioRank(mem) == dio.rank && DioMop(mem) == dio.mop
  {
    DioFields(mem, len, dio);
    hide IsDio;
    MopOfByte(if dio.grounded then 1 else 0, if dio.unused then 1 else 0, dio.mop, dio.prf);
  }

  /** Bits 5 to 3. */
  lemma MopOfByte(grounded: int, unused: int, mop: bits3, prf: bits3)
    requires 0 <= grounded <= 1 && 0 <= unused <= 1
    ensures (grounded * 0x80 + unused * 0x40 + mop * 8 + prf) / 8 % 8 == mop
  {
    var q := grounded * 16 + unused * 8 + mop;
    assert (grounded * 0x80 + unused * 0x40 + mop * 8 + prf) / 8 == q;
  }

  lemma JoinableIff(mem: Memory, len: nat)
    ensures Joinable(mem, len) <==> exists info :: HasPrefix(mem, len, info)
  {
    HasPrefixIff(mem, len);
    hide HasPrefix;
  }

  /** The state of a node that has just joined on a DIO. */
  function JoinedOn(self: Addr, cls: Class, mop: nat, from: Addr, rank: u16, now: real, trickle: real): DS.State {
    DS.State(self, mop, cls, (rank + 1) % 0x1_0000, Some(Peer(from, rank)), Some(from), [], map[], [], now, trickle)
  }

  lemma Joins(self: Addr, cls: Class, mop: nat, from: Addr, rank: u16, now: real, trickle: real, dodagid: Addr)
    ensures var d := DS.Created(self, cls, mop, now, trickle);
            && DS.ReceiveDio(d, from, rank, now) == JoinedOn(self, cls, mop, from, rank, now, trickle)
            && DS.SentOnDio(d, from, rank, now, dodagid) ==
               if mop == 2 || mop == 3 then [from]
               else if mop == 1 then [dodagid]
               else if mop == 6 then (if rank > 1 then [from, dodagid] else [from])
               else []
  {
    DS.NoParentAdopts(DS.Created(self, cls, mop, now, trickle), from, rank, now);
    DS.Answers(DS.Created(self, cls, mop, now, trickle), from, rank, now, dodagid);
  }

  class Iface {
    const self: Addr
    const trickle: real
    var nodeClass: Class
    var dags: map<DagId, Dag>

    ghost predicate Valid()
      reads this
    {
      forall a, b :: a in dags && b in dags && dags[a] == dags[b] ==> a == b
    }

    constructor (self: Addr, trickle: real, cls: Class)
      ensures Valid() && nodeClass == cls && dags == map[]
    {
      this.self, this.trickle := self, trickle;
      nodeClass, dags := cls, map[];
    }

    /** The state the DIO handler starts from; none if the DODAG is unknown and cannot be joined. */
    ghost function Before(id: DagId, mem: Memory, len: nat, now: real): Option<DS.State>
      reads this, dags.Values
    {
      if id in dags then Some(dags[id].Abs())
      else if Joinable(mem, len) then Some(DS.Created(self, nodeClass, DioMop(mem), now, trickle))
      else None
    }

    /** dag_lookup, and dag_create if the DODAG is unknown and the DIO allows it; null if it does not. */
    method FindOrJoin(id: DagId, mem: Memory, len: nat, now: real) returns (dag: Dag?)
      requires Valid()
      modifies this`dags
      ensures Valid()
      ensures var before := old(Before(id, mem, len, now));
              if before.None? then dag == null && dags == old(dags)
              else dag != null && dags == old(dags)[id := dag] && dag.Abs() == before.value
      ensures id in old(dags) ==> dag == old(dags[id])
      ensures id !in old(dags) && dag != null ==> fresh(dag)
    {
      hide DS.Created;
      if id in dags {
        dag := dags[id];
      } else {
        dag := null;
        if len - DIO_HEADER < 8 || mem(DIO_HEADER) != OPT_ROUTE_INFO
           || len - DIO_HEADER - 8 < (mem(DIO_HEADER + 2) + 7) / 8 {
          return;
        }
        dag := new Dag(self, DioMop(mem), nodeClass, now, trickle);
        dags := dags[id := dag];
      }
    }

    /** process_dio: an unknown DODAG is joined with the class of the interface; other DAGs stay as they are. */
    method ProcessDio(mem: Memory, len: nat, from: Addr, now: real) returns (sent: seq<Addr>)
      requires Valid()
      modifies this, dags.Values
      ensures Valid() && nodeClass == old(nodeClass)
      ensures forall k :: k in old(dags) ==> k in dags && dags[k] == old(dags[k])
      ensures forall k :: k in old(dags) && (len < DIO_HEADER || k != (mem(0), AddrAt(mem, 8))) ==>
                            dags[k].Abs() == old(dags[k].Abs())
      ensures var id := (mem(0), AddrAt(mem, 8));
              var before := old(Before(id, mem, len, now));
              if len < DIO_HEADER || before.None? then dags == old(dags) && sent == []
              else && dags.Keys == old(dags).Keys + {id}
                   && dags[id].Abs() == DS.ReceiveDio(before.value, from, DioRank(mem), now)
                   && sent == DS.SentOnDio(before.value, from, DioRank(mem), now, id.1)
      // The same for a message laid out field by field: too short, of a known DODAG, of an unknown one.
      ensures len < 24 ==> dags == old(dags) && sent == []
      ensures forall dio :: IsDio(mem, len, dio) && (dio.instance, dio.dodagid) in old(dags) ==>
                              var id := (dio.instance, dio.dodagid);
                              && dags == old(dags)
                              && dags[id].Abs() == DS.ReceiveDio(old(dags[(dio.instance, dio.dodagid)].Abs()), from, dio.rank, now)
      ensures forall dio :: IsDio(mem, len, dio) && (dio.instance, dio.dodagid) !in old(dags) ==>
                              var id := (dio.instance, dio.dodagid);
                              if exists info :: HasPrefix(mem, len, info)
                              then && id in dags && dags == old(dags)[id := dags[id]]
                                   && dags[id].Abs() == JoinedOn(self, nodeClass, dio.mop, from, dio.rank, now, trickle)
                                   && sent == (if dio.mop == 2 || dio.mop == 3 then [from]
                                               else if dio.mop == 1 then [dio.dodagid]
                                               else if dio.mop == 6 then (if dio.rank > 1 then [from, dio.dodagid] else [from])
                                               else [])
                              else dags == old(dags) && sent == []
    {
      hide DS.ReceiveDio, DS.SentOnDio, DS.Created, Joinable, HasPrefix, DioRank, DioMop, IsDio, JoinedOn;
      sent := [];
      JoinableIff(mem, len);
      forall dio | IsDio(mem, len, dio)
        ensures len >= 24 && mem(0) == dio.instance && AddrAt(mem, 8) == dio.dodagid
        ensures DioRank(mem) == dio.rank && DioMop(mem) == dio.mop
      {
        DioIsDecoded(mem, len, dio);
      }
      if len < DIO_HEADER {
        return;
      }
      var id: DagId := (mem(0), AddrAt(mem, 8));
      var dag := FindOrJoin(id, mem, len, now);
      if dag != null {
        Joins(self, nodeClass, DioMop(mem), from, DioRank(mem), now, trickle, id.1);
        sent := dag.ReceiveDio(from, DioRank(mem), now, id.1);
      }
    }

    /** process_dao: only a DAG that is known takes notice, and no DAG is created. */
    method ProcessDao(mem: Memory, len: nat, from: Addr) returns (acked: bool)
      requires Valid()
      modifies dags.Values
      ensures Valid() && dags == old(dags)
      ensures forall k :: k in dags && (len < DAO_HEADER || k != (mem(0), AddrAt(mem, 4))) ==>
                            dags[k].Abs() == old(dags[k].Abs())
      ensures var id := (mem(0), AddrAt(mem, 4));
              var p := Walk(mem, DAO_HEADER, len - DAO_HEADER, NOTHING);
              if len < DAO_HEADER || id !in dags then !acked
              else dags[id].Abs() == DS.ReceiveDao(old(dags[id].Abs()), p, from) && acked == p.complete
      // The same for a message laid out field by field, and for one that is a byte too long.
      ensures len < 20 ==> !acked && forall k :: k in dags ==> dags[k].Abs() == old(dags[k].Abs())
      ensures forall header, opts :: IsDao(mem, len, header, opts, 0) ==>
                                       var id := (header.instance, header.dodagid);
                                       && acked == (id in dags)
                                       && (id in dags ==> dags[id].Abs() ==
                                                          DS.ReceiveDao(old(dags[(header.instance, header.dodagid)].Abs()),
                                                                        Parsed(Targets(opts), LastTransit(opts, None), true), from))
      ensures forall header, opts :: IsDao(mem, len, header, opts, 1) ==>
                                       var id := (header.instance, header.dodagid);
                                       && !acked
                                       && (id in dags ==> var d := old(dags[(header.instance, header.dodagid)].Abs());
                                                          dags[id].Abs() == d.(childs := DS.RecordAll(d.childs, Targets(opts), from)))
    {
      hide DS.ReceiveDao, Walk, IsDao, Targets, LastTransit, DS.RecordAll;
      forall header, opts, extra: nat | IsDao(mem, len, header, opts, extra) && extra <= 1
        ensures len >= 20 && mem(0) == header.instance && AddrAt(mem, 4) == header.dodagid
        ensures Walk(mem, 20, len - 20, NOTHING) == Parsed(Targets(opts), LastTransit(opts, None), extra == 0)
      {
        DaoIsDecoded(mem, len, header, opts, extra);
      }
      forall d: DS.State, p: Parsed | !p.complete
        ensures DS.ReceiveDao(d, p, from) == d.(childs := DS.RecordAll(d.childs, p.seen, from))
      {
        DS.MalformedIsOnlyRecorded(d, p, from);
      }
      acked := false;
      if len < DAO_HEADER {
        return;
      }
      var id: DagId := (mem(0), AddrAt(mem, 4));
      if id in dags {
        acked := dags[id].ReceiveDao(mem, len, from);
      }
    }
  }
}
