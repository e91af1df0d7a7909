/**
 The DODAG as a transition system: every node runs the handlers of DagState, and messages that
 were sent once may be delivered at any later time, in any order, repeatedly or never.
 */
module Network {
  import opened Wrappers
  import opened Rpl
  import opened Graph
  import opened DaoExchange
  import DS = DagState

  /** The radio graph, the configured root and its MOP, and the class each interface is configured with. */
  datatype Config = Config(g: Graph<Addr>, root: Addr, mop: nat, cls: map<Addr, Class>, trickle: real)
  {
    ghost predicate Closed() {
      root in g && forall u, v :: u in g && v in g[u] ==> v in g
    }

    /** No path from the root has more nodes than a 16-bit rank can count. */
    ghost predicate WellFormed() {
      Closed() && forall p :: SimplePath(g, root, p) ==> |p| <= 0xFFFF
    }

    ghost function ClassOf(v: Addr): Class {
      if v in cls then cls[v] else ClassS
    }
  }

  datatype DioMsg = DioMsg(src: Addr, rank: u16)
  datatype DaoMsg = DaoMsg(src: Addr, dst: Addr, body: seq<byte>)

  /**
   `nodes` holds the nodes that have the DAG; `join` numbers them in the order in which they
   created it, and `heard` lists the DIOs delivered to each node: both are history.
   */
  datatype Net = Net(nodes: map<Addr, DS.State>, join: map<Addr, nat>, heard: map<Addr, seq<DioMsg>>,
                     dios: set<DioMsg>, daos: set<DaoMsg>)
  {
    ghost function Heard(v: Addr): seq<DioMsg> {
      if v in heard then heard[v] else []
    }
  }

  datatype Event =
    | SendDio(u: Addr)
    | RecvDio(v: Addr, dio: DioMsg, now: real)
    | RecvDao(v: Addr, dao: DaoMsg)
    | Check(v: Addr, now: real)

  ghost function Init(c: Config): Net {
    Net(map[c.root := DS.State(c.root, c.mop, c.ClassOf(c.root), ROOT_RANK, None, None, [], map[], [], 0.0, c.trickle)],
        map[c.root := 0], map[], {}, {})
  }

  ghost predicate Enabled(c: Config, s: Net, e: Event) {
    match e
    case SendDio(u) => u in s.nodes
    case RecvDio(v, m, _) => v in c.g && m in s.dios && v in Neighbours(c.g, m.src)
    case RecvDao(v, m) => v in s.nodes && m in s.daos && m.dst == v
    case Check(v, _) => v in s.nodes
  }

  /** No parent is given up in this step. */
  ghost predicate Quiet(c: Config, s: Net, e: Event) {
    Enabled(c, s, e) && (e.Check? ==> !DS.TimedOut(s.nodes[e.v], e.now))
  }

  /** The state a node handles a DIO from: its own, or that of the DAG it is about to create. */
  ghost function Before(c: Config, s: Net, v: Addr, now: real): DS.State {
    if v in s.nodes then s.nodes[v] else DS.Created(v, c.ClassOf(v), c.mop, now, c.trickle)
  }

  ghost function Apply(c: Config, s: Net, e: Event): Net
    requires Enabled(c, s, e)
  {
    match e
    case SendDio(u) => s.(dios := s.dios + {DioMsg(u, s.nodes[u].myRank)})
    case RecvDio(v, m, now) =>
      var before := Before(c, s, v, now);
      var after := DS.ReceiveDio(before, m.src, m.rank, now);
      var dsts := DS.SentOnDio(before, m.src, m.rank, now, c.root);
      s.(nodes := s.nodes[v := after],
      join := if v in s.join then s.join else s.join[v := |s.join|],
      heard := s.heard[v := s.Heard(v) + [m]],
      daos := s.daos + set dst | dst in dsts :: DaoMsg(v, dst, DaoBody(after)))
    case RecvDao(v, m) => s.(nodes := s.nodes[v := DS.ReceiveDao(s.nodes[v], ReadBack(m.body), m.src)])
    case Check(v, now) => s.(nodes := s.nodes[v := DS.CheckParent(s.nodes[v], now)])
  }

  /** A run: the states ss that the events es lead through, from the root alone. */
  ghost predicate Run(c: Config, es: seq<Event>, ss: seq<Net>) {
    && |ss| == |es| + 1 && ss[0] == Init(c)
    && forall i :: 0 <= i < |es| ==> Enabled(c, ss[i], es[i]) && ss[i + 1] == Apply(c, ss[i], es[i])
  }

  /** A run in which the liveness timer never gives up a parent. */
  ghost predicate QuietRun(c: Config, es: seq<Event>, ss: seq<Net>) {
    Run(c, es, ss) && forall i :: 0 <= i < |es| ==> Quiet(c, ss[i], es[i])
  }

  lemma StepOf(c: Config, es: seq<Event>, ss: seq<Net>, i: nat)
    requires QuietRun(c, es, ss) && i < |es|
    ensures |ss| == |es| + 1 && Quiet(c, ss[i], es[i]) && Enabled(c, ss[i], es[i]) && ss[i + 1] == Apply(c, ss[i], es[i])
  {
  }

  lemma StartOf(c: Config, es: seq<Event>, ss: seq<Net>)
    requires QuietRun(c, es, ss)
    ensures |ss| == |es| + 1 && ss[0] == Init(c)
  {
  }
}
