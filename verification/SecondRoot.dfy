/**
 Who takes itself for the root in runs with failures. Ranks stay coherent network-wide exactly as long
 as no orphan's DIO is taken for a way to the root; and what makes a second root is a DIO of rank 0.
 */
module SecondRoot {
  import opened Rpl
  import opened DaoExchange
  import opened Network
  import C = Cycles
  import L = Liveness
  import R = Ranks
  import DS = DagState

  /** All nodes but the root are coherent, so none has rank 0 or 1, and no DIO in flight has rank 0. */
  ghost predicate Sound(c: Config, s: Net) {
    && (forall v :: v in s.nodes && v != c.root ==> L.Coherent(s.nodes[v]))
    && (forall m :: m in s.dios ==> m.rank != 0)
  }

  /** A DIO of rank 0xFFFF reaches a node other than the root that has no live parent, or has not joined yet. */
  ghost predicate MisleadsOrphan(c: Config, s: Net, e: Event) {
    && e.RecvDio? && e.dio.rank == 0xFFFF && e.v != c.root
    && !(e.v in s.nodes && L.HasLiveParent(s.nodes[e.v]))
  }

  lemma CoherentIsPositive(d: DS.State)
    requires L.Coherent(d)
    ensures d.myRank > 1
  {
  }

  /** Only one node changes, and no DIO is sent. */
  lemma OneNodeIffSound(c: Config, s: Net, t: Net, v: Addr, d: DS.State)
    requires Sound(c, s) && t.nodes == s.nodes[v := d] && t.dios == s.dios && v != c.root
    ensures Sound(c, t) <==> L.Coherent(d)
  {
    hide L.Coherent;
    assert t.nodes[v] == d;
  }

  lemma RootMovesSoundly(c: Config, s: Net, t: Net, d: DS.State)
    requires Sound(c, s) && t.nodes == s.nodes[c.root := d] && t.dios == s.dios
    ensures Sound(c, t)
  {
    hide L.Coherent;
  }

  lemma DioKeepsSoundIff(c: Config, s: Net, v: Addr, m: DioMsg, now: real)
    requires Sound(c, s) && Enabled(c, s, RecvDio(v, m, now))
    ensures Sound(c, Apply(c, s, RecvDio(v, m, now))) <==> !MisleadsOrphan(c, s, RecvDio(v, m, now))
  {
    var before := Before(c, s, v, now);
    var t, after := Apply(c, s, RecvDio(v, m, now)), DS.ReceiveDio(before, m.src, m.rank, now);
    assert t.nodes == s.nodes[v := after] && t.dios == s.dios by {
      hide DS.ReceiveDio, DS.SentOnDio, Before, DaoBody;
    }
    if v == c.root {
      RootMovesSoundly(c, s, t, after);
    } else {
      assert L.Coherent(before);
      hide Apply, DS.ReceiveDio;
      L.DioKeepsCoherenceIff(before, m.src, m.rank, now);
      OneNodeIffSound(c, s, t, v, after);
    }
  }

  lemma CheckKeepsCoherence(d: DS.State, now: real)
    requires L.Coherent(d)
    ensures L.Coherent(DS.CheckParent(d, now))
  {
  }

  lemma DaoKeepsCoherence(d: DS.State, m: DaoMsg)
    requires L.Coherent(d)
    ensures L.Coherent(DS.ReceiveDao(d, ReadBack(m.body), m.src))
  {
    R.DaoKeepsRank(d, ReadBack(m.body), m.src);
    hide DS.ReceiveDao, ReadBack;
  }

  /** Nothing but a DIO can end soundness. */
  lemma OthersKeepSound(c: Config, s: Net, e: Event)
    requires C.Loose(c, s) && Sound(c, s) && Enabled(c, s, e) && !e.RecvDio?
    ensures Sound(c, Apply(c, s, e))
  {
    hide L.Coherent, DS.ReceiveDao, DS.CheckParent, ReadBack;
    if e.SendDio? {
      if e.u != c.root {
        CoherentIsPositive(s.nodes[e.u]);
      }
    } else if e.v == c.root {
      RootMovesSoundly(c, s, Apply(c, s, e), Apply(c, s, e).nodes[c.root]);
    } else if e.RecvDao? {
      DaoKeepsCoherence(s.nodes[e.v], e.dao);
      OneNodeIffSound(c, s, Apply(c, s, e), e.v, DS.ReceiveDao(s.nodes[e.v], ReadBack(e.dao.body), e.dao.src));
    } else {
      CheckKeepsCoherence(s.nodes[e.v], e.now);
      OneNodeIffSound(c, s, Apply(c, s, e), e.v, DS.CheckParent(s.nodes[e.v], e.now));
    }
  }

  /** One step, with any number of parents given up before: soundness is lost exactly if an orphan's DIO misleads another. */
  lemma StepKeepsSoundIff(c: Config, s: Net, e: Event)
    requires C.Loose(c, s) && Sound(c, s) && Enabled(c, s, e)
    ensures Sound(c, Apply(c, s, e)) <==> !MisleadsOrphan(c, s, e)
  {
    hide C.Loose, Sound, Apply, Enabled;
    if e.RecvDio? {
      DioKeepsSoundIff(c, s, e.v, e.dio, e.now);
    } else {
      OthersKeepSound(c, s, e);
    }
  }

  lemma StartsSound(c: Config)
    ensures Sound(c, Init(c))
  {
  }

  lemma {:induction false} SoundUntil(c: Config, es: seq<Event>, ss: seq<Net>, i: nat)
    requires Run(c, es, ss) && i < |ss| && forall k :: 0 <= k < i ==> !MisleadsOrphan(c, ss[k], es[k])
    ensures Sound(c, ss[i])
    decreases i
  {
    hide Sound, C.Loose, MisleadsOrphan, Enabled, Apply;
    if i == 0 {
      StartsSound(c);
    } else {
      SoundUntil(c, es, ss, i - 1);
      C.RunIsLoose(c, es, ss, i - 1);
      StepKeepsSoundIff(c, ss[i - 1], es[i - 1]);
    }
  }

  /** Whole runs, with failures and in any order. */
  lemma RunKeepsSoundIff(c: Config, es: seq<Event>, ss: seq<Net>)
    requires Run(c, es, ss)
    ensures (forall i :: 0 <= i < |ss| ==> Sound(c, ss[i])) <==> (forall i :: 0 <= i < |es| ==> !MisleadsOrphan(c, ss[i], es[i]))
  {
    hide Sound, C.Loose, MisleadsOrphan, Enabled, Apply;
    if i :| 0 <= i < |es| && MisleadsOrphan(c, ss[i], es[i]) {
      if Sound(c, ss[i]) {
        C.RunIsLoose(c, es, ss, i);
        assert Enabled(c, ss[i], es[i]) && ss[i + 1] == Apply(c, ss[i], es[i]);
        StepKeepsSoundIff(c, ss[i], es[i]);
      }
    } else {
      forall i | 0 <= i < |ss|
        ensures Sound(c, ss[i])
      {
        SoundUntil(c, es, ss, i);
      }
    }
  }

  // ---- acting as root ----

  ghost predicate HasMop(c: Config, s: Net) {
    forall v :: v in s.nodes ==> s.nodes[v].mop == c.mop
  }

  lemma StepKeepsMop(c: Config, s: Net, e: Event)
    requires HasMop(c, s) && Enabled(c, s, e)
    ensures HasMop(c, Apply(c, s, e))
  {
    if e.RecvDio? {
      R.DioKeepsConfiguration(Before(c, s, e.v, e.now), e.dio.src, e.dio.rank, e.now);
      hide DS.ReceiveDio, DS.SentOnDio;
    } else if e.RecvDao? {
      R.DaoKeepsRank(s.nodes[e.v], ReadBack(e.dao.body), e.dao.src);
      hide DS.ReceiveDao;
    }
  }

  lemma {:induction false} RunHasMop(c: Config, es: seq<Event>, ss: seq<Net>, i: nat)
    requires Run(c, es, ss) && i < |ss|
    ensures HasMop(c, ss[i])
    decreases i
  {
    hide Enabled, Apply;
    if i > 0 {
      RunHasMop(c, es, ss, i - 1);
      hide HasMop;
      StepKeepsMop(c, ss[i - 1], es[i - 1]);
    }
  }

  ghost predicate HasRootRank(s: Net, v: Addr) {
    v in s.nodes && s.nodes[v].myRank == 1
  }

  /** A DIO of rank 0 reaches v. */
  ghost predicate ZeroReaches(e: Event, v: Addr) {
    e.RecvDio? && e.v == v && e.dio.rank == 0
  }

  /** One of the first n events delivers a DIO of rank 0 to v. */
  ghost predicate ZeroDelivered(es: seq<Event>, n: nat, v: Addr)
    requires n <= |es|
  {
    exists k :: 0 <= k < n && ZeroReaches(es[k], v)
  }

  lemma StepGivesRootRankIff(c: Config, s: Net, e: Event, v: Addr)
    requires Enabled(c, s, e)
    ensures HasRootRank(Apply(c, s, e), v) <==> HasRootRank(s, v) || ZeroReaches(e, v)
  {
    if e.RecvDao? {
      R.DaoKeepsRank(s.nodes[e.v], ReadBack(e.dao.body), e.dao.src);
      hide DS.ReceiveDao;
    } else if e.RecvDio? {
      RootRankAfterDioIff(Before(c, s, e.v, e.now), e.dio.src, e.dio.rank, e.now);
      hide DS.ReceiveDio, DS.SentOnDio;
    }
  }

  lemma RootRankAfterDioIff(d: DS.State, from: Addr, rank: u16, now: real)
    ensures DS.ReceiveDio(d, from, rank, now).myRank == 1 <==> d.myRank == 1 || rank == 0
  {
  }

  lemma {:induction false} HasRootRankIff(c: Config, es: seq<Event>, ss: seq<Net>, i: nat, v: Addr)
    requires Run(c, es, ss) && i < |ss| && v != c.root
    ensures HasRootRank(ss[i], v) <==> ZeroDelivered(es, i, v)
    decreases i
  {
    hide Enabled, Apply, ZeroReaches;
    if i > 0 {
      HasRootRankIff(c, es, ss, i - 1, v);
      hide HasRootRank;
      StepGivesRootRankIff(c, ss[i - 1], es[i - 1], v);
    }
  }

  /**
   At every point of every run of a hybrid DODAG: a node other than the root feeds a source-route tree
   of its own exactly if a DIO of rank 0 has reached it.
   */
  lemma ActsAsRootIff(c: Config, es: seq<Event>, ss: seq<Net>, i: nat, v: Addr)
    requires Run(c, es, ss) && i < |ss| && v in ss[i].nodes && v != c.root && c.mop == 6
    ensures DS.BuildsTree(ss[i].nodes[v]) <==> ZeroDelivered(es, i, v)
  {
    HasRootRankIff(c, es, ss, i, v);
    RunHasMop(c, es, ss, i);
    hide Run, ZeroDelivered;
  }

  /** Hence rank 1 is the root's alone as long as no orphan has been misled. */
  lemma RootIsAlone(c: Config, es: seq<Event>, ss: seq<Net>, i: nat, v: Addr)
    requires Run(c, es, ss) && i < |ss| && v in ss[i].nodes && c.mop == 6
    requires forall k :: 0 <= k < i ==> !MisleadsOrphan(c, ss[k], es[k])
    ensures DS.BuildsTree(ss[i].nodes[v]) <==> v == c.root
  {
    SoundUntil(c, es, ss, i);
    C.RunIsLoose(c, es, ss, i);
    RunHasMop(c, es, ss, i);
    hide Run, MisleadsOrphan;
    if v != c.root {
      CoherentIsPositive(ss[i].nodes[v]);
    }
  }
}
