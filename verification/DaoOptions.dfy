/**
 The option list of a DAO: what a node prints, and the type/length walk of process_dao that
 reads it back (sections 6.7.7 and 6.7.8 of RFC 6550).
 */
module DaoOptions {
  import opened Wrappers
  import opened Rpl

  const MAX_DAO_TARGETS := 16

  /** One option. `Other` stands for every option the walk skips. */
  datatype Opt =
    | Target(flags: byte, prefixLen: byte, prefix: Addr)
    | Transit(flags: byte, pathControl: byte, pathSequence: byte, lifetime: byte, parent: Addr)
    | Other(kind: byte, body: seq<byte>)
  {
    predicate WellFormed() {
      Other? ==> kind != OPT_TARGET && kind != OPT_TRANSIT && |body| < 0x100
    }

    function Print(): (r: seq<byte>)
      requires WellFormed()
      ensures |r| >= 2 && |r| - 2 == r[1]
    {
      match this
      case Target(flags, prefixLen, prefix) => [OPT_TARGET, 18, flags, prefixLen] + prefix
      case Transit(flags, control, number, lifetime, parent) =>
        [OPT_TRANSIT, 20, flags, control, number, lifetime] + parent
      case Other(kind, body) => [kind, |body| as byte] + body
    }
  }

  ghost predicate AllWellFormed(opts: seq<Opt>) {
    forall i :: 0 <= i < |opts| ==> opts[i].WellFormed()
  }

  ghost function PrintAll(opts: seq<Opt>): seq<byte>
    requires AllWellFormed(opts)
  {
    if opts == [] then [] else opts[0].Print() + PrintAll(opts[1..])
  }

  /** The targets of a list in order, and the parent named by its last transit option. */
  ghost function Targets(opts: seq<Opt>): seq<Addr> {
    if opts == [] then []
    else (if opts[0].Target? then [opts[0].prefix] else []) + Targets(opts[1..])
  }

  ghost function LastTransit(opts: seq<Opt>, otherwise: Option<Addr>): Option<Addr> {
    if opts == [] then otherwise
    else LastTransit(opts[1..], if opts[0].Transit? then Some(opts[0].parent) else otherwise)
  }

  /** What the walk has gathered: every target met, the last transit, and whether it got to the end. */
  datatype Parsed = Parsed(seen: seq<Addr>, transit: Option<Addr>, complete: bool) {
    /** The targets that fit the fixed array of the routine. */
    function Kept(): seq<Addr> {
      if |seen| <= MAX_DAO_TARGETS then seen else seen[..MAX_DAO_TARGETS]
    }
  }

  const NOTHING := Parsed([], None, true)

  /** The effect of the one option at p. */
  function Absorb(mem: Memory, p: nat, acc: Parsed): Parsed {
    if mem(p) == OPT_TRANSIT then acc.(transit := Some(AddrAt(mem, p + 6)))
    else if mem(p) == OPT_TARGET then acc.(seen := acc.seen + [AddrAt(mem, p + 4)])
    else acc
  }

  /** What one option, and a whole list of them, adds: stated on options, not on bytes. */
  ghost function Take(opt: Opt, acc: Parsed): Parsed {
    match opt
    case Target(_, _, prefix) => acc.(seen := acc.seen + [prefix])
    case Transit(_, _, _, _, parent) => acc.(transit := Some(parent))
    case Other(_, _) => acc
  }

  ghost function Gather(opts: seq<Opt>, acc: Parsed): Parsed {
    acc.(seen := acc.seen + Targets(opts), transit := LastTransit(opts, acc.transit))
  }

  lemma {:induction false} GatherStep(opts: seq<Opt>, acc: Parsed)
    ensures Gather(opts, acc) == if opts == [] then acc else Gather(opts[1..], Take(opts[0], acc))
  {
    if opts == [] {
      assert acc.seen + Targets(opts) == acc.seen;
    } else {
      var opt, head := opts[0], if opts[0].Target? then [opts[0].prefix] else [];
      var rest := Targets(opts[1..]);
      assert Targets(opts) == head + rest;
      assert LastTransit(opts, acc.transit) == LastTransit(opts[1..], Take(opt, acc).transit);
      hide Targets, LastTransit;
      assert Take(opt, acc).seen == acc.seen + head;
      assert (acc.seen + head) + rest == acc.seen + (head + rest);
    }
  }

  /** The walk from offset p with optlen bytes claimed to be left. */
  function Walk(mem: Memory, p: nat, optlen: int, acc: Parsed): Parsed
    decreases optlen
  {
    if optlen <= 0 then acc
    else if optlen < 2 then acc.(complete := false)
    else Walk(mem, p + 2 + mem(p + 1), optlen - (2 + mem(p + 1)), Absorb(mem, p, acc))
  }

  lemma WalkStep(mem: Memory, p: nat, optlen: int, acc: Parsed)
    ensures Walk(mem, p, optlen, acc) ==
            if optlen <= 0 then acc
            else if optlen < 2 then acc.(complete := false)
            else Walk(mem, p + 2 + mem(p + 1), optlen - (2 + mem(p + 1)), Absorb(mem, p, acc))
  {
  }

  lemma NothingKept()
    ensures NOTHING.Kept() == []
  {
  }

  lemma KeptIgnoresEnd(acc: Parsed)
    ensures acc.(complete := false).Kept() == acc.Kept()
  {
  }

  lemma AbsorbGoesOn(mem: Memory, p: nat, acc: Parsed)
    ensures Absorb(mem, p, acc).complete == acc.complete
  {
  }

  lemma PrintedOptionIsAbsorbed(mem: Memory, p: nat, opt: Opt, acc: Parsed)
    requires opt.WellFormed() && Holds(mem, p, opt.Print())
    ensures |opt.Print()| - 2 == mem(p + 1)
    ensures Absorb(mem, p, acc) == Take(opt, acc)
  {
    var r := opt.Print();
    assert mem(p + 0) == r[0] && mem(p + 1) == r[1];
    match opt
    case Target(flags, prefixLen, prefix) =>
      HoldsParts(mem, p, [OPT_TARGET, 18, flags, prefixLen], prefix);
      assert AddrAt(mem, p + 4) == prefix;
    case Transit(flags, control, number, lifetime, parent) =>
      HoldsParts(mem, p, [OPT_TRANSIT, 20, flags, control, number, lifetime], parent);
      assert AddrAt(mem, p + 6) == parent;
    case Other(_, _) =>
  }

  /** The walk steps over a printed option to exactly the offset behind it. */
  lemma StepOver(mem: Memory, p: nat, opt: Opt, left: nat, acc: Parsed)
    requires opt.WellFormed() && Holds(mem, p, opt.Print())
    ensures Walk(mem, p, |opt.Print()| + left, acc) == Walk(mem, p + |opt.Print()|, left, Absorb(mem, p, acc))
  {
    PrintedOptionIsAbsorbed(mem, p, opt, acc);
    hide Absorb;
  }

  /**
   The walk inverts the printer: on memory holding a printed list it meets every option at its
   own offset, whatever `extra` claimed bytes follow, and goes on from the end of the list.
   */
  lemma {:induction false} WalkInvertsPrint(mem: Memory, p: nat, opts: seq<Opt>, extra: nat, acc: Parsed)
    requires AllWellFormed(opts) && Holds(mem, p, PrintAll(opts))
    ensures Walk(mem, p, |PrintAll(opts)| + extra, acc) ==
            Walk(mem, p + |PrintAll(opts)|, extra,
                 Gather(opts, acc))
    decreases |opts|
  {
    hide Walk, Absorb, Opt.Print, Holds, Gather;
    GatherStep(opts, acc);
    if opts != [] {
      var first, rest := opts[0].Print(), PrintAll(opts[1..]);
      HoldsParts(mem, p, first, rest);
      StepOver(mem, p, opts[0], |rest| + extra, acc);
      PrintedOptionIsAbsorbed(mem, p, opts[0], acc);
      WalkInvertsPrint(mem, p + |first|, opts[1..], extra, Take(opts[0], acc));
    }
  }

  /** Round trip: all targets, in order, and the last transit; nothing else. */
  lemma DaoRoundTrip(mem: Memory, p: nat, opts: seq<Opt>)
    requires AllWellFormed(opts) && Holds(mem, p, PrintAll(opts))
    ensures Walk(mem, p, |PrintAll(opts)|, NOTHING) == Parsed(Targets(opts), LastTransit(opts, None), true)
  {
    WalkInvertsPrint(mem, p, opts, 0, NOTHING);
    assert [] + Targets(opts) == Targets(opts);
  }

  /** A single stray byte behind a printed list makes the walk give up, after it has seen every target. */
  lemma StrayByteAborts(mem: Memory, p: nat, opts: seq<Opt>)
    requires AllWellFormed(opts) && Holds(mem, p, PrintAll(opts))
    ensures Walk(mem, p, |PrintAll(opts)| + 1, NOTHING) == Parsed(Targets(opts), LastTransit(opts, None), false)
  {
    WalkInvertsPrint(mem, p, opts, 1, NOTHING);
    assert [] + Targets(opts) == Targets(opts);
  }

  /** The memory that holds exactly the given bytes and then zeros. */
  function Received(bytes: seq<byte>): Memory {
    (i: nat) => if i < |bytes| then bytes[i] else 0
  }

  lemma {:induction false} PrintAppend(opts: seq<Opt>, more: seq<Opt>)
    requires AllWellFormed(opts) && AllWellFormed(more)
    ensures PrintAll(opts + more) == PrintAll(opts) + PrintAll(more)
    decreases |opts|
  {
    if opts == [] {
      assert opts + more == more;
    } else {
      assert (opts + more)[1..] == opts[1..] + more;
      PrintAppend(opts[1..], more);
    }
  }

  lemma PrintOneMore(opts: seq<Opt>, opt: Opt)
    requires AllWellFormed(opts) && opt.WellFormed()
    ensures AllWellFormed(opts + [opt]) && PrintAll(opts + [opt]) == PrintAll(opts) + opt.Print()
    ensures PrintAll([]) == []
  {
    assert [opt][1..] == [];
    PrintAppend(opts, [opt]);
  }
}
