/**
 How far the option walk of process_dao reads. It checks that the two bytes of type and length are
 there, but not that the body of a target or transit option is.
 */
module OptionBounds {
  import opened Rpl
  import opened DaoOptions

  const TARGET_SIZE := 20
  const TRANSIT_SIZE := 22

  /** Every target and transit option that the walk meets lies within the message. */
  predicate Fits(mem: Memory, p: nat, optlen: int)
    decreases optlen
  {
    optlen < 2 ||
    (&& (mem(p) == OPT_TARGET ==> optlen >= TARGET_SIZE)
     && (mem(p) == OPT_TRANSIT ==> optlen >= TRANSIT_SIZE)
     && Fits(mem, p + 2 + mem(p + 1), optlen - (2 + mem(p + 1))))
  }

  /** The same bytes before `end`; anything from there on. */
  ghost predicate SameUpTo(a: Memory, b: Memory, end: int) {
    forall i: nat :: i < end ==> a(i) == b(i)
  }

  lemma SameAddr(a: Memory, b: Memory, p: nat, end: int)
    requires SameUpTo(a, b, end) && p + 16 <= end
    ensures AddrAt(a, p) == AddrAt(b, p)
  {
  }

  lemma {:induction false} FitsIsEnough(a: Memory, b: Memory, p: nat, optlen: int, acc: Parsed)
    requires Fits(a, p, optlen) && SameUpTo(a, b, p + optlen)
    ensures Walk(a, p, optlen, acc) == Walk(b, p, optlen, acc)
    decreases optlen
  {
    if optlen >= 2 {
      assert a(p) == b(p) && a(p + 1) == b(p + 1);
      if a(p) == OPT_TARGET {
        SameAddr(a, b, p + 4, p + optlen);
      } else if a(p) == OPT_TRANSIT {
        SameAddr(a, b, p + 6, p + optlen);
      }
      assert Absorb(a, p, acc) == Absorb(b, p, acc);
      FitsIsEnough(a, b, p + 2 + a(p + 1), optlen - (2 + a(p + 1)), Absorb(a, p, acc));
    }
  }

  // ---- and it is needed ----

  /** Other bytes than those of mem from `end` on. */
  function Changed(mem: Memory, end: int): Memory {
    (i: nat) => if i < end then mem(i) else (mem(i) + 1) % 0x100
  }

  /** An address that sticks out of the message is read differently. */
  lemma OtherAddr(mem: Memory, p: nat, end: int)
    requires p + 16 > end
    ensures AddrAt(mem, p) != AddrAt(Changed(mem, end), p)
  {
    assert AddrAt(mem, p)[15] == mem(p + 15) && AddrAt(Changed(mem, end), p)[15] == Changed(mem, end)(p + 15);
  }

  /** What has been seen stays. */
  lemma {:induction false} SeenIsKept(mem: Memory, p: nat, optlen: int, acc: Parsed)
    ensures acc.seen <= Walk(mem, p, optlen, acc).seen
    decreases optlen
  {
    if optlen >= 2 {
      SeenIsKept(mem, p + 2 + mem(p + 1), optlen - (2 + mem(p + 1)), Absorb(mem, p, acc));
    }
  }

  /** With fewer bytes left than a transit option has, no later one can make up for a difference. */
  lemma {:induction false} TransitsStayApart(mem: Memory, p: nat, optlen: int, end: int, x: Parsed, y: Parsed)
    requires optlen < TRANSIT_SIZE && p + optlen == end && x.transit != y.transit
    ensures Walk(mem, p, optlen, x).transit != Walk(Changed(mem, end), p, optlen, y).transit
    decreases optlen
  {
    if optlen >= 2 {
      var other := Changed(mem, end);
      assert mem(p) == other(p) && mem(p + 1) == other(p + 1);
      if mem(p) == OPT_TRANSIT {
        OtherAddr(mem, p + 6, end);
      }
      hide Changed;
      TransitsStayApart(mem, p + 2 + mem(p + 1), optlen - (2 + mem(p + 1)), end, Absorb(mem, p, x), Absorb(other, p, y));
    }
  }

  lemma MisfitTarget(mem: Memory, p: nat, optlen: int, acc: Parsed)
    requires 2 <= optlen < TARGET_SIZE && mem(p) == OPT_TARGET
    ensures Walk(mem, p, optlen, acc) != Walk(Changed(mem, p + optlen), p, optlen, acc)
  {
    var other := Changed(mem, p + optlen);
    assert mem(p) == other(p) && mem(p + 1) == other(p + 1);
    OtherAddr(mem, p + 4, p + optlen);
    var x, y := Absorb(mem, p, acc), Absorb(other, p, acc);
    assert x.seen == acc.seen + [AddrAt(mem, p + 4)] && y.seen == acc.seen + [AddrAt(other, p + 4)];
    hide Changed, Walk, Absorb;
    WalkStep(mem, p, optlen, acc);
    WalkStep(other, p, optlen, acc);
    SeenIsKept(mem, p + 2 + mem(p + 1), optlen - (2 + mem(p + 1)), x);
    SeenIsKept(other, p + 2 + mem(p + 1), optlen - (2 + mem(p + 1)), y);
    assert x.seen[|acc.seen|] != y.seen[|acc.seen|];
  }

  lemma MisfitTransit(mem: Memory, p: nat, optlen: int, acc: Parsed)
    requires 2 <= optlen < TRANSIT_SIZE && mem(p) == OPT_TRANSIT
    ensures Walk(mem, p, optlen, acc) != Walk(Changed(mem, p + optlen), p, optlen, acc)
  {
    var other := Changed(mem, p + optlen);
    assert mem(p) == other(p) && mem(p + 1) == other(p + 1);
    OtherAddr(mem, p + 6, p + optlen);
    TransitsStayApart(mem, p + 2 + mem(p + 1), optlen - (2 + mem(p + 1)), p + optlen, Absorb(mem, p, acc), Absorb(other, p, acc));
  }

  lemma {:induction false} MisfitIsNoticed(mem: Memory, p: nat, optlen: int, acc: Parsed)
    requires !Fits(mem, p, optlen)
    ensures Walk(mem, p, optlen, acc) != Walk(Changed(mem, p + optlen), p, optlen, acc)
    decreases optlen
  {
    if mem(p) == OPT_TARGET && optlen < TARGET_SIZE {
      MisfitTarget(mem, p, optlen, acc);
    } else if mem(p) == OPT_TRANSIT && optlen < TRANSIT_SIZE {
      MisfitTransit(mem, p, optlen, acc);
    } else {
      assert mem(p + 1) == Changed(mem, p + optlen)(p + 1);
      FittingPartIsSame(mem, p, optlen, acc);
      hide Absorb, Changed;
      MisfitIsNoticed(mem, p + 2 + mem(p + 1), optlen - (2 + mem(p + 1)), Absorb(mem, p, acc));
    }
  }

  lemma FittingPartIsSame(mem: Memory, p: nat, optlen: int, acc: Parsed)
    requires optlen >= 2 && (mem(p) == OPT_TARGET ==> optlen >= TARGET_SIZE) && (mem(p) == OPT_TRANSIT ==> optlen >= TRANSIT_SIZE)
    ensures Absorb(mem, p, acc) == Absorb(Changed(mem, p + optlen), p, acc)
  {
    if mem(p) == OPT_TARGET {
      SameAddr(mem, Changed(mem, p + optlen), p + 4, p + optlen);
    } else if mem(p) == OPT_TRANSIT {
      SameAddr(mem, Changed(mem, p + optlen), p + 6, p + optlen);
    }
  }

  /**
   What is made of a DAO depends on nothing but the bytes received exactly if every target option met
   has twenty bytes left and every transit option twenty-two.
   */
  lemma DependsOnMessageIff(mem: Memory, p: nat, optlen: nat)
    ensures (forall other: Memory :: SameUpTo(mem, other, p + optlen) ==>
                                       Walk(other, p, optlen, NOTHING) == Walk(mem, p, optlen, NOTHING))
       <==> Fits(mem, p, optlen)
  {
    if Fits(mem, p, optlen) {
      forall other: Memory | SameUpTo(mem, other, p + optlen)
        ensures Walk(other, p, optlen, NOTHING) == Walk(mem, p, optlen, NOTHING)
      {
        FitsIsEnough(mem, other, p, optlen, NOTHING);
      }
    } else {
      MisfitIsNoticed(mem, p, optlen, NOTHING);
      assert SameUpTo(mem, Changed(mem, p + optlen), p + optlen);
    }
  }

  /** Every printed option list fits, so this concerns only DAOs of other origin. */
  lemma PrintedFits(mem: Memory, p: nat, opts: seq<Opt>)
    requires AllWellFormed(opts) && Holds(mem, p, PrintAll(opts))
    ensures Fits(mem, p, |PrintAll(opts)|)
  {
    forall other: Memory | SameUpTo(mem, other, p + |PrintAll(opts)|)
      ensures Walk(other, p, |PrintAll(opts)|, NOTHING) == Walk(mem, p, |PrintAll(opts)|, NOTHING)
    {
      DaoRoundTrip(mem, p, opts);
      DaoRoundTrip(other, p, opts);
    }
    DependsOnMessageIff(mem, p, |PrintAll(opts)|);
  }
}
