/** Constants and basic types of the RPL messages and of the per-DODAG state (rpl.h, dag.h). */
module Rpl {

  type byte = x: int | 0 <= x < 0x100
  type u16 = x: int | 0 <= x < 0x1_0000
  type Addr = s: seq<byte> | |s| == 16 witness seq(16, i => 0)

  /** The functional profile of a node: storing-like or non-storing-like. */
  datatype Class = ClassS | ClassN

  /** UINT16_MAX, the rank of a fresh or an invalidated parent. */
  const INFINITE_RANK: u16 := 0xFFFF
  const ROOT_RANK: u16 := 1

  const MOP_NONSTORING := 1
  const MOP_STORING := 2
  const MOP_STORING_MULTICAST := 3
  const MOP_HYBRID := 6

  const OPT_ROUTE_INFO: byte := 3
  const OPT_TARGET: byte := 5
  const OPT_TRANSIT: byte := 6

  datatype Peer = Peer(addr: Addr, rank: u16)
  datatype Child = Child(addr: Addr, from: Addr)

  /** A (target, transit parent) pair handed to the root's source-route tree, with the DAO's sender. */
  datatype Insert = Insert(transit: Addr, sender: Addr, target: Addr)

  /** A received message as the code sees it: memory that goes on, with unknown content, past the message. */
  type Memory = nat -> byte

  function AddrAt(mem: Memory, p: nat): Addr {
    seq(16, i requires 0 <= i < 16 => mem(p + i))
  }

  ghost predicate Holds(mem: Memory, p: nat, bytes: seq<byte>) {
    forall i: nat :: i < |bytes| ==> mem(p + i) == bytes[i]
  }

  lemma HoldsParts(mem: Memory, p: nat, a: seq<byte>, b: seq<byte>)
    requires Holds(mem, p, a + b)
    ensures Holds(mem, p, a) && Holds(mem, p + |a|, b)
  {
    forall i: nat | i < |a|
      ensures mem(p + i) == a[i]
    {
      assert (a + b)[i] == a[i];
    }
    forall i: nat | i < |b|
      ensures mem(p + |a| + i) == b[i]
    {
      var j: nat := |a| + i;
      assert (a + b)[j] == b[i];
    }
  }
}
