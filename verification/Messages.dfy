/**
 Whole messages byte by byte, as rpl.h lays them out: the DIO with the prefix option behind it, and
 the DAO with its options.
 */
module Messages {
  import opened Wrappers
  import opened Rpl
  import opened DaoOptions

  /** A field of three bits. */
  type bits3 = x: int | 0 <= x < 8

  datatype Dio = Dio(instance: byte, version: byte, rank: u16, grounded: bool, unused: bool, mop: bits3, prf: bits3,
                     dtsn: byte, flags: byte, reserved: byte, dodagid: Addr)
  {
    /** Network byte order; the sixth bit of the fifth byte has no meaning. */
    function Print(): (r: seq<byte>)
      ensures |r| == 24
    {
      [instance, version, rank / 0x100, rank % 0x100,
       (if grounded then 0x80 else 0) + (if unused then 0x40 else 0) + mop * 8 + prf, dtsn, flags, reserved] + dodagid
    }
  }

  /** The option that a DIO carries for nodes that do not know the DODAG; `prefix` has no more bytes than prefixLen bits need. */
  datatype Prefix = Prefix(optlen: byte, prefixLen: byte, prf: byte, lifetime: seq<byte>, prefix: seq<byte>) {
    predicate WellFormed() {
      |lifetime| == 4 && |prefix| == (prefixLen + 7) / 8
    }

    function Print(): (r: seq<byte>)
      requires WellFormed()
      ensures |r| == 8 + |prefix|
    {
      [3, optlen, prefixLen, prf] + lifetime + prefix
    }
  }

  datatype DaoHeader = DaoHeader(instance: byte, flags: byte, reserved: byte, number: byte, dodagid: Addr) {
    function Print(): (r: seq<byte>)
      ensures |r| == 20
    {
      [instance, flags, reserved, number] + dodagid
    }
  }

  /** The memory behind a received message of len bytes begins with this DIO. */
  ghost predicate IsDio(mem: Memory, len: nat, dio: Dio) {
    len >= 24 && Holds(mem, 0, dio.Print())
  }

  /** ... and behind its header there is room for this option. */
  ghost predicate HasPrefix(mem: Memory, len: nat, info: Prefix) {
    info.WellFormed() && len >= 24 + |info.Print()| && Holds(mem, 24, info.Print())
  }

  /** The options of a DAO: targets and transit with all flags 0 and full prefix length. */
  function TargetBytes(addr: Addr): seq<byte> {
    [5, 18, 0, 128] + addr
  }

  function TransitBytes(parent: Addr): seq<byte> {
    [6, 20, 0, 0, 0, 0] + parent
  }

  function TargetsBytes(addrs: seq<Addr>): seq<byte> {
    if addrs == [] then [] else TargetBytes(addrs[0]) + TargetsBytes(addrs[1..])
  }

  /** The option bytes of a DAO: own target, transit if there is a parent, further targets. */
  function DaoBytes(self: Addr, parent: Option<Addr>, others: seq<Addr>): seq<byte> {
    TargetBytes(self) + (if parent.Some? then TransitBytes(parent.value) else []) + TargetsBytes(others)
  }

  /** The message is a DAO with this header and these options, and `extra` bytes more are claimed to belong to it. */
  ghost predicate IsDao(mem: Memory, len: nat, header: DaoHeader, opts: seq<Opt>, extra: nat) {
    && AllWellFormed(opts) && len == 20 + |PrintAll(opts)| + extra
    && Holds(mem, 0, header.Print() + PrintAll(opts))
  }

  // ---- reading at fixed offsets ----

  lemma AddrIsRead(mem: Memory, p: nat, addr: Addr)
    requires Holds(mem, p, addr)
    ensures AddrAt(mem, p) == addr
  {
  }

  lemma DioFields(mem: Memory, len: nat, dio: Dio)
    requires IsDio(mem, len, dio)
    ensures mem(0) == dio.instance && mem(2) == dio.rank / 0x100 && mem(3) == dio.rank % 0x100
    ensures mem(4) == (if dio.grounded then 0x80 else 0) + (if dio.unused then 0x40 else 0) + dio.mop * 8 + dio.prf
    ensures AddrAt(mem, 8) == dio.dodagid
  {
    var r := dio.Print();
    assert mem(0 + 0) == r[0] && mem(0 + 2) == r[2] && mem(0 + 3) == r[3] && mem(0 + 4) == r[4];
    HoldsParts(mem, 0, r[..8], dio.dodagid);
    assert r == r[..8] + dio.dodagid;
    AddrIsRead(mem, 8, dio.dodagid);
  }

  lemma HeaderFields(mem: Memory, header: DaoHeader)
    requires Holds(mem, 0, header.Print())
    ensures mem(0) == header.instance && AddrAt(mem, 4) == header.dodagid
  {
    var r := header.Print();
    assert mem(0 + 0) == r[0];
    HoldsParts(mem, 0, r[..4], header.dodagid);
    assert r == r[..4] + header.dodagid;
    AddrIsRead(mem, 4, header.dodagid);
  }

  /** There is a well-formed prefix option behind the header exactly if these bytes say so. */
  lemma HasPrefixIff(mem: Memory, len: nat)
    ensures (exists info :: HasPrefix(mem, len, info)) <==> len >= 32 && mem(24) == 3 && len >= 32 + (mem(26) + 7) / 8
  {
    if len >= 32 && mem(24) == 3 && len >= 32 + (mem(26) + 7) / 8 {
      var n := (mem(26) + 7) / 8;
      var info := Prefix(mem(25), mem(26), mem(27), [mem(28), mem(29), mem(30), mem(31)],
                         seq(n, i requires 0 <= i < n => mem(32 + i)));
      var r := info.Print();
      forall i: nat | i < |r|
        ensures mem(24 + i) == r[i]
      {
        if i >= 8 {
          assert r[i] == info.prefix[i - 8];
        }
      }
      assert HasPrefix(mem, len, info);
    }
    forall info | HasPrefix(mem, len, info)
      ensures len >= 32 && mem(24) == 3 && len >= 32 + (mem(26) + 7) / 8
    {
      var r := info.Print();
      assert mem(24 + 0) == r[0] && mem(24 + 2) == r[2];
    }
  }

  lemma {:induction false} TargetsBytesOfConcat(a: seq<Addr>, b: seq<Addr>)
    ensures TargetsBytes(a + b) == TargetsBytes(a) + TargetsBytes(b)
    decreases |a|
  {
    if a == [] {
      assert a + b == b;
    } else {
      assert (a + b)[1..] == a[1..] + b;
      TargetsBytesOfConcat(a[1..], b);
    }
  }

  /** What the handler makes of a DAO whose options end where the message does, or one byte before. */
  lemma DaoIsDecoded(mem: Memory, len: nat, header: DaoHeader, opts: seq<Opt>, extra: nat)
    requires IsDao(mem, len, header, opts, extra) && extra <= 1
    ensures len >= 20 && mem(0) == header.instance && AddrAt(mem, 4) == header.dodagid
    ensures Walk(mem, 20, len - 20, NOTHING) == Parsed(Targets(opts), LastTransit(opts, None), extra == 0)
  {
    HoldsParts(mem, 0, header.Print(), PrintAll(opts));
    HeaderFields(mem, header);
    hide Walk, PrintAll, DaoHeader.Print;
    if extra == 0 {
      DaoRoundTrip(mem, 20, opts);
    } else {
      StrayByteAborts(mem, 20, opts);
    }
  }
}
