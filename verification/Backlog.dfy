/**
 Commands that wait in the FIFO: a FIFO keeps no message boundaries, and each look at it takes up to
 127 bytes, while a signed command has 90 and a plain one 8 (hymrpl_fifo_sec_check of hymrpl_adaptive.c).
 */
module Backlog {
  import opened Wrappers
  import opened Rpl
  import opened Command
  import opened FifoSec
  import Hex

  const READ_MAX := FIFO_MSG_MAX - 1
  const MSG_LEN := 90

  datatype Cmd = Cmd(cls: Class, nonce: u64)

  /** The commands printed into the FIFO one after the other. */
  function Stream(mac: Mac, token: seq<byte>, cmds: seq<Cmd>): (r: string)
    ensures |r| == MSG_LEN * |cmds|
  {
    if cmds == [] then ""
    else Stream(mac, token, cmds[..|cmds| - 1]) + Message(mac, token, cmds[|cmds| - 1].cls, cmds[|cmds| - 1].nonce)
  }

  /** What the i-th look takes out of the FIFO, counted from zero. */
  function Taken(stream: string, i: nat): string {
    if READ_MAX * (i + 1) <= |stream| then stream[READ_MAX * i..READ_MAX * (i + 1)]
    else if READ_MAX * i <= |stream| then stream[READ_MAX * i..]
    else ""
  }

  lemma {:induction false} MessageAt(mac: Mac, token: seq<byte>, cmds: seq<Cmd>, k: nat)
    requires k < |cmds|
    ensures MSG_LEN * (k + 1) <= |Stream(mac, token, cmds)|
    ensures Stream(mac, token, cmds)[MSG_LEN * k..MSG_LEN * (k + 1)] == Message(mac, token, cmds[k].cls, cmds[k].nonce)
    decreases |cmds|
  {
    hide Message;
    var init := cmds[..|cmds| - 1];
    if k < |init| {
      MessageAt(mac, token, init, k);
      assert Stream(mac, token, cmds)[MSG_LEN * k..MSG_LEN * (k + 1)] == Stream(mac, token, init)[MSG_LEN * k..MSG_LEN * (k + 1)];
    }
  }

  lemma {:induction false} PrintedDigits(n: nat, w: nat)
    ensures forall i :: 0 <= i < w ==> Hex.Print(n, w)[i] != 'C'
    decreases w
  {
    if w > 0 {
      PrintedDigits(n / 16, w - 1);
    }
  }

  lemma {:induction false} PrintedBytes(bytes: seq<byte>)
    ensures forall i :: 0 <= i < 2 * |bytes| ==> Hex.PrintBytes(bytes)[i] != 'C'
    decreases |bytes|
  {
    if bytes != [] {
      PrintedBytes(bytes[..|bytes| - 1]);
      PrintedDigits(bytes[|bytes| - 1], 2);
    }
  }

  /** A printed command has its only C at the front. */
  lemma FrontIsMarked(mac: Mac, token: seq<byte>, cls: Class, nonce: u64, i: nat)
    requires i < MSG_LEN
    ensures |Message(mac, token, cls, nonce)| == MSG_LEN
    ensures Message(mac, token, cls, nonce)[i] == 'C' <==> i == 0
  {
    PrintedDigits(nonce, NONCE_DIGITS);
    PrintedBytes(mac(token, Signed(cls, nonce)));
  }

  /** The C's of the stream are the fronts of its messages. */
  lemma FrontsAreMarked(mac: Mac, token: seq<byte>, cmds: seq<Cmd>, p: nat)
    requires p < MSG_LEN * |cmds|
    ensures Stream(mac, token, cmds)[p] == 'C' <==> p % MSG_LEN == 0
  {
    var k, i := p / MSG_LEN, p % MSG_LEN;
    MessageAt(mac, token, cmds, k);
    FrontIsMarked(mac, token, cmds[k].cls, cmds[k].nonce, i);
    hide Message, Stream;
    assert Stream(mac, token, cmds)[p] == Stream(mac, token, cmds)[MSG_LEN * k..MSG_LEN * (k + 1)][i];
  }

  lemma AcceptedStartsWithC(mac: Mac, token: seq<byte>, msg: string)
    requires Verify(mac, token, msg).Some?
    ensures |msg| >= 89 && msg[0] == 'C'
  {
    var v := Verify(mac, token, msg).value;
    AcceptedIsAuthentic(mac, token, msg, v.0, v.1);
    hide Verify;
    assert msg[0] == Name(v.0)[0];
  }

  /** 127 and 90 have no common factor: a look begins at the front of a message once in 90 looks. */
  lemma FrontsAndLooks(i: nat)
    requires READ_MAX * i % MSG_LEN == 0
    ensures i % MSG_LEN == 0 && READ_MAX * i == MSG_LEN * (READ_MAX * (i / MSG_LEN))
  {
    var q := READ_MAX * i / MSG_LEN;
    assert i == MSG_LEN * (73 * q - 103 * i);
  }

  /** The look that begins at the front of the last of n messages. */
  lemma LookAtLast(n: nat, i: nat)
    requires READ_MAX * i < MSG_LEN * n && i % MSG_LEN == 0
    ensures READ_MAX * (i / MSG_LEN) + 1 == n <==> n % READ_MAX == 1 && i == MSG_LEN * (n / READ_MAX)
  {
    var j := i / MSG_LEN;
    assert i == MSG_LEN * j && READ_MAX * j < n;
  }

  lemma WrongFront(mac: Mac, token: seq<byte>, msg: string)
    requires msg != "" && msg[0] != 'C'
    ensures Verify(mac, token, msg) == None
  {
    hide Verify;
    if Verify(mac, token, msg).Some? {
      AcceptedStartsWithC(mac, token, msg);
    }
  }

  lemma WrongEnd(mac: Mac, token: seq<byte>, msg: string)
    requires |msg| > MSG_LEN && msg[MSG_LEN] == 'C'
    ensures Verify(mac, token, msg) == None
  {
    hide Verify;
    if Verify(mac, token, msg).Some? {
      AcceptedEndsInNewlines(mac, token, msg);
    }
  }

  /** What a look that begins at p takes: the rest of the stream, or 127 bytes. */
  lemma TakenFrom(stream: string, i: nat, p: nat)
    requires p == READ_MAX * i < |stream|
    ensures |stream| - p < READ_MAX ==> Taken(stream, i) == stream[p..]
    ensures |stream| - p > MSG_LEN ==> |Taken(stream, i)| > MSG_LEN && Taken(stream, i)[MSG_LEN] == stream[p + MSG_LEN]
    ensures Taken(stream, i) != "" && Taken(stream, i)[0] == stream[p]
  {
  }

  lemma LookAtLastMessage(mac: Mac, token: seq<byte>, cmds: seq<Cmd>, i: nat)
    requires cmds != [] && READ_MAX * i == MSG_LEN * (|cmds| - 1)
    ensures var last := cmds[|cmds| - 1]; Verify(mac, token, Taken(Stream(mac, token, cmds), i)) == Some((last.cls, last.nonce))
  {
    var stream, k := Stream(mac, token, cmds), |cmds| - 1;
    hide Stream, Message, Verify, Taken;
    MessageAt(mac, token, cmds, k);
    TakenFrom(stream, i, MSG_LEN * k);
    assert stream[MSG_LEN * k..] == stream[MSG_LEN * k..MSG_LEN * (k + 1)];
    CommandRoundTrip(mac, token, cmds[k].cls, cmds[k].nonce);
  }

  /** A look that begins at the front of an earlier message takes in the front of the next one. */
  lemma LookAtFront(mac: Mac, token: seq<byte>, cmds: seq<Cmd>, i: nat, k: nat)
    requires READ_MAX * i == MSG_LEN * k && k + 1 < |cmds|
    ensures Verify(mac, token, Taken(Stream(mac, token, cmds), i)) == None
  {
    var stream, q := Stream(mac, token, cmds), MSG_LEN * (k + 1);
    hide Stream, Message, Verify, Taken;
    FrontsAreMarked(mac, token, cmds, q);
    TakenFrom(stream, i, MSG_LEN * k);
    WrongEnd(mac, token, Taken(stream, i));
  }

  /**
   However many commands wait, with whatever nonces, all looks at the FIFO reject what they take,
   except that the last command is accepted exactly if one more than a multiple of 127 were waiting.
   */
  lemma BacklogAcceptedIff(mac: Mac, token: seq<byte>, cmds: seq<Cmd>, i: nat)
    requires READ_MAX * i < MSG_LEN * |cmds|
    ensures Verify(mac, token, Taken(Stream(mac, token, cmds), i)) ==
            if |cmds| % READ_MAX == 1 && i == MSG_LEN * (|cmds| / READ_MAX)
            then Some((cmds[|cmds| - 1].cls, cmds[|cmds| - 1].nonce)) else None
  {
    var stream, p := Stream(mac, token, cmds), READ_MAX * i;
    hide Stream, Message, Verify, Taken;
    FrontsAreMarked(mac, token, cmds, p);
    TakenFrom(stream, i, p);
    if p % MSG_LEN != 0 {
      WrongFront(mac, token, Taken(stream, i));
    } else {
      FrontsAndLooks(i);
      LookAtLast(|cmds|, i);
      var k := READ_MAX * (i / MSG_LEN);
      if k + 1 == |cmds| {
        LookAtLastMessage(mac, token, cmds, i);
      } else {
        LookAtFront(mac, token, cmds, i, k);
      }
    }
  }

  // ---- without a token ----

  const LINE_LEN := 8

  /** Plain commands, a line each. */
  function Lines(cmds: seq<Class>): (r: string)
    ensures |r| == LINE_LEN * |cmds|
  {
    if cmds == [] then "" else Lines(cmds[..|cmds| - 1]) + Name(cmds[|cmds| - 1]) + "\n"
  }

  /** Look i takes the whole of the k-th name. */
  predicate Sees(i: nat, k: nat) {
    READ_MAX * i <= LINE_LEN * k && LINE_LEN * k + CMD_LEN <= READ_MAX * (i + 1)
  }

  ghost predicate SeesClass(cmds: seq<Class>, i: nat, cls: Class) {
    exists k: nat :: k < |cmds| && Sees(i, k) && cmds[k] == cls
  }

  lemma {:induction false} LineAt(cmds: seq<Class>, k: nat)
    requires k < |cmds|
    ensures Lines(cmds)[LINE_LEN * k..LINE_LEN * (k + 1)] == Name(cmds[k]) + "\n"
    decreases |cmds|
  {
    hide Name;
    var init := cmds[..|cmds| - 1];
    if k < |init| {
      LineAt(init, k);
      assert Lines(cmds)[LINE_LEN * k..LINE_LEN * (k + 1)] == Lines(init)[LINE_LEN * k..LINE_LEN * (k + 1)];
    }
  }

  /** The C's of the lines are their fronts. */
  lemma LinesAreMarked(cmds: seq<Class>, k: nat, p: nat, i: nat)
    requires k < |cmds| && p == LINE_LEN * k + i && i < LINE_LEN
    ensures Lines(cmds)[p] == 'C' <==> i == 0
  {
    LineAt(cmds, k);
    LineIsMarked(cmds[k], i);
    hide Lines, Name;
    PieceAt(Lines(cmds), p - i, p - i + LINE_LEN, p);
  }

  lemma PieceAt(s: string, from: nat, to: nat, p: nat)
    requires from <= p < to <= |s|
    ensures s[from..to][p - from] == s[p]
  {
  }

  lemma LineIsMarked(cls: Class, i: nat)
    requires i < LINE_LEN
    ensures (Name(cls) + "\n")[i] == 'C' <==> i == 0
  {
  }

  lemma NameAt(cmds: seq<Class>, k: nat)
    requires k < |cmds|
    ensures Lines(cmds)[LINE_LEN * k..LINE_LEN * k + CMD_LEN] == Name(cmds[k])
  {
    LineAt(cmds, k);
    hide Lines, Name;
    var line := Lines(cmds)[LINE_LEN * k..LINE_LEN * (k + 1)];
    assert line[..CMD_LEN] == Name(cmds[k]) && line[..CMD_LEN] == Lines(cmds)[LINE_LEN * k..LINE_LEN * k + CMD_LEN];
  }

  lemma NamesDiffer(a: Class, b: Class)
    ensures Name(a) == Name(b) <==> a == b
    ensures Name(a)[0] == 'C'
  {
    assert Name(ClassS)[6] != Name(ClassN)[6];
  }

  /** The whole of the k-th name lies in the piece from `from` to `to`. */
  predicate Within(from: nat, to: nat, k: nat) {
    from <= LINE_LEN * k && LINE_LEN * k + CMD_LEN <= to
  }

  lemma NameIsLine(cmds: seq<Class>, p: nat, cls: Class) returns (k: nat)
    requires p + CMD_LEN <= LINE_LEN * |cmds| && Lines(cmds)[p..p + CMD_LEN] == Name(cls)
    ensures k < |cmds| && p == LINE_LEN * k && cmds[k] == cls
  {
    hide Lines, Name;
    NamesDiffer(cls, cls);
    assert Lines(cmds)[p] == Lines(cmds)[p..p + CMD_LEN][0];
    k := p / LINE_LEN;
    LinesAreMarked(cmds, k, p, p % LINE_LEN);
    NameAt(cmds, k);
    NamesDiffer(cls, cmds[k]);
  }

  lemma PieceOfPiece(stream: string, from: nat, to: nat, p: nat, n: nat)
    requires from <= p && p + n <= to <= |stream|
    ensures stream[from..to][p - from..p - from + n] == stream[p..p + n]
  {
    var x, y := stream[from..to][p - from..p - from + n], stream[p..p + n];
    assert |x| == |y| && forall m :: 0 <= m < n ==> x[m] == y[m];
  }

  lemma StandsInPiece(stream: string, from: nat, to: nat, p: nat, pattern: string)
    requires from <= p && p + |pattern| <= to <= |stream| && stream[p..p + |pattern|] == pattern
    ensures Contains(stream[from..to], pattern)
  {
    PieceOfPiece(stream, from, to, p, |pattern|);
    assert MatchesAt(stream[from..to], pattern, p - from);
  }

  lemma ContainedIsLine(cmds: seq<Class>, from: nat, to: nat, cls: Class) returns (k: nat)
    requires from <= to <= LINE_LEN * |cmds| && Contains(Lines(cmds)[from..to], Name(cls))
    ensures k < |cmds| && Within(from, to, k) && cmds[k] == cls
  {
    var piece := Lines(cmds)[from..to];
    hide Lines, Name;
    var m :| 0 <= m <= |piece| && MatchesAt(piece, Name(cls), m);
    PieceOfPiece(Lines(cmds), from, to, from + m, CMD_LEN);
    k := NameIsLine(cmds, from + m, cls);
  }

  lemma NameWithin(cmds: seq<Class>, from: nat, to: nat, k: nat) returns (p: nat)
    requires to <= LINE_LEN * |cmds| && k < |cmds| && Within(from, to, k)
    ensures from <= p && p + CMD_LEN <= to && Lines(cmds)[p..p + CMD_LEN] == Name(cmds[k])
  {
    p := LINE_LEN * k;
    NameAt(cmds, k);
  }

  lemma LineIsContained(cmds: seq<Class>, from: nat, to: nat, k: nat)
    requires from <= to <= LINE_LEN * |cmds| && k < |cmds| && Within(from, to, k)
    ensures Contains(Lines(cmds)[from..to], Name(cmds[k]))
  {
    hide Lines, Name, Within, Contains;
    var p := NameWithin(cmds, from, to, k);
    StandsInPiece(Lines(cmds), from, to, p, Name(cmds[k]));
  }

  ghost predicate NoNul(s: string) {
    forall i :: 0 <= i < |s| ==> s[i] != '\0'
  }

  lemma {:induction false} LinesHaveNoNul(cmds: seq<Class>)
    ensures NoNul(Lines(cmds))
    decreases |cmds|
  {
    if cmds != [] {
      LinesHaveNoNul(cmds[..|cmds| - 1]);
    }
  }

  lemma PieceHasNoNul(s: string, from: nat, to: nat)
    requires NoNul(s) && from <= to <= |s|
    ensures NoNul(s[from..to])
  {
  }

  lemma LinesArePlain(cmds: seq<Class>, from: nat, to: nat)
    requires from <= to <= |Lines(cmds)|
    ensures CString(Lines(cmds)[from..to]) == Lines(cmds)[from..to]
  {
    hide Lines, CString;
    LinesHaveNoNul(cmds);
    PieceHasNoNul(Lines(cmds), from, to);
    PlainText(Lines(cmds)[from..to]);
  }

  /** The piece of the stream that look i takes. */
  lemma LookIsPiece(cmds: seq<Class>, i: nat) returns (from: nat, to: nat)
    requires READ_MAX * i < LINE_LEN * |cmds|
    ensures from <= to <= LINE_LEN * |cmds| && Taken(Lines(cmds), i) == Lines(cmds)[from..to]
    ensures forall k: nat :: k < |cmds| ==> (Sees(i, k) <==> Within(from, to, k))
  {
    hide Lines;
    from := READ_MAX * i;
    to := if READ_MAX * (i + 1) <= LINE_LEN * |cmds| then READ_MAX * (i + 1) else LINE_LEN * |cmds|;
  }

  /** A name stands in what look i takes exactly if it is one that look i sees. */
  lemma SeesClassIff(cmds: seq<Class>, i: nat, cls: Class)
    requires READ_MAX * i < LINE_LEN * |cmds|
    ensures Contains(Taken(Lines(cmds), i), Name(cls)) <==> SeesClass(cmds, i, cls)
  {
    hide Lines, Name, Contains, Taken, Within, Sees;
    var from, to := LookIsPiece(cmds, i);
    if Contains(Lines(cmds)[from..to], Name(cls)) {
      var k := ContainedIsLine(cmds, from, to, cls);
    }
    if k: nat :| k < |cmds| && Sees(i, k) && cmds[k] == cls {
      LineIsContained(cmds, from, to, k);
    }
  }

  lemma TakenIsPlain(cmds: seq<Class>, i: nat)
    requires READ_MAX * i < LINE_LEN * |cmds|
    ensures CString(Taken(Lines(cmds), i)) == Taken(Lines(cmds), i)
  {
    hide Lines, Taken, Within, Sees, CString;
    var from, to := LookIsPiece(cmds, i);
    LinesArePlain(cmds, from, to);
  }

  /**
   Without a token each look obeys one command at most, whatever is waiting: class N if it takes the
   whole of any line that says so, whichever came last, else class S if it takes one of those.
   */
  lemma PlainBacklog(cmds: seq<Class>, i: nat)
    requires READ_MAX * i < LINE_LEN * |cmds|
    ensures LegacyClass(Taken(Lines(cmds), i)) ==
            if SeesClass(cmds, i, ClassN) then Some(ClassN)
            else if SeesClass(cmds, i, ClassS) then Some(ClassS) else None
  {
    hide Lines, Taken, Contains, SeesClass, CString;
    SeesClassIff(cmds, i, ClassN);
    SeesClassIff(cmds, i, ClassS);
    TakenIsPlain(cmds, i);
  }

  /** Look i ends inside the k-th name, so that part of it is left to the next one. */
  predicate Cuts(i: nat, k: nat) {
    LINE_LEN * k < READ_MAX * (i + 1) < LINE_LEN * k + CMD_LEN
  }

  /** A command goes unseen exactly if some look ends inside its name. */
  lemma UnseenIff(k: nat)
    ensures (forall i: nat :: !Sees(i, k)) <==> exists i: nat :: Cuts(i, k)
  {
    LookAt(k);
    hide Sees, Cuts;
    forall i: nat, j: nat
      ensures !(Sees(i, k) && Cuts(j, k))
    {
      SeenIsNotCut(i, j, k);
    }
  }

  lemma LookAt(k: nat)
    ensures Sees(LINE_LEN * k / READ_MAX, k) || Cuts(LINE_LEN * k / READ_MAX, k)
  {
    var i := LINE_LEN * k / READ_MAX;
    assert READ_MAX * i <= LINE_LEN * k < READ_MAX * (i + 1);
    assert (READ_MAX * (i + 1) - LINE_LEN * k) > 0;
  }

  lemma SeenIsNotCut(i: nat, j: nat, k: nat)
    ensures !(Sees(i, k) && Cuts(j, k))
  {
  }
}
