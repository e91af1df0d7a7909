/**
 The authenticated class command: printed by hymrpl_cmd.c, checked by verify_hmac of
 hymrpl_adaptive.c. HMAC-SHA256 is an arbitrary function from token and text to 32 bytes.
 */
module Command {
  import opened Wrappers
  import opened Rpl
  import Hex

  const HMAC_LEN := 32
  const NONCE_DIGITS := 16
  const CMD_LEN := 7
  const FIFO_MSG_MAX := 128

  type Digest = s: seq<byte> | |s| == 32 witness seq(32, i => 0)
  type Mac = (seq<byte>, string) -> Digest
  type u64 = x: int | 0 <= x < 0x1_0000_0000_0000_0000

  function Name(cls: Class): (r: string)
    ensures |r| == CMD_LEN
  {
    match cls
    case ClassS => "CLASS_S"
    case ClassN => "CLASS_N"
  }

  // ---- the sender ----

  /** The text the HMAC covers. */
  function Signed(cls: Class, nonce: u64): (r: string)
    ensures |r| == CMD_LEN + 1 + NONCE_DIGITS
  {
    Name(cls) + "|" + Hex.Print(nonce, NONCE_DIGITS)
  }

  function Message(mac: Mac, token: seq<byte>, cls: Class, nonce: u64): string {
    Signed(cls, nonce) + "|" + Hex.PrintBytes(mac(token, Signed(cls, nonce))) + "\n"
  }

  method PrintMessage(mac: Mac, token: seq<byte>, cls: Class, nonce: u64) returns (message: string)
    ensures message == Message(mac, token, cls, nonce)
  {
    var data := Name(cls) + "|" + Hex.Print(nonce, NONCE_DIGITS);
    var hmac := mac(token, data);
    var hmacHex := "";
    for i := 0 to HMAC_LEN
      invariant hmacHex == Hex.PrintBytes(hmac[..i])
    {
      assert hmac[..i + 1][..i] == hmac[..i];
      hmacHex := hmacHex + Hex.Print(hmac[i], 2);
    }
    assert hmac[..HMAC_LEN] == hmac;
    message := Name(cls) + "|" + Hex.Print(nonce, NONCE_DIGITS) + "|" + hmacHex + "\n";
  }

  // ---- the receiver ----

  /** strchr(msg + from, c): the first c at or after from, not beyond a NUL or the end of the message. */
  function StrChr(msg: string, c: char, from: nat): (r: Option<nat>)
    requires c != '\0'
    ensures r.Some? ==> from <= r.value < |msg| && msg[r.value] == c
    ensures r.Some? ==> forall i :: from <= i < r.value ==> msg[i] != c && msg[i] != '\0'
    decreases |msg| - from
  {
    if from >= |msg| || msg[from] == '\0' then None
    else if msg[from] == c then Some(from)
    else StrChr(msg, c, from + 1)
  }

  predicate IsNewline(c: char) { c == '\n' || c == '\r' }

  /** The end of the message without trailing line ends, but not before `from`. */
  function StripEnd(msg: string, from: nat, end: nat): (r: nat)
    requires from <= end <= |msg|
    ensures from <= r <= end
    ensures forall i :: r <= i < end ==> IsNewline(msg[i])
    ensures r > from ==> !IsNewline(msg[r - 1])
  {
    if end > from && IsNewline(msg[end - 1]) then StripEnd(msg, from, end - 1) else end
  }

  /** The class and nonce of an acceptable message. */
  function Verify(mac: Mac, token: seq<byte>, msg: string): Option<(Class, u64)> {
    var pipe1 := StrChr(msg, '|', 0);
    if pipe1.None? then None else
    var pipe2 := StrChr(msg, '|', pipe1.value + 1);
    if pipe2.None? || pipe1.value != CMD_LEN || pipe2.value - pipe1.value - 1 != NONCE_DIGITS then None else
    var start := pipe2.value + 1;
    var end := StripEnd(msg, start, |msg|);
    if end - start != 2 * HMAC_LEN then None else
    Judge(mac, token, msg[..CMD_LEN], msg[CMD_LEN + 1..pipe2.value], msg[start..end])
  }

  /** The three fields of a message with both separators in place. */
  function Judge(mac: Mac, token: seq<byte>, cmd: string, digits: string, field: string): Option<(Class, u64)>
    requires |cmd| == CMD_LEN && |digits| == NONCE_DIGITS && |field| == 2 * HMAC_LEN
  {
    var received, nonce := Hex.ParseBytes(field), Hex.Parse(digits);
    if received.None? || received.value != mac(token, cmd + "|" + digits) || nonce.None? then None
    else if cmd == Name(ClassN) then Some((ClassN, ToU64(nonce.value, digits)))
    else if cmd == Name(ClassS) then Some((ClassS, ToU64(nonce.value, digits)))
    else None
  }

  /** Sixteen digits always fit 64 bits. */
  function ToU64(n: nat, digits: string): u64
    requires |digits| == NONCE_DIGITS && Hex.Parse(digits) == Some(n)
  {
    Hex.ParsesIff(digits);
    Pow16Values();
    n
  }

  lemma Pow16Values()
    ensures Hex.Pow16(NONCE_DIGITS) == 0x1_0000_0000_0000_0000
  {
    assert Hex.Pow16(4) == 0x1_0000;
    assert Hex.Pow16(8) == 0x1_0000_0000;
    assert Hex.Pow16(12) == 0x1_0000_0000_0000;
  }

  method FindChar(msg: string, c: char, from: nat) returns (r: Option<nat>)
    requires c != '\0'
    ensures r == StrChr(msg, c, from)
  {
    var i := from;
    while i < |msg| && msg[i] != '\0'
      invariant StrChr(msg, c, from) == StrChr(msg, c, i)
      decreases |msg| - i
    {
      if msg[i] == c {
        return Some(i);
      }
      i := i + 1;
    }
    r := None;
  }

  /** Decodes the HMAC field two digits at a time. */
  method DecodeBytes(s: string) returns (r: Option<seq<byte>>)
    requires |s| == 2 * HMAC_LEN
    ensures r == Hex.ParseBytes(s)
  {
    var bytes: seq<byte> := [];
    Hex.ParseNothing(s);
    hide Hex.ParseBytes, Hex.Parse;
    for i := 0 to HMAC_LEN
      invariant Hex.ParseBytes(s[..2 * i]) == Some(bytes)
    {
      var b := Hex.Parse(s[2 * i..2 * i + 2]);
      Hex.NextPair(s, 2 * i, bytes);
      if b.None? {
        return None;
      }
      bytes := bytes + [b.value];
    }
    Hex.ParseAll(s);
    r := Some(bytes);
  }

  /** Shifts the nonce in, one digit at a time. */
  method DecodeNonce(digits: string) returns (r: Option<nat>)
    ensures r == Hex.Parse(digits)
  {
    var nonce: nat := 0;
    for i := 0 to |digits|
      invariant Hex.Parse(digits[..i]) == Some(nonce)
    {
      assert digits[..i + 1][..i] == digits[..i];
      var nibble := Hex.Value(digits[i]);
      if nibble.None? {
        Hex.ParsesIff(digits);
        return None;
      }
      nonce := nonce * 16 + nibble.value;
    }
    assert digits[..|digits|] == digits;
    r := Some(nonce);
  }

  /** Looks at all 32 bytes before it answers. */
  method SameDigest(expected: Digest, received: seq<byte>) returns (same: bool)
    requires |received| == HMAC_LEN
    ensures same == (expected == received)
  {
    var diff := false;
    for i := 0 to HMAC_LEN
      invariant diff <==> exists j :: 0 <= j < i && expected[j] != received[j]
    {
      diff := diff || expected[i] != received[i];
    }
    same := !diff;
  }

  method VerifyHmac(mac: Mac, token: seq<byte>, msg: string) returns (r: Option<(Class, u64)>)
    ensures r == Verify(mac, token, msg)
  {
    r := None;
    var pipe1 := FindChar(msg, '|', 0);
    if pipe1.None? {
      return;
    }
    var pipe2 := FindChar(msg, '|', pipe1.value + 1);
    if pipe2.None? || pipe1.value != CMD_LEN || pipe2.value - pipe1.value - 1 != NONCE_DIGITS {
      return;
    }
    var start := pipe2.value + 1;
    var end := |msg|;
    while end > start && IsNewline(msg[end - 1])
      invariant start <= end <= |msg| && StripEnd(msg, start, |msg|) == StripEnd(msg, start, end)
    {
      end := end - 1;
    }
    if end - start != 2 * HMAC_LEN {
      return;
    }
    var cmd, digits := msg[..CMD_LEN], msg[CMD_LEN + 1..pipe2.value];
    var received := DecodeBytes(msg[start..end]);
    if received.None? {
      return;
    }
    var same := SameDigest(mac(token, cmd + "|" + digits), received.value);
    if !same {
      return;
    }
    var nonce := DecodeNonce(digits);
    if nonce.None? {
      return;
    }
    if cmd == Name(ClassN) {
      r := Some((ClassN, ToU64(nonce.value, digits)));
    } else if cmd == Name(ClassS) {
      r := Some((ClassS, ToU64(nonce.value, digits)));
    }
  }

  // ---- what acceptance means ----

  /** The shape of an acceptable message: command, nonce, HMAC field, line ends. */
  ghost predicate Shaped(msg: string, cls: Class, digits: string, field: string, tail: string) {
    && |digits| == NONCE_DIGITS && |field| == 2 * HMAC_LEN
    && (forall i :: 0 <= i < |tail| ==> IsNewline(tail[i]))
    && msg == Name(cls) + "|" + digits + "|" + field + tail
  }

  /** ... whose field is the HMAC of everything before the second bar, in hexadecimal. */
  ghost predicate Authentic(mac: Mac, token: seq<byte>, msg: string, cls: Class, nonce: u64,
                            digits: string, field: string, tail: string) {
    && Shaped(msg, cls, digits, field, tail)
    && Hex.Parse(digits) == Some(nonce as nat)
    && Hex.ParseBytes(field) == Some(mac(token, Name(cls) + "|" + digits))
  }

  /** An accepted message is authentic, with the bytes before its second bar as the signed text. */
  lemma AcceptedIsAuthentic(mac: Mac, token: seq<byte>, msg: string, cls: Class, nonce: u64)
    requires Verify(mac, token, msg) == Some((cls, nonce))
    ensures |msg| >= 89 && Authentic(mac, token, msg, cls, nonce, msg[8..24], msg[25..89], msg[89..])
  {
    var pipe1 := StrChr(msg, '|', 0);
    var pipe2 := StrChr(msg, '|', pipe1.value + 1);
    var end := StripEnd(msg, 25, |msg|);
    assert pipe1 == Some(7) && pipe2 == Some(24) && end == 89;
    assert msg[..7] == Name(cls);
    assert msg == msg[..7] + "|" + msg[8..24] + "|" + msg[25..89] + msg[89..];
  }

  lemma {:induction false} FindsAt(msg: string, c: char, from: nat, to: nat)
    requires c != '\0' && from <= to < |msg| && msg[to] == c
    requires forall i :: from <= i < to ==> msg[i] != c && msg[i] != '\0'
    ensures StrChr(msg, c, from) == Some(to)
    decreases |msg| - from
  {
    if from < to {
      FindsAt(msg, c, from + 1, to);
    }
  }

  lemma {:induction false} StripsTo(msg: string, from: nat, end: nat, r: nat)
    requires from < r <= end <= |msg| && !IsNewline(msg[r - 1])
    requires forall i :: r <= i < end ==> IsNewline(msg[i])
    ensures StripEnd(msg, from, end) == r
    decreases end
  {
    if r < end {
      StripsTo(msg, from, end - 1, r);
    }
  }

  lemma DigitsArePlain(s: string)
    requires Hex.AllDigits(s)
    ensures forall i :: 0 <= i < |s| ==> s[i] != '|' && s[i] != '\0' && !IsNewline(s[i])
  {
  }

  /** Where the separators of a well-shaped message lie. */
  lemma ShapeIsFound(msg: string, cls: Class, digits: string, field: string, tail: string)
    requires Shaped(msg, cls, digits, field, tail) && Hex.AllDigits(digits) && Hex.AllDigits(field)
    ensures msg[..7] == Name(cls) && msg[8..24] == digits && msg[25..89] == field && msg[89..] == tail
    ensures StrChr(msg, '|', 0) == Some(7) && StrChr(msg, '|', 8) == Some(24) && StripEnd(msg, 25, |msg|) == 89
  {
    ShapeIsCut(msg, cls, digits, field, tail);
    DigitsArePlain(digits);
    DigitsArePlain(field);
    hide Hex.AllDigits, Shaped, StrChr, StripEnd;
    assert forall i :: 0 <= i < 7 ==> msg[i] == msg[..7][i];
    assert forall i :: 8 <= i < 24 ==> msg[i] == msg[8..24][i - 8];
    assert msg[88] == msg[25..89][63];
    assert forall i :: 89 <= i < |msg| ==> msg[i] == msg[89..][i - 89];
    FindsAt(msg, '|', 0, 7);
    FindsAt(msg, '|', 8, 24);
    StripsTo(msg, 25, |msg|, 89);
  }

  lemma ShapeIsCut(msg: string, cls: Class, digits: string, field: string, tail: string)
    requires Shaped(msg, cls, digits, field, tail)
    ensures |msg| == 89 + |tail| && msg[7] == '|' && msg[24] == '|'
    ensures msg[..7] == Name(cls) && msg[8..24] == digits && msg[25..89] == field && msg[89..] == tail
    ensures forall i :: 0 <= i < |tail| ==> IsNewline(tail[i])
  {
    var front := Name(cls) + "|" + digits + "|" + field;
    assert |front| == 89 && msg == front + tail;
    assert front[..7] == Name(cls) && front[8..24] == digits && front[25..89] == field;
  }

  /** Every authentic message is accepted, with its class and nonce. */
  lemma AuthenticIsAccepted(mac: Mac, token: seq<byte>, msg: string, cls: Class, nonce: u64,
                            digits: string, field: string, tail: string)
    requires Authentic(mac, token, msg, cls, nonce, digits, field, tail)
    ensures Verify(mac, token, msg) == Some((cls, nonce))
  {
    Hex.ParsesIff(digits);
    Hex.BytesParseIff(field);
    FoundFieldsAreJudged(mac, token, msg, cls, digits, field, tail);
  }

  lemma FoundFieldsAreJudged(mac: Mac, token: seq<byte>, msg: string, cls: Class, digits: string, field: string, tail: string)
    requires Shaped(msg, cls, digits, field, tail) && Hex.AllDigits(digits) && Hex.AllDigits(field)
    ensures Verify(mac, token, msg) == Judge(mac, token, Name(cls), digits, field)
  {
    ShapeIsFound(msg, cls, digits, field, tail);
    hide Judge, Hex.AllDigits, StrChr, StripEnd, Shaped;
  }

  /** The receiver accepts exactly the authentic messages. */
  lemma AcceptedIffAuthentic(mac: Mac, token: seq<byte>, msg: string, cls: Class, nonce: u64)
    ensures Verify(mac, token, msg) == Some((cls, nonce)) <==>
            |msg| >= 89 && Authentic(mac, token, msg, cls, nonce, msg[8..24], msg[25..89], msg[89..])
  {
    if Verify(mac, token, msg) == Some((cls, nonce)) {
      AcceptedIsAuthentic(mac, token, msg, cls, nonce);
    }
    if |msg| >= 89 && Authentic(mac, token, msg, cls, nonce, msg[8..24], msg[25..89], msg[89..]) {
      AuthenticIsAccepted(mac, token, msg, cls, nonce, msg[8..24], msg[25..89], msg[89..]);
    }
  }

  /** Round trip: whatever the class, nonce and token, the printed message fits one read and is accepted as sent. */
  lemma CommandRoundTrip(mac: Mac, token: seq<byte>, cls: Class, nonce: u64)
    ensures |Message(mac, token, cls, nonce)| < FIFO_MSG_MAX
    ensures Verify(mac, token, Message(mac, token, cls, nonce)) == Some((cls, nonce))
  {
    var digits := Hex.Print(nonce, NONCE_DIGITS);
    var digest := mac(token, Signed(cls, nonce));
    Pow16Values();
    Hex.ParsePrint(nonce, NONCE_DIGITS);
    Hex.ParsePrintBytes(digest);
    assert Message(mac, token, cls, nonce) == Name(cls) + "|" + digits + "|" + Hex.PrintBytes(digest) + "\n";
    hide Hex.Print, Hex.PrintBytes, Hex.Parse, Hex.ParseBytes;
    AuthenticIsAccepted(mac, token, Message(mac, token, cls, nonce), cls, nonce, digits, Hex.PrintBytes(digest), "\n");
  }

  /** No two commands are signed by the same text. */
  lemma SignedIsInjective(c1: Class, n1: u64, c2: Class, n2: u64)
    requires Signed(c1, n1) == Signed(c2, n2)
    ensures c1 == c2 && n1 == n2
  {
    var d1, d2 := Hex.Print(n1, NONCE_DIGITS), Hex.Print(n2, NONCE_DIGITS);
    assert Signed(c1, n1)[6] == Name(c1)[6] && Signed(c2, n2)[6] == Name(c2)[6];
    assert Signed(c1, n1)[8..] == d1 && Signed(c2, n2)[8..] == d2;
    Pow16Values();
    Hex.ParsePrint(n1, NONCE_DIGITS);
    Hex.ParsePrint(n2, NONCE_DIGITS);
  }

  lemma AcceptedEndsInNewlines(mac: Mac, token: seq<byte>, msg: string)
    requires Verify(mac, token, msg).Some?
    ensures forall i :: 89 <= i < |msg| ==> IsNewline(msg[i])
  {
    var v := Verify(mac, token, msg).value;
    AcceptedIsAuthentic(mac, token, msg, v.0, v.1);
    hide Judge, StrChr, StripEnd;
    forall i | 89 <= i < |msg|
      ensures IsNewline(msg[i])
    {
      assert msg[i] == msg[89..][i - 89];
    }
  }
}
