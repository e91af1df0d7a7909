/** Hexadecimal text as snprintf prints it ("%016llx", "%02x") and sscanf reads it ("%1x", "%02x"). */
module Hex {
  import opened Wrappers
  import opened Rpl

  const DIGITS := "0123456789abcdef"

  function Value(c: char): (r: Option<nat>)
    ensures r.Some? ==> r.value < 16
  {
    if '0' <= c <= '9' then Some((c - '0') as nat)
    else if 'a' <= c <= 'f' then Some((c - 'a') as nat + 10)
    else if 'A' <= c <= 'F' then Some((c - 'A') as nat + 10)
    else None
  }

  lemma DigitValue(n: nat)
    requires n < 16
    ensures Value(DIGITS[n]) == Some(n)
  {
  }

  function Pow16(w: nat): nat {
    if w == 0 then 1 else 16 * Pow16(w - 1)
  }

  /** The lowest w hexadecimal digits of n, most significant first. */
  function Print(n: nat, w: nat): (r: string)
    ensures |r| == w
  {
    if w == 0 then "" else Print(n / 16, w - 1) + [DIGITS[n % 16]]
  }

  /** The value of a digit string, if it is one. */
  function Parse(s: string): Option<nat> {
    if s == "" then Some(0)
    else
      var high, low := Parse(s[..|s| - 1]), Value(s[|s| - 1]);
      if high.Some? && low.Some? then Some(high.value * 16 + low.value) else None
  }

  lemma {:induction false} ParsePrint(n: nat, w: nat)
    requires n < Pow16(w)
    ensures Parse(Print(n, w)) == Some(n)
    decreases w
  {
    if w > 0 {
      ParsePrint(n / 16, w - 1);
      DigitValue(n % 16);
      assert Print(n, w)[..w - 1] == Print(n / 16, w - 1);
    }
  }

  /** Digits of both cases count, and nothing else does. */
  lemma ValueIs(c: char, n: nat)
    ensures Value(c) == Some(n) <==> n < 16 && (c == "0123456789abcdef"[n] || c == "0123456789ABCDEF"[n])
  {
  }

  lemma PowPositive(w: nat)
    ensures Pow16(w) > 0
  {
  }

  /** The i-th of w printed digits is the one of weight 16 to the w - 1 - i. */
  lemma {:induction false} PrintedDigit(n: nat, w: nat, i: nat)
    requires i < w
    ensures Pow16(w - 1 - i) > 0 && Print(n, w)[i] == "0123456789abcdef"[n / Pow16(w - 1 - i) % 16]
    decreases w
  {
    PowPositive(w - 1 - i);
    if i < w - 1 {
      PrintedDigit(n / 16, w - 1, i);
      DivTwice(n, Pow16(w - 2 - i));
    }
  }

  lemma DivTwice(n: nat, p: nat)
    requires p > 0
    ensures n / 16 / p == n / (16 * p)
  {
    var q, r := n / 16 / p, n / 16 % p;
    var rest := 16 * r + n % 16;
    assert n == 16 * (n / 16) + n % 16 && n / 16 == p * q + r;
    assert n == (16 * p) * q + rest by {
      assert 16 * (p * q + r) == (16 * p) * q + 16 * r;
    }
    QuotientIs(n, 16 * p, q, rest);
  }

  lemma QuotientIs(n: nat, d: nat, q: nat, r: nat)
    requires d > 0 && n == d * q + r && r < d
    ensures n / d == q
  {
    var k := n / d - q;
    assert n == d * (n / d) + n % d;
    assert d * k == r - n % d by {
      assert d * (n / d) - d * q == d * k;
    }
    MultipleIsFar(d, k);
  }

  lemma MultipleIsFar(d: int, k: int)
    requires d > 0
    ensures (k > 0 ==> d * k >= d) && (k < 0 ==> d * k <= -d)
  {
  }

  predicate AllDigits(s: string) {
    forall i :: 0 <= i < |s| ==> Value(s[i]).Some?
  }

  lemma {:induction false} ParsesIff(s: string)
    ensures Parse(s).Some? <==> AllDigits(s)
    ensures Parse(s).Some? ==> Parse(s).value < Pow16(|s|)
    decreases |s|
  {
    if s != "" {
      ParsesIff(s[..|s| - 1]);
    }
  }

  function PrintBytes(bytes: seq<byte>): (r: string)
    ensures |r| == 2 * |bytes|
  {
    if bytes == [] then "" else PrintBytes(bytes[..|bytes| - 1]) + Print(bytes[|bytes| - 1], 2)
  }

  /** The bytes are printed in order. */
  lemma {:induction false} PrintedByte(bytes: seq<byte>, i: nat)
    requires i < |bytes|
    ensures PrintBytes(bytes)[2 * i..2 * i + 2] == Print(bytes[i], 2)
    decreases |bytes|
  {
    hide Print;
    var front, last := bytes[..|bytes| - 1], bytes[|bytes| - 1];
    if i < |front| {
      PrintedByte(front, i);
    }
    PairOf(PrintBytes(front), Print(last, 2), 2 * i);
  }

  lemma PairOf(s: string, t: string, p: nat)
    requires |t| == 2 && (p + 2 <= |s| || p == |s|)
    ensures (s + t)[p..p + 2] == if p == |s| then t else s[p..p + 2]
  {
  }

  /** Two digits a byte. */
  function ParseBytes(s: string): (r: Option<seq<byte>>)
    requires |s| % 2 == 0
    ensures r.Some? ==> |r.value| == |s| / 2
  {
    if s == "" then Some([])
    else
      var front, last := ParseBytes(s[..|s| - 2]), Parse(s[|s| - 2..]);
      if front.Some? && last.Some? then
        ParsesIff(s[|s| - 2..]);
        assert Pow16(2) == 256;
        Some(front.value + [last.value])
      else None
  }

  lemma ByteText(b: byte)
    ensures Parse(Print(b, 2)) == Some(b as nat)
  {
    assert Pow16(2) == 256;
    ParsePrint(b, 2);
  }

  lemma ParseOneMore(s: string, t: string, bytes: seq<byte>, b: byte)
    requires |s| % 2 == 0 && |t| == 2 && ParseBytes(s) == Some(bytes) && Parse(t) == Some(b as nat)
    ensures ParseBytes(s + t) == Some(bytes + [b])
  {
    assert (s + t)[..|s + t| - 2] == s && (s + t)[|s + t| - 2..] == t;
  }

  lemma {:induction false} ParsePrintBytes(bytes: seq<byte>)
    ensures ParseBytes(PrintBytes(bytes)) == Some(bytes)
    decreases |bytes|
  {
    hide Print, Parse, Value;
    if bytes != [] {
      var front, last := bytes[..|bytes| - 1], bytes[|bytes| - 1];
      ParsePrintBytes(front);
      ByteText(last);
      assert bytes == front + [last];
      ParseOneMore(PrintBytes(front), Print(last, 2), front, last);
    }
  }

  lemma {:induction false} BytesParseIff(s: string)
    requires |s| % 2 == 0
    ensures ParseBytes(s).Some? <==> AllDigits(s)
    decreases |s|
  {
    if s != "" {
      var front, last := s[..|s| - 2], s[|s| - 2..];
      BytesParseIff(front);
      ParsesIff(last);
      assert s == front + last;
    }
  }

  lemma ParseNothing(s: string)
    ensures ParseBytes(s[..0]) == Some([])
  {
  }

  lemma ParseAll(s: string)
    requires |s| % 2 == 0
    ensures s[..|s|] == s
  {
  }

  /** The pair at i is the next byte of a text whose front has been decoded, or spoils the text. */
  lemma NextPair(s: string, i: nat, bytes: seq<byte>)
    requires |s| % 2 == 0 == i % 2 && i + 2 <= |s| && ParseBytes(s[..i]) == Some(bytes)
    ensures match Parse(s[i..i + 2])
            case None => ParseBytes(s) == None
            case Some(b) => b < 0x100 && ParseBytes(s[..i + 2]) == Some(bytes + [b as byte])
  {
    var pair := s[i..i + 2];
    if Parse(pair).None? {
      BadPair(s, i);
    } else {
      ParsesIff(pair);
      assert Pow16(2) == 0x100;
      assert s[..i + 2] == s[..i] + pair;
      ParseOneMore(s[..i], pair, bytes, Parse(pair).value as byte);
    }
  }

  /** One pair that is no byte spoils the whole text. */
  lemma BadPair(s: string, i: nat)
    requires |s| % 2 == 0 && i + 2 <= |s| && Parse(s[i..i + 2]).None?
    ensures ParseBytes(s).None?
  {
    ParsesIff(s[i..i + 2]);
    BytesParseIff(s);
    assert s[i..i + 2][0] == s[i] && s[i..i + 2][1] == s[i + 1];
    hide Parse, ParseBytes;
  }
}
