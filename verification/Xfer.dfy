/**
 * Serving an XML object in pieces: the request names an offset and a length in hex, the reply
 * is one piece marked `m` while more follows and `l` on the last.
 */
module Xfer {
  import opened Words
  import opened Rsp

  const COLON: u8 := 0x3A
  const COMMA: u8 := 0x2C
  const MORE: u8 := 0x6D
  const LAST: u8 := 0x6C

  // ---- numbers in hex ----

  predicate AllHex(s: seq<u8>) {
    forall i :: 0 <= i < |s| ==> HexVal(s[i]).Some?
  }

  function Value(s: seq<u8>): nat
    requires AllHex(s)
  {
    if s == [] then 0 else 16 * Value(s[..|s| - 1]) + HexVal(s[|s| - 1]).value
  }

  /** How many digits lead `s`. */
  function Digits(s: seq<u8>): (n: nat)
    ensures n <= |s| && AllHex(s[..n]) && (n < |s| ==> HexVal(s[n]).None?)
  {
    if s == [] || HexVal(s[0]).None? then 0 else
      var n := Digits(s[1..]);
      assert s[..1 + n] == [s[0]] + s[1..][..n];
      1 + n
  }

  lemma {:induction false} DigitsUnique(s: seq<u8>, n: nat)
    requires n <= |s| && AllHex(s[..n]) && (n < |s| ==> HexVal(s[n]).None?)
    ensures Digits(s) == n
  {
    if n > 0 {
      assert s[..n][0] == s[0];
      assert s[1..][..n - 1] == s[..n][1..];
      DigitsUnique(s[1..], n - 1);
    }
  }

  lemma ModStep(v: nat, d: nat)
    ensures (16 * (v % TOP) + d) % TOP == (16 * v + d) % TOP
  {
    var q := v / TOP;
    assert 16 * v + d == 16 * (v % TOP) + d + TOP * (16 * q);
  }

  /** The leading digits as a 32-bit number, and how many there were. */
  method HexToU32(s: seq<u8>) returns (v: u32, i: nat)
    ensures i == Digits(s) && v == Value(s[..i]) % TOP
  {
    v, i := 0, 0;
    while i < |s|
      invariant i <= |s| && AllHex(s[..i]) && v == Value(s[..i]) % TOP
    {
      var d := HexVal(s[i]);
      if d.None? {
        DigitsUnique(s, i);
        return;
      }
      assert s[..i + 1][..i] == s[..i];
      ModStep(Value(s[..i]), d.value);
      v := (16 * v + d.value) % TOP;
      i := i + 1;
    }
    DigitsUnique(s, i);
  }

  /** A number as a client prints it. */
  function HexText(v: nat): (s: seq<u8>)
    ensures AllHex(s) && Value(s) == v
  {
    if v < 16 then
      HexRoundTrip(v);
      var s := [HexDigit(v)];
      assert s[..0] == [];
      s
    else
      HexRoundTrip(v % 16);
      var s := HexText(v / 16) + [HexDigit(v % 16)];
      assert s[..|s| - 1] == HexText(v / 16);
      s
  }

  // ---- the request ----

  /** Just past the last colon, or the start. */
  function AfterColon(p: seq<u8>): (i: nat)
    ensures i <= |p|
  {
    if p == [] then 0 else if p[|p| - 1] == COLON then |p| else AfterColon(p[..|p| - 1])
  }

  lemma {:induction false} AfterColonAt(before: seq<u8>, rest: seq<u8>)
    requires COLON !in rest
    ensures AfterColon(before + [COLON] + rest) == |before| + 1
  {
    var p := before + [COLON] + rest;
    if rest == [] {
      assert p == before + [COLON];
    } else {
      assert p[..|p| - 1] == before + [COLON] + rest[..|rest| - 1];
      AfterColonAt(before, rest[..|rest| - 1]);
    }
  }

  /** The offset and length a request ends with. */
  method ParseRequest(p: seq<u8>) returns (off: u32, want: u32)
    ensures var t := p[AfterColon(p)..];
            var n := Digits(t);
            off == Value(t[..n]) % TOP &&
            want == if n < |t| && t[n] == COMMA
                    then Value(t[n + 1..][..Digits(t[n + 1..])]) % TOP else 0
  {
    want := 0;
    var i := 0;
    for k := 0 to |p|
      invariant i == AfterColon(p[..k])
    {
      assert p[..k + 1][..k] == p[..k];
      if p[k] == COLON {
        i := k + 1;
      }
    }
    assert p[..|p|] == p;
    var t := p[i..];
    var n;
    off, n := HexToU32(t);
    if n < |t| && t[n] == COMMA {
      var m;
      want, m := HexToU32(t[n + 1..]);
    }
  }

  function Request(annex: seq<u8>, off: u32, want: u32): seq<u8> {
    annex + [COLON] + (HexText(off) + [COMMA] + HexText(want))
  }

  lemma HexHasNo(s: seq<u8>, c: u8)
    requires AllHex(s) && HexVal(c).None?
    ensures c !in s
  {
  }

  lemma DigitsThen(a: seq<u8>, rest: seq<u8>)
    requires AllHex(a) && (rest != [] ==> HexVal(rest[0]).None?)
    ensures Digits(a + rest) == |a| && (a + rest)[..|a|] == a && (a + rest)[|a|..] == rest
  {
    hide Value;
    assert (a + rest)[..|a|] == a;
    assert (a + rest)[|a|..] == rest;
    DigitsUnique(a + rest, |a|);
  }

  /** The numbers a client prints are the numbers the stub reads, whatever the annex. */
  method AskAndParse(annex: seq<u8>, off: u32, want: u32) returns (o: u32, w: u32)
    ensures o == off && w == want
  {
    hide Digits, AfterColon, HexText, Value;
    var a, b := HexText(off), HexText(want);
    HexHasNo(a, COLON);
    HexHasNo(b, COLON);
    AfterColonAt(annex, a + [COMMA] + b);
    var p := Request(annex, off, want);
    assert p[|annex| + 1..] == a + ([COMMA] + b);
    DigitsThen(a, [COMMA] + b);
    DigitsThen(b, []);
    assert (a + ([COMMA] + b))[|a| + 1..] == b == b + [];
    o, w := ParseRequest(p);
  }

  // ---- the reply ----

  /** One piece: never more than was asked for, never a packet's worth, and `l` exactly on the last. */
  method Serve(xml: seq<u8>, off: u32, want: u32) returns (reply: seq<u8>)
    requires |xml| < TOP
    ensures 1 <= |reply| < MAX_PACKET && (want != 0 ==> |reply| <= 1 + want)
    ensures off >= |xml| ==> reply == [LAST]
    ensures off < |xml| ==> 2 <= |reply| && off + |reply| - 1 <= |xml| && reply[1..] == xml[off..off + |reply| - 1]
    ensures reply[0] == if off + |reply| - 1 >= |xml| then LAST else MORE
    ensures reply[0] == MORE ==> |reply| - 1 == if want == 0 || want > MAX_PACKET - 2 then MAX_PACKET - 2 else want
  {
    if off >= |xml| {
      return [LAST];
    }
    var n := if want == 0 || want > MAX_PACKET - 2 then MAX_PACKET - 2 else want;
    if n > |xml| - off {
      n := |xml| - off;
      reply := [LAST];
    } else {
      reply := [if off + n >= |xml| then LAST else MORE];
    }
    for k := 0 to n
      invariant |reply| == 1 + k && reply[1..] == xml[off..off + k]
      invariant reply[0] == if off + n >= |xml| then LAST else MORE
    {
      var grown := reply + [xml[off + k]];
      assert grown[1..] == reply[1..] + [xml[off + k]];
      assert xml[off..off + k + 1] == xml[off..off + k] + [xml[off + k]];
      reply := grown;
    }
  }

  /** A client that asks on from where it stands until it sees `l` has the whole object, for any lengths it asks for. */
  method ReadObject(xml: seq<u8>, annex: seq<u8>, ask: nat -> u32) returns (got: seq<u8>, requests: nat)
    requires |xml| < TOP
    ensures got == xml
    ensures requests <= |xml| + 1
    ensures (forall i :: ask(i) >= MAX_PACKET - 2 || ask(i) == 0) ==> (requests - 1) * (MAX_PACKET - 2) <= |xml|
  {
    got, requests := [], 0;
    var done := false;
    while !done
      invariant |got| <= |xml| && got == xml[..|got|]
      invariant done ==> got == xml
      invariant !done ==> requests <= |got|
      invariant requests <= |xml| + 1
      invariant (forall i :: ask(i) >= MAX_PACKET - 2 || ask(i) == 0) ==>
                  (if done then requests - 1 else requests) * (MAX_PACKET - 2) <= |got|
      decreases !done, |xml| - |got|
    {
      var off, want := AskAndParse(annex, |got|, ask(requests));
      var reply := Serve(xml, off, want);
      var next := got + reply[1..];
      assert next == xml[..|next|];
      done := reply[0] == LAST;
      got := next;
      requests := requests + 1;
    }
  }
}
