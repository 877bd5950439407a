/**
 * The framing half of the GDB remote serial protocol: packets received a byte at a time,
 * unescaped and checked, and packets sent.
 */
module Rsp {
  import opened Words

  const MAX_PACKET: nat := 1024
  const DOLLAR: u8 := 0x24
  const HASH: u8 := 0x23
  const ESCAPE: u8 := 0x7D
  const CTRL_C: u8 := 0x03

  // ---- hex ----

  function HexDigit(v: nat): u8
    requires v < 16
  {
    if v < 10 then 0x30 + v else 0x61 + (v - 10)
  }

  function HexVal(c: u8): Option<nat> {
    if 0x30 <= c <= 0x39 then Some(c - 0x30)
    else if 0x61 <= c <= 0x66 then Some(10 + (c - 0x61))
    else if 0x41 <= c <= 0x46 then Some(10 + (c - 0x41))
    else None
  }

  lemma HexRoundTrip(v: nat)
    requires v < 16
    ensures HexVal(HexDigit(v)) == Some(v)
  {
  }

  /** Exclusive or with 0x20. */
  function Flip(c: u8): u8 {
    if c / 0x20 % 2 == 0 then c + 0x20 else c - 0x20
  }

  // ---- the receiver as a state machine ----

  datatype Mode = Wait | Body | Sum

  datatype State = State(mode: Mode, buf: seq<u8>, escaped: bool, raw: nat, digits: seq<u8>)

  datatype Event = Ack(ok: bool) | Dispatch(packet: seq<u8>) | Interrupt

  const IDLE := State(Wait, [], false, 0, [])

  predicate SumOk(raw: nat, hi: u8, lo: u8) {
    HexVal(hi).Some? && HexVal(lo).Some? && HexVal(hi).value * 16 + HexVal(lo).value == raw
  }

  /** One byte off the wire. */
  function Feed(s: State, c: u8): (State, seq<Event>) {
    match s.mode
    case Wait =>
      if c == DOLLAR then (State(Body, [], false, 0, []), [])
      else if c == CTRL_C then (s, [Interrupt])
      else (s, [])
    case Body =>
      if c == HASH then (s.(mode := Sum), [])
      else if |s.buf| < MAX_PACKET then
        var t := s.(raw := (s.raw + c) % 256);
        if s.escaped then (t.(buf := s.buf + [Flip(c)], escaped := false), [])
        else if c == ESCAPE then (t.(escaped := true), [])
        else (t.(buf := s.buf + [c]), [])
      else (s, [])
    case Sum =>
      if |s.digits| != 1 then (s.(digits := s.digits + [c]), [])
      else
        var ok := SumOk(s.raw, s.digits[0], c);
        (s.(mode := Wait, digits := s.digits + [c]), if ok then [Ack(true), Dispatch(s.buf)] else [Ack(false)])
  }

  function FeedAll(s: State, data: seq<u8>): (State, seq<Event>)
    decreases |data|
  {
    if data == [] then (s, [])
    else
      var n := |data| - 1;
      var before := FeedAll(s, data[..n]);
      var last := Feed(before.0, data[n]);
      (last.0, before.1 + last.1)
  }

  /** What came before, then what the rest adds. */
  function Then(x: (State, seq<Event>), data: seq<u8>): (State, seq<Event>) {
    var y := FeedAll(x.0, data);
    (y.0, x.1 + y.1)
  }

  /** Cutting the stream anywhere changes nothing. */
  lemma {:induction false} FeedAppend(s: State, a: seq<u8>, b: seq<u8>)
    ensures FeedAll(s, a + b) == Then(FeedAll(s, a), b)
    decreases |b|
  {
    if b == [] {
      assert a + b == a && FeedAll(s, a).1 + [] == FeedAll(s, a).1;
    } else {
      var n := |b| - 1;
      hide Feed;
      FeedAppend(s, a, b[..n]);
      assert (a + b)[..|a + b| - 1] == a + b[..n] && (a + b)[|a + b| - 1] == b[n];
      var x := FeedAll(s, a);
      var y := FeedAll(x.0, b[..n]);
      var z := Feed(y.0, b[n]);
      assert x.1 + y.1 + z.1 == x.1 + (y.1 + z.1);
    }
  }

  lemma FeedOne(s: State, c: u8)
    ensures FeedAll(s, [c]) == Feed(s, c)
  {
    hide Feed;
    assert [c][..0] == [];
    assert [] + Feed(s, c).1 == Feed(s, c).1;
  }

  lemma FeedTwo(s: State, c: u8, d: u8)
    ensures FeedAll(s, [c, d]) == (Feed(Feed(s, c).0, d).0, Feed(s, c).1 + Feed(Feed(s, c).0, d).1)
  {
    hide Feed, FeedAll;
    FeedOne(s, c);
    FeedOne(Feed(s, c).0, d);
    FeedAppend(s, [c], [d]);
    assert [c] + [d] == [c, d];
  }

  // ---- packets as a sender makes them ----

  /** A byte may go as itself, or escaped; '#' and 0x7d must be escaped, and 0x03 would become '#'. */
  predicate MayEscape(b: u8, esc: bool) {
    if esc then b != CTRL_C else b != HASH && b != ESCAPE
  }

  predicate Sendable(body: seq<u8>, esc: seq<bool>) {
    |esc| == |body| && forall i :: 0 <= i < |body| ==> MayEscape(body[i], esc[i])
  }

  function EncodeByte(b: u8, esc: bool): seq<u8> {
    if esc then [ESCAPE, Flip(b)] else [b]
  }

  function Encode(body: seq<u8>, esc: seq<bool>): seq<u8>
    requires |esc| == |body|
  {
    if body == [] then [] else EncodeByte(body[0], esc[0]) + Encode(body[1..], esc[1..])
  }

  function Total(s: seq<u8>): nat {
    if s == [] then 0 else Total(s[..|s| - 1]) + s[|s| - 1] as int
  }

  /** The sum of the bytes, modulo 256. */
  function Checksum(s: seq<u8>): (k: nat)
    ensures k < 256
  {
    Total(s) % 256
  }

  function Frame(wire: seq<u8>, hi: u8, lo: u8): seq<u8> {
    [DOLLAR] + wire + [HASH, hi, lo]
  }

  lemma FlipTwice(b: u8)
    ensures Flip(Flip(b)) == b
    ensures Flip(b) == HASH <==> b == CTRL_C
  {
  }

  lemma {:induction false} TotalAppend(a: seq<u8>, b: seq<u8>)
    ensures Total(a + b) == Total(a) + Total(b)
    decreases |b|
  {
    if b == [] {
      assert a + b == a;
    } else {
      var n := |b| - 1;
      TotalAppend(a, b[..n]);
      assert (a + b)[..|a + b| - 1] == a + b[..n] && (a + b)[|a + b| - 1] == b[n];
    }
  }

  lemma TotalOne(c: u8)
    ensures Total([c]) == c
  {
    assert [c][..0] == [];
  }

  lemma ModAdd(a: nat, b: nat, c: nat)
    ensures ((a + b) % 256 + c) % 256 == (a + (b + c)) % 256
  {
  }

  /** The state with more of the body collected. */
  function Grown(s: State, more: seq<u8>, sum: nat): State {
    s.(buf := s.buf + more, raw := (s.raw + sum) % 256)
  }

  lemma GrownTwice(s: State, body: seq<u8>, m: nat, n: nat)
    requires body != []
    ensures Grown(Grown(s, [body[0]], m), body[1..], n) == Grown(s, body, m + n)
  {
    ModAdd(s.raw, m, n);
    assert s.buf + [body[0]] + body[1..] == s.buf + body;
  }

  /** One encoded byte in the body of a packet that has room adds exactly that byte. */
  lemma FeedByte(s: State, b: u8, esc: bool)
    requires s.mode == Body && !s.escaped && |s.buf| < MAX_PACKET && MayEscape(b, esc)
    ensures FeedAll(s, EncodeByte(b, esc)) == (Grown(s, [b], Total(EncodeByte(b, esc))), [])
  {
    FlipTwice(b);
    hide Flip, Total, FeedAll;
    if esc {
      FeedTwo(s, ESCAPE, Flip(b));
      var t := s.(escaped := true, raw := (s.raw + ESCAPE) % 256);
      assert Feed(s, ESCAPE) == (t, []);
      assert Feed(t, Flip(b)) == (s.(buf := s.buf + [b], raw := (t.raw + Flip(b)) % 256), []);
      TotalOne(ESCAPE);
      TotalOne(Flip(b));
      TotalAppend([ESCAPE], [Flip(b)]);
      assert [ESCAPE] + [Flip(b)] == [ESCAPE, Flip(b)];
      assert Total(EncodeByte(b, esc)) == ESCAPE as int + Flip(b) as int;
      ModAdd(s.raw, ESCAPE, Flip(b));
      var none: seq<Event> := [];
      assert none + none == none;
    } else {
      FeedOne(s, b);
      TotalOne(b);
    }
  }

  /** The body of a packet is collected byte for byte, and summed as it was sent. */
  lemma {:induction false} FeedBody(s: State, body: seq<u8>, esc: seq<bool>)
    requires s.mode == Body && !s.escaped && |s.buf| + |body| <= MAX_PACKET && s.raw < 256 && Sendable(body, esc)
    ensures FeedAll(s, Encode(body, esc)) == (Grown(s, body, Total(Encode(body, esc))), [])
    decreases |body|
  {
    hide Feed, Total, Flip;
    if body == [] {
      assert s.buf + body == s.buf;
      TotalNone();
    } else {
      var w, rest := EncodeByte(body[0], esc[0]), Encode(body[1..], esc[1..]);
      FeedByte(s, body[0], esc[0]);
      var t := Grown(s, [body[0]], Total(w));
      FeedBody(t, body[1..], esc[1..]);
      hide FeedAll, EncodeByte;
      FeedAppend(s, w, rest);
      TotalAppend(w, rest);
      GrownTwice(s, body, Total(w), Total(rest));
    }
  }

  lemma TotalNone()
    ensures Total([]) == 0
  {
  }

  /** The end of a packet: dispatched exactly when the two digits are the sum. */
  lemma FeedTail(s: State, hi: u8, lo: u8)
    requires s.mode == Body && s.digits == []
    ensures FeedAll(s, [HASH, hi, lo])
            == (s.(mode := Wait, digits := [hi, lo]),
                if SumOk(s.raw, hi, lo) then [Ack(true), Dispatch(s.buf)] else [Ack(false)])
  {
    FeedTwo(s, HASH, hi);
    var b := s.(mode := Sum, digits := [hi]);
    assert [] + [hi] == [hi];
    assert Feed(Feed(s, HASH).0, hi) == (b, []);
    FeedOne(b, lo);
    assert [hi] + [lo] == [hi, lo];
    FeedAppend(s, [HASH, hi], [lo]);
    assert [HASH, hi] + [lo] == [HASH, hi, lo];
  }

  /**
   * A whole packet, whatever the digits after '#': acknowledged and dispatched exactly when they are
   * the checksum of the bytes as sent, and otherwise refused with nothing dispatched.
   */
  lemma FeedPacket(s: State, body: seq<u8>, esc: seq<bool>, hi: u8, lo: u8)
    requires s.mode == Wait && Sendable(body, esc) && |body| <= MAX_PACKET
    ensures var r := FeedAll(s, Frame(Encode(body, esc), hi, lo));
            && r.0.mode == Wait
            && r.1 == if SumOk(Checksum(Encode(body, esc)), hi, lo) then [Ack(true), Dispatch(body)] else [Ack(false)]
  {
    var wire := Encode(body, esc);
    var open := State(Body, [], false, 0, []);
    FeedOne(s, DOLLAR);
    assert Feed(s, DOLLAR) == (open, []);
    hide FeedAll, Feed, Total, Encode;
    FeedBody(open, body, esc);
    var full := open.(buf := body, raw := Checksum(wire));
    assert [] + body == body && Grown(open, body, Total(wire)) == full;
    hide Grown, Checksum;
    FeedTail(full, hi, lo);
    FeedAppend(s, [DOLLAR], wire);
    FeedAppend(s, [DOLLAR] + wire, [HASH, hi, lo]);
  }

  // ---- streams ----

  /** What a client may put on the wire: packets, right or wrong, and bytes between them. */
  datatype Item = Packet(body: seq<u8>, esc: seq<bool>, hi: u8, lo: u8) | Between(c: u8)

  predicate Proper(item: Item) {
    match item
    case Packet(body, esc, _, _) => Sendable(body, esc) && |body| <= MAX_PACKET
    case Between(c) => c != DOLLAR
  }

  function Wire(item: Item): seq<u8>
    requires Proper(item)
  {
    match item
    case Packet(body, esc, hi, lo) => Frame(Encode(body, esc), hi, lo)
    case Between(c) => [c]
  }

  /** One '+' and the body for a packet whose digits are right, one '-' for another; Ctrl-C between them interrupts. */
  function Expected(item: Item): seq<Event>
    requires Proper(item)
  {
    match item
    case Packet(body, esc, hi, lo) =>
      if SumOk(Checksum(Encode(body, esc)), hi, lo) then [Ack(true), Dispatch(body)] else [Ack(false)]
    case Between(c) => if c == CTRL_C then [Interrupt] else []
  }

  function WireAll(items: seq<Item>): seq<u8>
    requires forall i :: 0 <= i < |items| ==> Proper(items[i])
  {
    if items == [] then [] else WireAll(items[..|items| - 1]) + Wire(items[|items| - 1])
  }

  function ExpectedAll(items: seq<Item>): seq<Event>
    requires forall i :: 0 <= i < |items| ==> Proper(items[i])
  {
    if items == [] then [] else ExpectedAll(items[..|items| - 1]) + Expected(items[|items| - 1])
  }

  lemma FeedItem(s: State, item: Item)
    requires s.mode == Wait && Proper(item)
    ensures FeedAll(s, Wire(item)).0.mode == Wait && FeedAll(s, Wire(item)).1 == Expected(item)
  {
    match item
    case Packet(body, esc, hi, lo) =>
      hide FeedAll, Feed, Encode, Frame, Checksum, SumOk;
      FeedPacket(s, body, esc, hi, lo);
    case Between(c) =>
      FeedOne(s, c);
  }

  /** Any stream of packets dispatches exactly their bodies, once each and in order. */
  lemma {:induction false} FeedStream(s: State, items: seq<Item>)
    requires s.mode == Wait && forall i :: 0 <= i < |items| ==> Proper(items[i])
    ensures FeedAll(s, WireAll(items)).0.mode == Wait && FeedAll(s, WireAll(items)).1 == ExpectedAll(items)
    decreases |items|
  {
    hide Feed, Wire, Expected, Proper;
    if items != [] {
      var n := |items| - 1;
      FeedStream(s, items[..n]);
      var t := FeedAll(s, WireAll(items[..n]));
      FeedItem(t.0, items[n]);
      FeedAppend(s, WireAll(items[..n]), Wire(items[n]));
    }
  }

  function Joined(chunks: seq<seq<u8>>): seq<u8> {
    if chunks == [] then [] else Joined(chunks[..|chunks| - 1]) + chunks[|chunks| - 1]
  }

  /** The escapes gdb makes: '$', '#', '*' and 0x7d. */
  function GdbEscapes(body: seq<u8>): (esc: seq<bool>)
    ensures Sendable(body, esc)
  {
    seq(|body|, i requires 0 <= i < |body| => body[i] == DOLLAR || body[i] == HASH || body[i] == ESCAPE ||
        body[i] == 0x2A)
  }

  /** A packet as gdb sends it. */
  function GdbPacket(body: seq<u8>): (item: Item)
    ensures |body| <= MAX_PACKET ==> Proper(item)
  {
    var sum := Checksum(Encode(body, GdbEscapes(body)));
    Packet(body, GdbEscapes(body), HexDigit(sum / 16), HexDigit(sum % 16))
  }

  function GdbPackets(bodies: seq<seq<u8>>): (items: seq<Item>)
    ensures |items| == |bodies| && forall i :: 0 <= i < |bodies| ==> items[i] == GdbPacket(bodies[i])
  {
    seq(|bodies|, i requires 0 <= i < |bodies| => GdbPacket(bodies[i]))
  }

  /** Each body acknowledged and dispatched. */
  function Served(bodies: seq<seq<u8>>): seq<Event> {
    if bodies == [] then []
    else Served(bodies[..|bodies| - 1]) + [Ack(true), Dispatch(bodies[|bodies| - 1])]
  }

  lemma GdbExpected(body: seq<u8>)
    requires |body| <= MAX_PACKET
    ensures Expected(GdbPacket(body)) == [Ack(true), Dispatch(body)]
  {
    var sum := Checksum(Encode(body, GdbEscapes(body)));
    HexRoundTrip(sum / 16);
    HexRoundTrip(sum % 16);
    hide Checksum, Encode, GdbEscapes, HexDigit, HexVal;
  }

  lemma {:induction false} GdbExpectedAll(bodies: seq<seq<u8>>)
    requires forall i :: 0 <= i < |bodies| ==> |bodies[i]| <= MAX_PACKET
    ensures ExpectedAll(GdbPackets(bodies)) == Served(bodies)
    decreases |bodies|
  {
    hide Expected, GdbPacket;
    if bodies != [] {
      var n := |bodies| - 1;
      GdbExpectedAll(bodies[..n]);
      GdbExpected(bodies[n]);
      assert GdbPackets(bodies)[..n] == GdbPackets(bodies[..n]);
    }
  }

  /** Whatever bytes gdb sends in its packets, the stub gets exactly those. */
  lemma GdbStream(s: State, bodies: seq<seq<u8>>)
    requires s.mode == Wait && forall i :: 0 <= i < |bodies| ==> |bodies[i]| <= MAX_PACKET
    ensures FeedAll(s, WireAll(GdbPackets(bodies))).1 == Served(bodies)
  {
    hide FeedAll, WireAll, GdbPacket, ExpectedAll;
    FeedStream(s, GdbPackets(bodies));
    GdbExpectedAll(bodies);
  }

  // ---- sending ----

  function Least(a: nat, b: nat): nat {
    if a < b then a else b
  }

  /** The packet as it goes out: at most 1024 bytes of the body, unescaped, and their sum in lower-case hex. */
  method SendPacket(body: seq<u8>) returns (out: seq<u8>)
    ensures var sent := body[..Least(|body|, MAX_PACKET)]; var sum := Checksum(sent);
            out == Frame(sent, HexDigit(sum / 16), HexDigit(sum % 16))
  {
    var len := |body|;
    if len > MAX_PACKET {
      len := MAX_PACKET;
    }
    out := [DOLLAR];
    var sum: nat := 0;
    for i := 0 to len
      invariant out == [DOLLAR] + body[..i]
      invariant sum == Checksum(body[..i])
    {
      assert body[..i + 1][..i] == body[..i];
      SumMore(body, i);
      out := out + [body[i]];
      sum := (sum + body[i]) % 256;
    }
    out := out + [HASH];
    out := out + [HexDigit(sum / 16)];
    out := out + [HexDigit(sum % 16)];
  }

  lemma SumMore(body: seq<u8>, i: nat)
    requires i < |body|
    ensures Checksum(body[..i + 1]) == (Checksum(body[..i]) + body[i]) % 256
  {
    assert body[..i + 1][..i] == body[..i];
  }

  /** Bodies that need no escape, as every reply of the stub in hex is. */
  predicate Clean(body: seq<u8>) {
    forall i :: 0 <= i < |body| ==> body[i] != HASH && body[i] != ESCAPE
  }

  lemma {:induction false} EncodeClean(body: seq<u8>, esc: seq<bool>)
    requires |esc| == |body| && forall i :: 0 <= i < |body| ==> !esc[i]
    ensures Encode(body, esc) == body
    decreases |body|
  {
    if body != [] {
      EncodeClean(body[1..], esc[1..]);
    }
  }

  /** What the stub sends, the receive framing at the other end recovers unchanged. */
  method SendAndReceive(s: State, body: seq<u8>) returns (events: seq<Event>)
    requires s.mode == Wait && Clean(body) && |body| <= MAX_PACKET
    ensures events == [Ack(true), Dispatch(body)]
  {
    var out := SendPacket(body);
    events := FeedAll(s, out).1;
    assert body[..Least(|body|, MAX_PACKET)] == body;
    ghost var esc := seq(|body|, i => false);
    EncodeClean(body, esc);
    var sum := Checksum(body);
    HexRoundTrip(sum / 16);
    HexRoundTrip(sum % 16);
    FeedPacket(s, body, esc, HexDigit(sum / 16), HexDigit(sum % 16));
  }

  // ---- the receiver ----

  class Receiver {
    const rx: array<u8>
    var rxLen: nat
    const sum: array<u8>
    var sumLen: nat
    var rawSum: nat
    var mode: Mode
    var escaped: bool

    ghost predicate Valid()
      reads this
    {
      rx.Length == MAX_PACKET && sum.Length == 2 && rx != sum && rxLen <= MAX_PACKET && rawSum < 256 && sumLen <= 2
      && (mode == Body ==> sumLen == 0) && (mode == Sum ==> sumLen < 2)
    }

    ghost function View(): State
      requires Valid()
      reads this, rx, sum
    {
      State(mode, rx[..rxLen], escaped, rawSum, sum[..sumLen])
    }

    constructor ()
      ensures Valid() && View() == IDLE && fresh(rx) && fresh(sum)
    {
      rx, sum := new u8[MAX_PACKET](i => 0), new u8[2](i => 0);
      rxLen, sumLen, rawSum, mode, escaped := 0, 0, 0, Wait, false;
    }

    /** One byte, as the state machine takes it. */
    method Take(c: u8) returns (events: seq<Event>)
      requires Valid()
      modifies this, rx, sum
      ensures Valid() && (View(), events) == Feed(old(View()), c)
    {
      events := [];
      match mode {
        case Wait =>
          if c == DOLLAR {
            rxLen, sumLen, rawSum, escaped, mode := 0, 0, 0, false, Body;
            assert rx[..0] == [] && sum[..0] == [];
          } else if c == CTRL_C {
            events := [Interrupt];
          }
        case Body =>
          if c == HASH {
            mode := Sum;
          } else if rxLen < rx.Length {
            rawSum := (rawSum + c) % 256;
            if escaped {
              rx[rxLen], rxLen, escaped := Flip(c), rxLen + 1, false;
              assert rx[..rxLen] == old(rx[..rxLen]) + [Flip(c)];
            } else if c == ESCAPE {
              escaped := true;
            } else {
              rx[rxLen], rxLen := c, rxLen + 1;
              assert rx[..rxLen] == old(rx[..rxLen]) + [c];
            }
          }
          assert sum[..sumLen] == old(sum[..sumLen]);
        case Sum =>
          sum[sumLen], sumLen := c, sumLen + 1;
          assert sum[..sumLen] == old(sum[..sumLen]) + [c] && rx[..rxLen] == old(rx[..rxLen]);
          if sumLen == 2 {
            assert sum[0] == old(sum[..sumLen])[0] && sum[1] == c;
            var ok := SumOk(rawSum, sum[0], sum[1]);
            events := if ok then [Ack(ok), Dispatch(rx[..rxLen])] else [Ack(ok)];
            mode := Wait;
          }
      }
    }

    /** A chunk off the wire. */
    method Receive(data: seq<u8>) returns (events: seq<Event>)
      requires Valid()
      modifies this, rx, sum
      ensures Valid() && (View(), events) == FeedAll(old(View()), data)
    {
      hide Feed;
      events := [];
      for i := 0 to |data|
        invariant Valid() && (View(), events) == FeedAll(old(View()), data[..i])
      {
        var more := Take(data[i]);
        events := events + more;
        assert data[..i + 1][..i] == data[..i];
      }
      assert data[..|data|] == data;
    }

    /** However the stream is cut, the packets in it come out once each and in order. */
    method ReceiveStream(chunks: seq<seq<u8>>, ghost items: seq<Item>) returns (events: seq<Event>)
      requires Valid() && mode == Wait
      requires (forall i :: 0 <= i < |items| ==> Proper(items[i])) && Joined(chunks) == WireAll(items)
      modifies this, rx, sum
      ensures Valid() && mode == Wait && events == ExpectedAll(items)
    {
      hide Feed, FeedAll, Proper;
      ghost var s := View();
      events := [];
      FeedNothing(s);
      for i := 0 to |chunks|
        invariant Valid() && (View(), events) == FeedAll(s, Joined(chunks[..i]))
      {
        FeedAppend(s, Joined(chunks[..i]), chunks[i]);
        var more := Receive(chunks[i]);
        events := events + more;
        assert chunks[..i + 1][..i] == chunks[..i];
      }
      assert chunks[..|chunks|] == chunks;
      FeedStream(s, items);
    }
  }

  lemma FeedNothing(s: State)
    ensures FeedAll(s, []) == (s, [])
  {
  }
}
