/**
 * SLIP framing (RFC 1055) between the TUN device and the serial line: packets out as escaped
 * frames, and the receiver that finds frames again whatever state it was left in.
 */
module Slip {
  import opened Words

  const END: u8 := 0xC0
  const ESC: u8 := 0xDB
  const ESC_END: u8 := 0xDC
  const ESC_ESC: u8 := 0xDD
  const MTU: nat := 1500

  // ---- sending ----

  function EncodeByte(b: u8): seq<u8> {
    if b == END then [ESC, ESC_END] else if b == ESC then [ESC, ESC_ESC] else [b]
  }

  function Body(p: seq<u8>): seq<u8> {
    if p == [] then [] else Body(p[..|p| - 1]) + EncodeByte(p[|p| - 1])
  }

  function Encoded(p: seq<u8>): seq<u8> {
    [END] + Body(p) + [END]
  }

  method SlipEncode(p: seq<u8>) returns (out: seq<u8>)
    ensures out == Encoded(p)
  {
    out := [END];
    for i := 0 to |p|
      invariant out == [END] + Body(p[..i])
    {
      assert p[..i + 1][..i] == p[..i];
      if p[i] == END {
        out := out + [ESC, ESC_END];
      } else if p[i] == ESC {
        out := out + [ESC, ESC_ESC];
      } else {
        out := out + [p[i]];
      }
    }
    assert p[..|p|] == p;
    out := out + [END];
  }

  // ---- receiving ----

  datatype Rx = Rx(rx: seq<u8>, escaped: bool, dropped: nat)

  /** One byte: the state after it, and the frame it completed if any. */
  function Feed(s: Rx, b: u8): (Rx, seq<seq<u8>>) {
    if s.escaped then
      (Rx(if b == ESC_END then s.rx + [END] else if b == ESC_ESC then s.rx + [ESC] else [], false, s.dropped), [])
    else if b == ESC then (s.(escaped := true), [])
    else if b == END then (s.(rx := []), if s.rx != [] then [s.rx] else [])
    else if |s.rx| >= MTU then (s.(rx := [], dropped := s.dropped + 1), [])
    else (s.(rx := s.rx + [b]), [])
  }

  function FeedAll(s: Rx, data: seq<u8>): (Rx, seq<seq<u8>>) {
    if data == [] then (s, []) else
      var before := FeedAll(s, data[..|data| - 1]);
      var last := Feed(before.0, data[|data| - 1]);
      (last.0, before.1 + last.1)
  }

  lemma FeedOne(s: Rx, b: u8)
    ensures FeedAll(s, [b]) == Feed(s, b)
  {
    assert [b][..0] == [];
    assert FeedAll(s, [b][..0]) == (s, []);
    assert [] + Feed(s, b).1 == Feed(s, b).1;
  }

  /** Bytes may arrive in any chunks. */
  lemma {:induction false} FeedAppend(s: Rx, a: seq<u8>, b: seq<u8>)
    ensures var first := FeedAll(s, a);
            var then_ := FeedAll(first.0, b);
            FeedAll(s, a + b) == (then_.0, first.1 + then_.1)
  {
    if b == [] {
      assert a + b == a;
      assert FeedAll(s, a).1 + [] == FeedAll(s, a).1;
    } else {
      var init := b[..|b| - 1];
      FeedAppend(s, a, init);
      assert (a + b)[..|a + b| - 1] == a + init;
      var first, mid := FeedAll(s, a), FeedAll(FeedAll(s, a).0, init);
      var last := Feed(mid.0, b[|b| - 1]);
      assert first.1 + mid.1 + last.1 == first.1 + (mid.1 + last.1);
    }
  }

  lemma FeedTwo(s: Rx, a: u8, b: u8)
    ensures FeedAll(s, [a, b]) == (Feed(Feed(s, a).0, b).0, Feed(s, a).1 + Feed(Feed(s, a).0, b).1)
  {
    FeedOne(s, a);
    FeedOne(Feed(s, a).0, b);
    FeedAppend(s, [a], [b]);
    assert [a] + [b] == [a, b];
  }

  // ---- one packet ----

  /** Every byte past the MTU is one that travels escaped, and so is not length-checked. */
  predicate Fits(p: seq<u8>) {
    forall i :: MTU <= i < |p| ==> p[i] == END || p[i] == ESC
  }

  lemma FeedByte(s: Rx, b: u8)
    requires !s.escaped
    ensures var r := FeedAll(s, EncodeByte(b));
            r.1 == [] && !r.0.escaped &&
            if |s.rx| < MTU || b == END || b == ESC then r.0 == s.(rx := s.rx + [b]) else r.0.rx == []
  {
    if b == END {
      FeedTwo(s, ESC, ESC_END);
    } else if b == ESC {
      FeedTwo(s, ESC, ESC_ESC);
    } else {
      FeedOne(s, b);
    }
  }

  /** `s`, holding `p` or something shorter where `p` does not fit. */
  predicate Built(r: (Rx, seq<seq<u8>>), s: Rx, p: seq<u8>) {
    r.1 == [] && !r.0.escaped && if Fits(p) then r.0 == s.(rx := p) else |r.0.rx| < |p|
  }

  lemma BuiltMore(s: Rx, mid: Rx, p: seq<u8>, b: u8)
    requires Built((mid, []), s, p)
    ensures Built(FeedAll(mid, EncodeByte(b)), s, p + [b])
  {
    FeedByte(mid, b);
    hide FeedAll, EncodeByte;
    assert (p + [b])[..|p|] == p;
    assert Fits(p + [b]) <==> Fits(p) && (|p| >= MTU ==> b == END || b == ESC) by {
      assert forall i :: 0 <= i < |p| ==> (p + [b])[i] == p[i];
      assert (p + [b])[|p|] == b;
    }
  }

  lemma BuiltNone(s: Rx)
    requires s.rx == [] && !s.escaped
    ensures Built(FeedAll(s, Body([])), s, [])
  {
  }

  lemma BuiltSilent(r: (Rx, seq<seq<u8>>), s: Rx, p: seq<u8>)
    requires Built(r, s, p)
    ensures r == (r.0, [])
  {
  }

  /** A packet's body into an empty receiver: kept whole exactly when it fits, and shortened otherwise. */
  lemma {:induction false} FeedBody(s: Rx, p: seq<u8>)
    requires s.rx == [] && !s.escaped
    ensures Built(FeedAll(s, Body(p)), s, p)
  {
    if p == [] {
      BuiltNone(s);
    } else {
      var init, b := p[..|p| - 1], p[|p| - 1];
      assert Body(p) == Body(init) + EncodeByte(b);
      assert init + [b] == p;
      hide *;
      FeedBody(s, init);
      var mid := FeedAll(s, Body(init)).0;
      BuiltSilent(FeedAll(s, Body(init)), s, init);
      FeedAppend(s, Body(init), EncodeByte(b));
      var last := FeedAll(mid, EncodeByte(b));
      assert [] + last.1 == last.1;
      BuiltMore(s, mid, init, b);
    }
  }

  /** What the receiver had half-built, which the opening END completes. */
  function Leftover(s: Rx): seq<seq<u8>> {
    if !s.escaped && s.rx != [] then [s.rx] else []
  }

  /**
   * From every receiver state an encoded packet leaves the receiver empty, and what it completes is
   * the leftover and then the packet exactly when the packet is nonempty and fits.
   */
  lemma Synchronises(s: Rx, p: seq<u8>)
    ensures var r := FeedAll(s, Encoded(p));
            && r.0.rx == [] && !r.0.escaped
            && (r.1 == Leftover(s) + [p] <==> p != [] && Fits(p))
            && (p != [] && Fits(p) ==> r.0.dropped == s.dropped)
  {
    hide FeedAll, Body, Fits;
    var open := Feed(s, END);
    FeedOne(s, END);
    FeedAppend(s, [END], Body(p));
    FeedBody(open.0, p);
    var full := FeedAll(open.0, Body(p)).0;
    FeedAppend(s, [END] + Body(p), [END]);
    FeedOne(full, END);
    assert open.1 == Leftover(s);
    assert open.1 + [] == open.1;
    assert FeedAll(s, Encoded(p)).1 == Leftover(s) + Feed(full, END).1;
    if p == [] || !Fits(p) {
      var got := Feed(full, END).1;
      assert got != [p];
      assert (Leftover(s) + got)[|Leftover(s)|..] == got;
      assert (Leftover(s) + [p])[|Leftover(s)|..] == [p];
    }
  }

  /** So one over the MTU can be recovered, if what is over travels escaped. */
  lemma OverlongRecovered(s: Rx)
    ensures var p := seq(MTU + 1, i => END);
            |p| > MTU && FeedAll(s, Encoded(p)).1 == Leftover(s) + [p] && FeedAll(s, Encoded(p)).0.dropped == s.dropped
  {
    hide FeedAll, Encoded;
    Synchronises(s, seq(MTU + 1, i => END));
  }

  // ---- a stream ----

  function EncodedAll(ps: seq<seq<u8>>): seq<u8> {
    if ps == [] then [] else EncodedAll(ps[..|ps| - 1]) + Encoded(ps[|ps| - 1])
  }

  predicate Proper(ps: seq<seq<u8>>) {
    forall i :: 0 <= i < |ps| ==> ps[i] != [] && Fits(ps[i])
  }

  lemma ProperDecodes(s: Rx, p: seq<u8>)
    requires p != [] && Fits(p)
    ensures FeedAll(s, Encoded(p)) == (Rx([], false, s.dropped), Leftover(s) + [p])
  {
    Synchronises(s, p);
  }

  /** A stream of packets decodes to exactly those packets, after at most one leftover frame. */
  lemma {:induction false} StreamDecodes(s: Rx, ps: seq<seq<u8>>)
    requires Proper(ps) && ps != []
    ensures FeedAll(s, EncodedAll(ps)) == (Rx([], false, s.dropped), Leftover(s) + ps)
    decreases |ps|
  {
    var init, p := ps[..|ps| - 1], ps[|ps| - 1];
    assert init + [p] == ps;
    assert EncodedAll(ps) == EncodedAll(init) + Encoded(p);
    assert Proper(init) && p != [] && Fits(p);
    if init == [] {
      FirstDecodes(s, p);
      assert EncodedAll(init) == [];
      hide *;
    } else {
      hide *;
      StreamDecodes(s, init);
      NextDecodes(s, EncodedAll(init), init, p);
    }
  }

  lemma FirstDecodes(s: Rx, p: seq<u8>)
    requires p != [] && Fits(p)
    ensures FeedAll(s, [] + Encoded(p)) == (Rx([], false, s.dropped), Leftover(s) + ([] + [p]))
  {
    hide *;
    assert [] + Encoded(p) == Encoded(p);
    assert [] + [p] == [p];
    ProperDecodes(s, p);
  }

  lemma NextDecodes(s: Rx, data: seq<u8>, init: seq<seq<u8>>, p: seq<u8>)
    requires p != [] && Fits(p) && FeedAll(s, data) == (Rx([], false, s.dropped), Leftover(s) + init)
    ensures FeedAll(s, data + Encoded(p)) == (Rx([], false, s.dropped), Leftover(s) + (init + [p]))
  {
    var mid := Rx([], false, s.dropped);
    assert Leftover(mid) + [p] == [p];
    hide *;
    FeedAppend(s, data, Encoded(p));
    ProperDecodes(mid, p);
    assert Leftover(s) + init + [p] == Leftover(s) + (init + [p]);
  }

  // ---- the bridge ----

  /** What the bridge takes for an IPv4 packet: version 4, and a header and a total length inside the frame. */
  predicate IsIpv4(p: seq<u8>) {
    && 20 <= |p| && 0x40 <= p[0] < 0x50
    && 20 <= (p[0] - 0x40) * 4 <= |p|
    && 20 <= p[2] as int * 256 + p[3] <= |p|
  }

  /** A frame the bridge hands over and the TUN device takes. */
  predicate Passes(p: seq<u8>, accepts: seq<u8> -> bool) {
    IsIpv4(p) && accepts(p)
  }

  predicate AllPass(ps: seq<seq<u8>>, accepts: seq<u8> -> bool) {
    forall p :: p in ps ==> Passes(p, accepts)
  }

  /** The frames handed to the TUN device; `accepts` says which of them its write takes. */
  function Passed(frames: seq<seq<u8>>, accepts: seq<u8> -> bool): seq<seq<u8>> {
    if frames == [] then [] else
      var f := frames[|frames| - 1];
      Passed(frames[..|frames| - 1], accepts) + (if Passes(f, accepts) then [f] else [])
  }

  lemma {:induction false} PassedAppend(a: seq<seq<u8>>, b: seq<seq<u8>>, accepts: seq<u8> -> bool)
    ensures Passed(a + b, accepts) == Passed(a, accepts) + Passed(b, accepts)
  {
    hide Passes;
    if b == [] {
      assert a + b == a;
    } else {
      assert (a + b)[..|a + b| - 1] == a + b[..|b| - 1];
      PassedAppend(a, b[..|b| - 1], accepts);
    }
  }

  lemma PassedOne(ps: seq<seq<u8>>, p: seq<u8>, accepts: seq<u8> -> bool)
    requires Passes(p, accepts)
    ensures Passed(ps + [p], accepts) == Passed(ps, accepts) + [p]
  {
    hide Passes;
    assert (ps + [p])[..|ps|] == ps;
  }

  lemma {:induction false} PassedAll(ps: seq<seq<u8>>, accepts: seq<u8> -> bool)
    requires AllPass(ps, accepts)
    ensures Passed(ps, accepts) == ps
  {
    hide Passes;
    if ps != [] {
      var init, p := ps[..|ps| - 1], ps[|ps| - 1];
      assert init + [p] == ps;
      PassedAll(init, accepts);
      PassedOne(init, p, accepts);
    }
  }

  lemma PassedNone(accepts: seq<u8> -> bool)
    ensures Passed([], accepts) == []
  {
  }

  function Joined(chunks: seq<seq<u8>>): seq<u8> {
    if chunks == [] then [] else Joined(chunks[..|chunks| - 1]) + chunks[|chunks| - 1]
  }

  // ---- which frames reach the interface ----

  /** The front of an IP header: RFC 791's version, header words, service and total length, and the 16 bytes after. */
  datatype IpHeader = IpHeader(version: nat, words: nat, service: u8, length: nat, rest: seq<u8>)

  predicate IsHeader(h: IpHeader) {
    h.version < 16 && h.words < 16 && h.length < 0x1_0000 && |h.rest| == 16
  }

  /** The header as sent: the two halves of the first byte, and the length with its high byte first. */
  function HeaderBytes(h: IpHeader): (p: seq<u8>)
    requires IsHeader(h)
    ensures |p| == 20
  {
    [16 * h.version + h.words, h.service, h.length / 256, h.length % 256] + h.rest
  }

  /** A frame is taken for IPv4 by what its header says of it and by nothing after. */
  lemma Ipv4Iff(h: IpHeader, more: seq<u8>)
    requires IsHeader(h)
    ensures var p := HeaderBytes(h) + more;
            IsIpv4(p) <==> h.version == 4 && 5 <= h.words && 4 * h.words <= |p| && 20 <= h.length <= |p|
  {
    var p := HeaderBytes(h) + more;
    assert p[0] == 16 * h.version + h.words && p[2] == h.length / 256 && p[3] == h.length % 256;
  }

  /** Every frame of 20 bytes or more is a header and what follows it. */
  lemma EveryHeader(p: seq<u8>) returns (h: IpHeader)
    requires 20 <= |p|
    ensures IsHeader(h) && p == HeaderBytes(h) + p[20..]
  {
    h := IpHeader(p[0] / 16, p[0] % 16, p[1], p[2] as int * 256 + p[3], p[4..20]);
  }

  /** A frame whose header, written out, is that of an IPv4 packet the frame holds. */
  ghost predicate Ipv4Frame(p: seq<u8>) {
    exists h: IpHeader :: IsHeader(h) && HeaderBytes(h) <= p && h.version == 4 && 5 <= h.words &&
                          4 * h.words <= |p| && 20 <= h.length <= |p|
  }

  lemma IsIpv4Means(p: seq<u8>)
    ensures IsIpv4(p) <==> Ipv4Frame(p)
  {
    if IsIpv4(p) {
      var h := EveryHeader(p);
      Ipv4Iff(h, p[20..]);
    }
    if Ipv4Frame(p) {
      var h: IpHeader :| IsHeader(h) && HeaderBytes(h) <= p && h.version == 4 && 5 <= h.words &&
                         4 * h.words <= |p| && 20 <= h.length <= |p|;
      assert p == HeaderBytes(h) + p[20..];
      Ipv4Iff(h, p[20..]);
    }
  }

  /** What reaches the interface is each completed frame with such a header that the device takes. */
  lemma {:induction false} PassedIff(frames: seq<seq<u8>>, accepts: seq<u8> -> bool, p: seq<u8>)
    ensures p in Passed(frames, accepts) <==> p in frames && Ipv4Frame(p) && accepts(p)
  {
    hide IsIpv4, Ipv4Frame;
    IsIpv4Means(p);
    if frames != [] {
      var init, f := frames[..|frames| - 1], frames[|frames| - 1];
      PassedIff(init, accepts, p);
      assert frames == init + [f];
      if p == f {
        assert p in frames;
      }
    }
  }

  class Bridge {
    var rx: seq<u8>
    var escaped: bool
    var dropped: nat
    var junk: nat
    var sent: seq<seq<u8>>
    const accepts: seq<u8> -> bool

    constructor (accepts: seq<u8> -> bool)
      ensures this.accepts == accepts && Now() == Rx([], false, 0) && sent == [] && junk == 0
    {
      this.accepts := accepts;
      rx, escaped, dropped, junk, sent := [], false, 0, 0, [];
    }

    function Now(): Rx
      reads this
    {
      Rx(rx, escaped, dropped)
    }

    method Take(b: u8)
      modifies this
      ensures var r := Feed(old(Now()), b);
              && Now() == r.0
              && sent == old(sent) + Passed(r.1, accepts)
              && junk + |sent| == old(junk) + |old(sent)| + |r.1|
    {
      ghost var done: seq<seq<u8>> := [];
      if escaped {
        if b == ESC_END {
          rx := rx + [END];
        } else if b == ESC_ESC {
          rx := rx + [ESC];
        } else {
          rx := [];
        }
        escaped := false;
      } else if b == ESC {
        escaped := true;
      } else if b == END {
        if rx != [] {
          done := [rx];
          if IsIpv4(rx) && accepts(rx) {
            sent := sent + [rx];
          } else {
            junk := junk + 1;
          }
          rx := [];
        }
      } else if |rx| >= MTU {
        dropped := dropped + 1;
        rx := [];
      } else {
        rx := rx + [b];
      }
      assert Passed([], accepts) == [];
      assert done != [] ==> done[..0] == [];
    }

    /** Whatever arrived in one read. */
    method Receive(data: seq<u8>)
      modifies this
      ensures var r := FeedAll(old(Now()), data);
              && Now() == r.0
              && sent == old(sent) + Passed(r.1, accepts)
              && junk + |sent| == old(junk) + |old(sent)| + |r.1|
    {
      for i := 0 to |data|
        invariant var r := FeedAll(old(Now()), data[..i]);
                  && Now() == r.0
                  && sent == old(sent) + Passed(r.1, accepts)
                  && junk + |sent| == old(junk) + |old(sent)| + |r.1|
      {
        assert data[..i + 1][..i] == data[..i];
        ghost var before := FeedAll(old(Now()), data[..i]);
        Take(data[i]);
        PassedAppend(before.1, Feed(before.0, data[i]).1, accepts);
      }
      assert data[..|data|] == data;
    }

    /** Whatever arrived in any number of reads. */
    method ReceiveAll(chunks: seq<seq<u8>>)
      modifies this
      ensures var r := FeedAll(old(Now()), Joined(chunks));
              && Now() == r.0
              && sent == old(sent) + Passed(r.1, accepts)
              && junk + |sent| == old(junk) + |old(sent)| + |r.1|
    {
      hide Passed, Feed;
      PassedNone(accepts);
      for i := 0 to |chunks|
        invariant var r := FeedAll(old(Now()), Joined(chunks[..i]));
                  && Now() == r.0
                  && sent == old(sent) + Passed(r.1, accepts)
                  && junk + |sent| == old(junk) + |old(sent)| + |r.1|
      {
        hide FeedAll;
        assert chunks[..i + 1][..i] == chunks[..i];
        ghost var before := FeedAll(old(Now()), Joined(chunks[..i]));
        FeedAppend(old(Now()), Joined(chunks[..i]), chunks[i]);
        Receive(chunks[i]);
        PassedAppend(before.1, FeedAll(before.0, chunks[i]).1, accepts);
      }
      assert chunks[..|chunks|] == chunks;
    }

    /**
     * However the stream is cut, IPv4 packets from a peer reach the TUN device as they were, after at
     * most one leftover frame.
     */
    method ReceivePackets(chunks: seq<seq<u8>>, ghost ps: seq<seq<u8>>)
      requires Proper(ps) && ps != [] && Joined(chunks) == EncodedAll(ps)
      requires AllPass(ps, accepts)
      modifies this
      ensures Now() == Rx([], false, old(dropped))
      ensures sent == old(sent) + Passed(Leftover(old(Now())), accepts) + ps
      ensures junk <= old(junk) + 1
    {
      hide FeedAll, EncodedAll, Passes, Passed;
      StreamDecodes(Now(), ps);
      PassedAppend(Leftover(Now()), ps, accepts);
      PassedAll(ps, accepts);
      ReceiveAll(chunks);
    }
  }
}
