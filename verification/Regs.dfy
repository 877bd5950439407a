/**
 * Registers on the wire: a `g` reply and a `G` packet are the registers' bytes in hex, each at
 * its own width and in the target's byte order.
 */
module Regs {
  import opened Words
  import opened Rsp

  /** A 64-bit value by its bytes, least significant first. */
  type u64 = s: seq<u8> | |s| == 8 witness [0, 0, 0, 0, 0, 0, 0, 0]

  const ZERO: u64 := [0, 0, 0, 0, 0, 0, 0, 0]

  /** Bitwise or. */
  function Or(a: nat, b: nat): nat {
    if a == 0 && b == 0 then 0
    else (if a % 2 == 1 || b % 2 == 1 then 1 else 0) + 2 * Or(a / 2, b / 2)
  }

  /** Which byte of a register goes at position `b`. */
  function Position(w: nat, big: bool, b: nat): nat
    requires b < w
  {
    if big then w - 1 - b else b
  }

  /** The low `w` bytes of a value. */
  function Low(v: u64, w: nat): (r: u64)
    requires w <= 8
  {
    v[..w] + ZERO[w..]
  }

  /** `hex` spells the low `w` bytes of `v` in the target's order. */
  predicate Spells(hex: seq<u8>, w: nat, big: bool, v: u64)
    requires w <= 8
  {
    |hex| == 2 * w &&
    forall b :: 0 <= b < w ==>
      hex[2 * b] == HexDigit(v[Position(w, big, b)] / 16) && hex[2 * b + 1] == HexDigit(v[Position(w, big, b)] % 16)
  }

  method PutRegHex(w: nat, big: bool, v: u64) returns (hex: seq<u8>)
    requires 1 <= w <= 8
    ensures Spells(hex, w, big, v)
  {
    hex := [];
    for b := 0 to w
      invariant |hex| == 2 * b
      invariant forall k :: 0 <= k < b ==>
                  hex[2 * k] == HexDigit(v[Position(w, big, k)] / 16) &&
                  hex[2 * k + 1] == HexDigit(v[Position(w, big, k)] % 16)
    {
      var at := if big then w - 1 - b else b;
      hex := hex + [HexDigit(v[at] / 16), HexDigit(v[at] % 16)];
    }
  }

  predicate HexPair(hex: seq<u8>, b: nat)
    requires 2 * b + 1 < |hex|
  {
    HexVal(hex[2 * b]).Some? && HexVal(hex[2 * b + 1]).Some?
  }

  function PairValue(hex: seq<u8>, b: nat): u8
    requires 2 * b + 1 < |hex| && HexPair(hex, b)
  {
    HexVal(hex[2 * b]).value * 16 + HexVal(hex[2 * b + 1]).value
  }

  lemma {:induction false} OrZero(b: nat)
    ensures Or(0, b) == b
  {
    if b != 0 {
      OrZero(b / 2);
    }
  }

  predicate HexUpTo(hex: seq<u8>, n: nat)
    requires 2 * n <= |hex|
  {
    forall b :: 0 <= b < n ==> HexPair(hex, b)
  }

  /** Byte `i` of the register `hex` spells: zero past the width, and from the first bad digit on. */
  function RegByte(w: nat, big: bool, hex: seq<u8>, i: nat): u8
    requires 2 * w <= |hex|
  {
    if i < w && HexUpTo(hex, Position(w, big, i) + 1) then PairValue(hex, Position(w, big, i)) else 0
  }

  function RegValue(w: nat, big: bool, hex: seq<u8>): (v: u64)
    requires 2 * w <= |hex|
  {
    seq(8, i requires 0 <= i => RegByte(w, big, hex, i))
  }

  method GetRegHex(w: nat, big: bool, hex: seq<u8>) returns (v: u64)
    requires 1 <= w <= 8 && 2 * w <= |hex|
    ensures v == RegValue(w, big, hex)
  {
    v := ZERO;
    var k := 0;
    while k < w
      invariant k <= w && HexUpTo(hex, k)
      invariant forall i :: 0 <= i < 8 ==>
                  v[i] == if i < w && Position(w, big, i) < k then RegByte(w, big, hex, i) else 0
    {
      var at := if big then w - 1 - k else k;
      assert Position(w, big, at) == k;
      if !HexPair(hex, k) {
        break;
      }
      OrZero(PairValue(hex, k));
      v := v[at := Or(v[at], PairValue(hex, k))];
      k := k + 1;
    }
  }

  lemma {:induction false} Reversed(wire: seq<u8>, bytes: seq<u8>)
    requires |wire| == |bytes| && forall b :: 0 <= b < |wire| ==> wire[b] == bytes[|bytes| - 1 - b]
    ensures BigValue(wire) == LittleValue(bytes)
    decreases |wire|
  {
    if wire != [] {
      Reversed(wire[..|wire| - 1], bytes[1..]);
    }
  }

  /** The bytes as spelt, read in the target's order, are the register's value cut to its width. */
  lemma SpellsValue(hex: seq<u8>, w: nat, big: bool, v: u64, wire: seq<u8>)
    requires w <= 8 && Spells(hex, w, big, v) && |wire| == w
    requires forall b :: 0 <= b < w ==> HexPair(hex, b) && wire[b] == PairValue(hex, b)
    ensures Compose(wire, big) == LittleValue(v[..w])
  {
    forall b | 0 <= b < w
      ensures wire[b] == v[Position(w, big, b)]
    {
      var x := v[Position(w, big, b)];
      assert hex[2 * b] == HexDigit(x / 16) && hex[2 * b + 1] == HexDigit(x % 16);
      HexRoundTrip(x / 16);
      HexRoundTrip(x % 16);
    }
    hide HexPair, PairValue;
    if big {
      Reversed(wire, v[..w]);
    } else {
      assert wire == v[..w];
    }
  }

  /** Reading back what was spelled gives the register's low bytes. */
  lemma SpellsBack(hex: seq<u8>, w: nat, big: bool, v: u64)
    requires w <= 8 && Spells(hex, w, big, v)
    ensures RegValue(w, big, hex) == Low(v, w)
  {
    forall b | 0 <= b < w
      ensures HexPair(hex, b) && PairValue(hex, b) == v[Position(w, big, b)]
    {
      HexRoundTrip(v[Position(w, big, b)] / 16);
      HexRoundTrip(v[Position(w, big, b)] % 16);
    }
    forall i | 0 <= i < w
      ensures RegByte(w, big, hex, i) == v[i]
    {
      assert Position(w, big, Position(w, big, i)) == i;
    }
  }

  // ---- whole register files ----

  predicate Widths(ws: seq<nat>) {
    forall i :: 0 <= i < |ws| ==> 1 <= ws[i] <= 8
  }

  /** Where register `r` starts in a packet: twice the widths before it. */
  function Offset(ws: seq<nat>, r: nat): nat
    requires r <= |ws|
  {
    if r == 0 then 0 else Offset(ws, r - 1) + 2 * ws[r - 1]
  }

  lemma {:induction false} OffsetMonotone(ws: seq<nat>, i: nat, j: nat)
    requires i <= j <= |ws|
    ensures Offset(ws, i) <= Offset(ws, j)
    decreases j
  {
    if i < j {
      OffsetMonotone(ws, i, j - 1);
    }
  }

  /** Register `r`'s own digits. */
  function Piece(body: seq<u8>, ws: seq<nat>, r: nat): (p: seq<u8>)
    requires r < |ws| && Offset(ws, r + 1) <= |body|
    ensures |p| == 2 * ws[r]
  {
    body[Offset(ws, r)..Offset(ws, r + 1)]
  }

  predicate Reaches(body: seq<u8>, ws: seq<nat>, r: nat)
    requires r < |ws|
  {
    Offset(ws, r + 1) <= |body|
  }

  predicate Carries(body: seq<u8>, ws: seq<nat>, big: bool, r: nat, v: u64)
    requires Widths(ws) && r < |ws|
  {
    Reaches(body, ws, r) && Spells(Piece(body, ws, r), ws[r], big, v)
  }

  lemma CarriesMore(body: seq<u8>, more: seq<u8>, ws: seq<nat>, big: bool, r: nat, v: u64)
    requires Widths(ws) && r < |ws| && Carries(body, ws, big, r, v)
    ensures Carries(body + more, ws, big, r, v)
  {
    assert Piece(body + more, ws, r) == Piece(body, ws, r);
  }

  /** The `g` reply: as many registers as leave the 1024-byte body unfilled. */
  method ReadRegs(ws: seq<nat>, big: bool, vals: seq<u64>) returns (body: seq<u8>, k: nat)
    requires Widths(ws) && |vals| == |ws|
    ensures k <= |ws| && (k < |ws| ==> Offset(ws, k + 1) >= MAX_PACKET)
    ensures |body| == Offset(ws, k) < MAX_PACKET
    ensures forall r :: 0 <= r < k ==> Carries(body, ws, big, r, vals[r])
  {
    hide Spells;
    body, k := [], 0;
    while k < |ws|
      invariant k <= |ws| && |body| == Offset(ws, k) < MAX_PACKET
      invariant forall r :: 0 <= r < k ==> Carries(body, ws, big, r, vals[r])
    {
      if |body| + 2 * ws[k] >= MAX_PACKET {
        return;
      }
      var hex := PutRegHex(ws[k], big, vals[k]);
      assert |hex| == 2 * ws[k] by { SpellsLength(hex, ws[k], big, vals[k]); }
      forall r | 0 <= r < k
        ensures Carries(body + hex, ws, big, r, vals[r])
      {
        CarriesMore(body, hex, ws, big, r, vals[r]);
      }
      assert Piece(body + hex, ws, k) == hex;
      assert Carries(body + hex, ws, big, k, vals[k]);
      body := body + hex;
      k := k + 1;
    }
  }

  lemma SpellsLength(hex: seq<u8>, w: nat, big: bool, v: u64)
    requires w <= 8 && Spells(hex, w, big, v)
    ensures |hex| == 2 * w
  {
  }

  predicate Delivers(body: seq<u8>, ws: seq<nat>, big: bool, r: nat, v: u64)
    requires Widths(ws) && r < |ws|
  {
    Reaches(body, ws, r) && v == RegValue(ws[r], big, Piece(body, ws, r))
  }

  /** A `G` packet delivers each register the digits at its own offset, as far as the packet reaches. */
  method WriteRegs(ws: seq<nat>, big: bool, body: seq<u8>) returns (regs: seq<u64>)
    requires Widths(ws)
    ensures |regs| <= |ws| && (|regs| < |ws| ==> !Reaches(body, ws, |regs|))
    ensures forall r :: 0 <= r < |regs| ==> Delivers(body, ws, big, r, regs[r])
  {
    hide RegValue;
    regs := [];
    var at := 0;
    while |regs| < |ws|
      invariant |regs| <= |ws| && at == Offset(ws, |regs|) <= |body|
      invariant forall r :: 0 <= r < |regs| ==> Delivers(body, ws, big, r, regs[r])
      decreases |ws| - |regs|
    {
      var r := |regs|;
      if at + 2 * ws[r] > |body| {
        return;
      }
      var v := GetRegHex(ws[r], big, body[at..at + 2 * ws[r]]);
      assert Piece(body, ws, r) == body[at..at + 2 * ws[r]];
      assert Delivers(body, ws, big, r, v);
      regs := regs + [v];
      at := at + 2 * ws[r];
    }
  }

  lemma DeliversCarried(body: seq<u8>, ws: seq<nat>, big: bool, r: nat, v: u64, got: u64)
    requires Widths(ws) && r < |ws| && Carries(body, ws, big, r, v) && Delivers(body, ws, big, r, got)
    ensures got == Low(v, ws[r])
  {
    SpellsBack(Piece(body, ws, r), ws[r], big, v);
  }

  /** Writing back a `g` reply with `G` gives every register its own value, when the file fits a packet. */
  method ReadThenWrite(ws: seq<nat>, big: bool, vals: seq<u64>) returns (regs: seq<u64>)
    requires Widths(ws) && |vals| == |ws| && Offset(ws, |ws|) < MAX_PACKET
    ensures |regs| == |ws| && forall r :: 0 <= r < |ws| ==> regs[r] == Low(vals[r], ws[r])
  {
    hide Carries, Delivers, Low;
    var body, k := ReadRegs(ws, big, vals);
    if k < |ws| {
      OffsetMonotone(ws, k + 1, |ws|);
    }
    regs := WriteRegs(ws, big, body);
    if |regs| < |ws| {
      OffsetMonotone(ws, |regs| + 1, |ws|);
    }
    forall r | 0 <= r < |ws|
      ensures regs[r] == Low(vals[r], ws[r])
    {
      DeliversCarried(body, ws, big, r, vals[r], regs[r]);
    }
  }
}
