/** Machine words and the two byte orders a guest value can have in memory. */
module Words {

  const TOP: int := 0x1_0000_0000

  type u8 = x: int | 0 <= x < 0x100
  type u16 = x: int | 0 <= x < 0x1_0000
  type u32 = x: int | 0 <= x < 0x1_0000_0000

  datatype Option<+T> = None | Some(value: T)

  /** Unsigned 32-bit subtraction, which wraps. */
  function Sub32(a: u32, b: u32): u32 {
    if a >= b then a - b else a - b + TOP
  }

  /** Unsigned 32-bit addition, which wraps. */
  function Add32(a: u32, b: u32): u32 {
    if a + b < TOP then a + b else a + b - TOP
  }

  /** The access sizes the bus serves. */
  predicate IsSize(size: nat) {
    size == 1 || size == 2 || size == 4
  }

  /** Reference: the value of bytes that lie least significant first. */
  function LittleValue(s: seq<u8>): nat {
    if s == [] then 0 else s[0] as int + 0x100 * LittleValue(s[1..])
  }

  /** Reference: the value of bytes that lie most significant first. */
  function BigValue(s: seq<u8>): nat {
    if s == [] then 0 else BigValue(s[..|s| - 1]) * 0x100 + s[|s| - 1]
  }

  /** Reference: bytes in memory composed into a value in the guest's order. */
  function Compose(s: seq<u8>, be: bool): nat {
    if be then BigValue(s) else LittleValue(s)
  }

  /** Byte i of s as an unbounded integer. */
  function At(s: seq<u8>, i: nat): int
    requires i < |s|
  {
    s[i]
  }

  /** A little-endian host load of 1, 2 or 4 bytes (emu_host_ld16/ld32). */
  function HostLoad(s: seq<u8>): u32
    requires IsSize(|s|)
  {
    if |s| == 1 then s[0]
    else if |s| == 2 then At(s, 0) + 0x100 * At(s, 1)
    else At(s, 0) + 0x100 * At(s, 1) + 0x1_0000 * At(s, 2) + 0x100_0000 * At(s, 3)
  }

  /** The bytes a little-endian host store writes (emu_host_st16/st32). */
  function HostStore(v: u32, size: nat): (s: seq<u8>)
    requires IsSize(size)
    ensures |s| == size
  {
    if size == 1 then [v % 0x100]
    else if size == 2 then [v % 0x100, v / 0x100 % 0x100]
    else [v % 0x100, v / 0x100 % 0x100, v / 0x1_0000 % 0x100, v / 0x100_0000]
  }

  /** Byte reversal within an access (emu_bswap). */
  function Bswap(v: u32, size: nat): u32
    requires IsSize(size)
  {
    if size == 1 then v
    else if size == 2 then v % 0x100 * 0x100 + v / 0x100 % 0x100
    else v % 0x100 * 0x100_0000 + v / 0x100 % 0x100 * 0x1_0000 + v / 0x1_0000 % 0x100 * 0x100 + v / 0x100_0000
  }

  /** The low `size` bytes of a value. */
  function Truncate(v: u32, size: nat): u32
    requires IsSize(size)
  {
    if size == 1 then v % 0x100 else if size == 2 then v % 0x1_0000 else v
  }

  /** Reversal applied only for a big-endian guest (EMU_BUS_ORDER). */
  function Order(be: bool, v: u32, size: nat): u32
    requires IsSize(size)
  {
    if be then Bswap(v, size) else v
  }

  /** Both references written out for the three access sizes. */
  lemma Unfolded(s: seq<u8>)
    requires IsSize(|s|)
    ensures LittleValue(s) ==
            if |s| == 1 then At(s, 0)
            else if |s| == 2 then At(s, 0) + 0x100 * At(s, 1)
            else At(s, 0) + 0x100 * (At(s, 1) + 0x100 * (At(s, 2) + 0x100 * At(s, 3)))
    ensures BigValue(s) ==
            if |s| == 1 then At(s, 0)
            else if |s| == 2 then At(s, 0) * 0x100 + At(s, 1)
            else ((At(s, 0) * 0x100 + At(s, 1)) * 0x100 + At(s, 2)) * 0x100 + At(s, 3)
  {
    var n := |s|;
    assert LittleValue([]) == BigValue([]) == 0;
    if n == 1 {
      assert s[1..] == [] && s[..0] == [];
    } else if n == 2 {
      Unfolded(s[1..]);
      Unfolded(s[..1]);
    } else {
      assert s[1..] == [s[1], s[2], s[3]] && s[..3] == [s[0], s[1], s[2]];
      assert LittleValue(s[1..]) == At(s, 1) + 0x100 * LittleValue(s[2..]) by { assert s[1..][1..] == s[2..]; }
      assert BigValue(s[..3]) == BigValue(s[..2]) * 0x100 + At(s, 2) by { assert s[..3][..2] == s[..2]; }
      Unfolded(s[2..]);
      Unfolded(s[..2]);
    }
  }

  /** The byte extractions of a value written as four bytes. */
  lemma Digits(v: int, a: u8, b: u8, c: u8, d: u8)
    requires v == a as int + 0x100 * (b as int + 0x100 * (c as int + 0x100 * d as int))
    ensures v % 0x100 == a && v / 0x100 % 0x100 == b && v / 0x1_0000 % 0x100 == c && v / 0x100_0000 == d
  {
    var w := b as int + 0x100 * (c as int + 0x100 * d as int);
    assert v % 0x100 == a && v / 0x100 == w;
    var x := c as int + 0x100 * d as int;
    assert w % 0x100 == b && w / 0x100 == x;
    assert v / 0x1_0000 == x;
    assert x % 0x100 == c && x / 0x100 == d;
  }

  /** A word's bytes the other way round. */
  lemma SwappedWord(v: u32, a: u8, b: u8, c: u8, d: u8)
    requires v == a as int + 0x100 * (b as int + 0x100 * (c as int + 0x100 * d as int))
    ensures Bswap(v, 4) == ((a as int * 0x100 + b as int) * 0x100 + c as int) * 0x100 + d as int
  {
    Digits(v, a, b, c, d);
  }

  /** A host load, reordered for the guest, is the guest-order composition. */
  lemma LoadComposes(s: seq<u8>, be: bool)
    requires IsSize(|s|)
    ensures Order(be, HostLoad(s), |s|) == Compose(s, be)
  {
    Unfolded(s);
    hide LittleValue, BigValue;
    if |s| == 4 {
      SwappedWord(HostLoad(s), s[0], s[1], s[2], s[3]);
      hide Bswap;
    }
  }

  /** A word is the sum of its bytes. */
  lemma Recompose(w: u32)
    ensures w == w % 0x100 + 0x100 * (w / 0x100 % 0x100) + 0x1_0000 * (w / 0x1_0000 % 0x100) +
                 0x100_0000 * (w / 0x100_0000)
    ensures w % 0x1_0000 == w % 0x100 + 0x100 * (w / 0x100 % 0x100)
  {
    var q := w / 0x100;
    var p := q / 0x100;
    assert w / 0x1_0000 == p && w / 0x100_0000 == p / 0x100;
    assert w == 0x100 * q + w % 0x100 && q == 0x100 * p + q % 0x100;
  }

  /** Reversing four bytes twice gives the value back. */
  lemma SwapWord(v: u32)
    ensures Bswap(Bswap(v, 4), 4) == v
  {
    Digits(Bswap(v, 4), v / 0x100_0000, v / 0x1_0000 % 0x100, v / 0x100 % 0x100, v % 0x100);
    Recompose(v);
  }

  /** Reversing a halfword twice leaves its low 16 bits. */
  lemma SwapHalf(v: u32)
    ensures Truncate(Bswap(v, 2), 2) == Bswap(v, 2)
    ensures Bswap(Bswap(v, 2), 2) == v % 0x1_0000
  {
    var lo, hi := v % 0x100, v / 0x100 % 0x100;
    var w := lo * 0x100 + hi;
    assert w / 0x100 == lo && w % 0x100 == hi;
    Recompose(v);
  }

  /** A host load of what a host store wrote is the value truncated to the access. */
  lemma LoadOfStore(w: u32, size: nat)
    requires IsSize(size)
    ensures HostLoad(HostStore(w, size)) == Truncate(w, size)
  {
    Recompose(w);
    var s := HostStore(w, size);
    if size == 4 {
      assert At(s, 0) == w % 0x100 && At(s, 1) == w / 0x100 % 0x100;
      assert At(s, 2) == w / 0x1_0000 % 0x100 && At(s, 3) == w / 0x100_0000;
    } else if size == 2 {
      assert At(s, 0) == w % 0x100 && At(s, 1) == w / 0x100 % 0x100;
    }
  }

  /** What a store leaves in memory composes back to the value, truncated to the access. */
  lemma StoreComposes(v: u32, size: nat, be: bool)
    requires IsSize(size)
    ensures Compose(HostStore(Order(be, v, size), size), be) == Truncate(v, size)
  {
    var w := Order(be, v, size);
    LoadComposes(HostStore(w, size), be);
    LoadOfStore(w, size);
    if be {
      SwapWord(v);
      SwapHalf(v);
    }
  }
}
