/**
 * The ARMv7-M shifter with carry out (ARM DDI 0403E, sections A2.2.1 and A7.4.2) and the modified
 * immediates built on it (section A5.3.2).
 */
module Shifter {
  import opened Bits

  datatype Shift = LSL | LSR | ASR | ROR | RRX

  /** A shifted word and the carry it leaves. */
  datatype Result = Result(value: Word, carry: bool)

  /** The operand of an instruction's shift field. */
  function DecodeImmShift(kind: nat, imm5: nat): (Shift, nat)
    requires kind < 4 && imm5 < 32
  {
    if kind == 0 then (LSL, imm5)
    else if kind == 1 then (LSR, if imm5 != 0 then imm5 else 32)
    else if kind == 2 then (ASR, if imm5 != 0 then imm5 else 32)
    else if imm5 == 0 then (RRX, 1) else (ROR, imm5)
  }

  /** A word whose lowest bit is `c`. */
  function OneBit(c: bool): Word {
    seq(32, k => k == 0 && c)
  }

  function Rotate(v: Word, m: nat): Word
    requires m < 32
  {
    if m == 0 then v else Or(Shr(v, m), Shl(v, 32 - m))
  }

  function ShiftC(v: Word, shift: Shift, amount: nat, carry: bool): Result {
    if shift == RRX then Result(Or(Shl(OneBit(carry), 31), Shr(v, 1)), v[0])
    else if amount == 0 then Result(v, carry)
    else if shift == LSL then
      if amount < 32 then Result(Shl(v, amount), Shr(v, 32 - amount)[0])
      else Result(Zero(), amount == 32 && v[0])
    else if shift == LSR then
      if amount < 32 then Result(Shr(v, amount), Shr(v, amount - 1)[0])
      else Result(Zero(), amount == 32 && Shr(v, 31)[0])
    else if shift == ASR then
      if amount < 32 then Result(Asr(v, amount), Shr(v, amount - 1)[0])
      else Result(Asr(v, 31), Shr(v, 31)[0])
    else
      var r := Rotate(v, amount % 32);
      Result(r, Shr(r, 31)[0])
  }

  // ---- the reference: one place at a time ----

  /** Shift by one place; the carry is the bit that falls out. */
  function Once(shift: Shift, v: Word, carry: bool): Result {
    match shift
    case LSL => Result([false] + v[..31], v[31])
    case LSR => Result(v[1..] + [false], v[0])
    case ASR => Result(v[1..] + [v[31]], v[0])
    case ROR => Result(v[1..] + [v[0]], v[0])
    case RRX => Result(v[1..] + [carry], v[0])
  }

  /** One place, `n` times over. */
  function Places(shift: Shift, v: Word, carry: bool, n: nat): Result {
    if n == 0 then Result(v, carry)
    else Once(shift, Places(shift, v, carry, n - 1).value, Places(shift, v, carry, n - 1).carry)
  }

  /** One more place of the closed form is one place. */
  predicate OneMore(shift: Shift, v: Word, carry: bool, n: nat)
    requires n > 0
  {
    var r := ShiftC(v, shift, n - 1, carry);
    Once(shift, r.value, r.carry) == ShiftC(v, shift, n, carry)
  }

  lemma LslOneMore(v: Word, carry: bool, n: nat)
    requires n > 0
    ensures OneMore(LSL, v, carry, n)
  {
    hide Asr, Rotate, Or;
  }

  lemma LsrOneMore(v: Word, carry: bool, n: nat)
    requires n > 0
    ensures OneMore(LSR, v, carry, n)
  {
    hide Asr, Rotate, Or, Shl;
  }

  lemma AsrOneMore(v: Word, carry: bool, n: nat)
    requires n > 0
    ensures OneMore(ASR, v, carry, n)
  {
    hide Rotate, Or, Shl, Zero;
  }

  lemma RotateAt(v: Word, m: nat)
    requires m < 32
    ensures forall k :: 0 <= k < 32 ==> Rotate(v, m)[k] == v[if k + m < 32 then k + m else k + m - 32]
  {
  }

  /** A rotate by one more place is that rotate, turned once. */
  lemma RotateOnce(v: Word, m: nat, next: nat)
    requires m < 32 && next == if m == 31 then 0 else m + 1
    ensures Rotate(v, m)[1..] + [Rotate(v, m)[0]] == Rotate(v, next)
  {
    RotateAt(v, m);
    RotateAt(v, next);
    hide Rotate;
    var a, b := Rotate(v, m), Rotate(v, next);
    var turned := a[1..] + [a[0]];
    forall k | 0 <= k < 32
      ensures turned[k] == b[k]
    {
      assert turned[k] == if k < 31 then a[k + 1] else a[0];
    }
  }

  lemma RorIs(v: Word, carry: bool, n: nat)
    ensures ShiftC(v, ROR, n, carry).value == Rotate(v, n % 32)
    ensures n > 0 ==> ShiftC(v, ROR, n, carry).carry == Rotate(v, n % 32)[31]
  {
    TopBit(Rotate(v, n % 32));
    hide Or, Shl, Shr, Asr, Zero;
  }

  lemma NextPlace(n: nat)
    requires n > 0
    ensures n % 32 == if (n - 1) % 32 == 31 then 0 else (n - 1) % 32 + 1
  {
  }

  lemma Turn(r: Result, b: Word, all: Result)
    requires r.value[1..] + [r.value[0]] == b && all.value == b && all.carry == b[31]
    ensures Once(ROR, r.value, r.carry) == all
  {
    assert (r.value[1..] + [r.value[0]])[31] == r.value[0];
  }

  lemma RorOneMore(v: Word, carry: bool, n: nat)
    requires n > 0
    ensures OneMore(ROR, v, carry, n)
  {
    NextPlace(n);
    var m, next := (n - 1) % 32, n % 32;
    hide ShiftC, Rotate, Once;
    RorIs(v, carry, n - 1);
    RorIs(v, carry, n);
    RotateOnce(v, m, next);
    Turn(ShiftC(v, ROR, n - 1, carry), Rotate(v, next), ShiftC(v, ROR, n, carry));
  }

  /** The closed form is the shift made one place at a time, at every amount. */
  lemma {:induction false} ShiftIsPlaces(shift: Shift, v: Word, carry: bool, n: nat)
    requires !shift.RRX?
    ensures ShiftC(v, shift, n, carry) == Places(shift, v, carry, n)
  {
    if n > 0 {
      ShiftIsPlaces(shift, v, carry, n - 1);
      hide ShiftC;
      match shift
      case LSL => LslOneMore(v, carry, n);
      case LSR => LsrOneMore(v, carry, n);
      case ASR => AsrOneMore(v, carry, n);
      case ROR => RorOneMore(v, carry, n);
    }
  }

  /** RRX turns the word and the carry, as 33 bits, one place to the right. */
  lemma RrxTurns(v: Word, amount: nat, carry: bool)
    ensures var r := ShiftC(v, RRX, amount, carry);
            r.value + [r.carry] == v[1..] + [carry, v[0]]
  {
    var r := ShiftC(v, RRX, amount, carry);
    forall k | 0 <= k < 32
      ensures r.value[k] == (v[1..] + [carry])[k]
    {
    }
  }

  /** A shift field shifts by its five bits, where none set means 32 places, or RRX for a rotate. */
  lemma ImmediateShift(kind: nat, imm5: nat, v: Word, carry: bool)
    requires kind < 4 && imm5 < 32
    ensures var d := DecodeImmShift(kind, imm5);
            var r := ShiftC(v, d.0, d.1, carry);
            if kind == 0 then r == Places(LSL, v, carry, imm5)
            else if kind == 1 then r == Places(LSR, v, carry, if imm5 == 0 then 32 else imm5)
            else if kind == 2 then r == Places(ASR, v, carry, if imm5 == 0 then 32 else imm5)
            else if imm5 != 0 then r == Places(ROR, v, carry, imm5)
            else r.value + [r.carry] == v[1..] + [carry, v[0]]
  {
    var d := DecodeImmShift(kind, imm5);
    if d.0.RRX? {
      RrxTurns(v, d.1, carry);
    } else {
      ShiftIsPlaces(d.0, v, carry, d.1);
    }
  }

  // ---- modified immediates ----

  /** The low `n` bits. */
  function LowBits(a: Word, n: nat): Word {
    seq(32, k requires 0 <= k < 32 => k < n && a[k])
  }

  function BitValue(c: bool, weight: nat): nat {
    if c then weight else 0
  }

  /** Bits 11 to 7 as a number. */
  function Rotation(imm12: Word): nat {
    BitValue(imm12[7], 1) + BitValue(imm12[8], 2) + BitValue(imm12[9], 4) +
    BitValue(imm12[10], 8) + BitValue(imm12[11], 16)
  }

  /** A byte in all four places. */
  function Everywhere(b: Word): Word {
    Or(Or(b, Shl(b, 8)), Or(Shl(b, 16), Shl(b, 24)))
  }

  /** Which is what multiplying it by 0x01010101 gives, in 32-bit arithmetic. */
  lemma TimesOnes(b: bv32)
    requires b < 0x100
    ensures b * 0x0101_0101 == b | (b << 8) | (b << 16) | (b << 24)
  {
  }

  function ExpandImmC(imm12: Word, carry: bool): Result {
    if !imm12[10] && !imm12[11] then
      var imm8 := LowBits(imm12, 8);
      Result(
        if !imm12[9] && !imm12[8] then imm8
        else if !imm12[9] then Or(Shl(imm8, 16), imm8)
        else if !imm12[8] then Or(Shl(imm8, 24), Shl(imm8, 8))
        else Everywhere(imm8),
        carry)
    else
      Result(Turned(imm12), Turned(imm12)[31])
  }

  /** 1:imm7 turned right by the rotation. */
  function Turned(imm12: Word): Word {
    Or(Shr(OneImm7(imm12), Rotation(imm12)), Shl(OneImm7(imm12), 32 - Rotation(imm12)))
  }

  function OneImm7(imm12: Word): Word {
    LowBits(imm12, 7)[7 := true]
  }

  /** Rotated immediates are the shifter's own rotate of 1:imm7, carry and all. */
  lemma ExpandRotates(imm12: Word, carry: bool)
    requires imm12[10] || imm12[11]
    ensures 8 <= Rotation(imm12) < 32
    ensures ExpandImmC(imm12, carry) == Places(ROR, OneImm7(imm12), carry, Rotation(imm12))
  {
    var v, n := OneImm7(imm12), Rotation(imm12);
    TopBit(Turned(imm12));
    hide Or, Shl, Shr, OneImm7, Places;
    assert 8 <= n < 32;
    hide Rotation;
    assert Rotate(v, n) == Turned(imm12);
    ShiftIsPlaces(ROR, v, carry, n);
  }

  lemma TopBit(r: Word)
    ensures Shr(r, 31)[0] == r[31]
  {
  }

  /** Which bytes of an unrotated immediate hold imm8. */
  predicate Filled(imm12: Word, byte: nat) {
    if !imm12[9] && !imm12[8] then byte == 0
    else if !imm12[9] then byte == 0 || byte == 2
    else if !imm12[8] then byte == 1 || byte == 3
    else true
  }

  /** Unrotated immediates are imm8 in some of the four bytes and nothing in the others, and keep the carry. */
  lemma ExpandPattern(imm12: Word, carry: bool, byte: nat, k: nat)
    requires !imm12[10] && !imm12[11] && byte < 4 && k < 8
    ensures ExpandImmC(imm12, carry).carry == carry
    ensures ExpandImmC(imm12, carry).value[8 * byte + k] == (Filled(imm12, byte) && imm12[k])
  {
  }
}
