/**
 * Blocks of IR as the frontends emit them, and what one means: the reference interpreter. What the
 * optimiser does not look inside is a field of the target, so what is proved about the passes holds
 * for every frontend and every reading of the other operations.
 */
module Ir {
  import opened Words

  /** No operand in this slot. */
  const NONE: nat := 0xFFFF
  const MAX_TEMPS: nat := 1024
  const MAX_INSNS: nat := 2048

  datatype Flag = Z | S | V | C

  const ALL: set<Flag> := {Z, S, V, C}

  datatype BitKind = Test | SetBit | ClearBit | InvertBit

  datatype Op =
    | Nop
    | Get | Put
    | Const | Mov
    | Add | Sub | And | Or | Xor | Shl | Shr | Sar | Rotl | Mul | Mac
    | AddI | AndI | OrI | XorI | ShlI | ShrI | SarI | RotlI
    | Pure(code: nat)
    | GetCond | Select
    | FGet | FPut | Float(code: nat)
    | Load | Store | BitOp(kind: BitKind)
    | SetF
    | Helper | HelperTrap
    | Retire | SetPc
    | Exit | ExitIf

  /** `dst`, `a`, `b` and `c` are temps; `defs` the flags defined and `live` those of them still wanted. */
  datatype Insn = Insn(op: Op, aux: nat, dst: nat, a: nat, b: nat, c: nat, imm: u32,
                       defs: set<Flag>, live: set<Flag>, uses: nat, dead: bool)

  // ---- the guest ----

  /**
   * `flags` holds the flags that are set. `rest` is memory, devices, the floating-point file and whatever else a
   * frontend keeps.
   */
  datatype Guest<W> = Guest(regs: map<u32, u32>, pc: u32, flags: set<Flag>, rest: W)

  /** A memory access traps, having entered the trap, or changes no register, flag or pc. */
  datatype Access<W> = Trap(guest: Guest<W>) | Served(rest: W, value: u32)

  datatype Target<!W> = Target(
    zero: u32 -> bool,
    pcReg: Option<u32>,
    start: u32,
    flagsOf: (nat, u32, u32) -> set<Flag>,
    cond: (nat, set<Flag>) -> bool,
    compare: (nat, u32, u32) -> bool,
    times: (u32, u32) -> u32,
    pure: (nat, nat, u32, u32, u32, u32) -> u32,
    fget: (W, nat, u32) -> u32,
    fput: (W, nat, u32, u32) -> W,
    float: (W, nat, nat, u32, u32, u32, u32) -> (W, u32),
    load: (Guest<W>, u32, nat) -> Access<W>,
    store: (Guest<W>, u32, nat, u32) -> Access<W>,
    helper: (Guest<W>, u32, u32, u32) -> (Guest<W>, u32))

  /** How one pass over a block ended: the guest, the instructions retired, and whether it closes on itself. */
  datatype Result<W> = Result(guest: Guest<W>, retired: nat, again: bool)

  /** One instruction: on to the next with a value, or out of the block. */
  datatype Outcome<W> = Next(guest: Guest<W>, retired: nat, value: u32) | Stop(result: Result<W>)

  function ReadReg<W>(t: Target<W>, g: Guest<W>, n: u32): u32 {
    if t.zero(n) then 0 else if t.pcReg == Some(n) then g.pc else if n in g.regs then g.regs[n] else 0
  }

  function WriteReg<W>(t: Target<W>, g: Guest<W>, n: u32, v: u32): Guest<W> {
    if t.zero(n) then g else if t.pcReg == Some(n) then g.(pc := v) else g.(regs := g.regs[n := v])
  }

  function Pow2(k: nat): (p: nat)
    ensures p >= 1
  {
    if k == 0 then 1 else 2 * Pow2(k - 1)
  }

  datatype Gate = AndGate | OrGate | XorGate

  function Bit(gate: Gate, p: nat, q: nat): nat
    requires p < 2 && q < 2
  {
    match gate
    case AndGate => if p == 1 && q == 1 then 1 else 0
    case OrGate => if p == 1 || q == 1 then 1 else 0
    case XorGate => if p != q then 1 else 0
  }

  /** A bitwise operation on the low `n` bits. */
  function Bitwise(gate: Gate, x: nat, y: nat, n: nat): (r: nat)
    ensures r < Pow2(n)
  {
    if n == 0 then 0 else Bit(gate, x % 2, y % 2) + 2 * Bitwise(gate, x / 2, y / 2, n - 1)
  }

  function Word(gate: Gate, x: u32, y: u32): u32 {
    Pow2Top();
    Bitwise(gate, x, y, 32)
  }

  lemma Pow2Top()
    ensures Pow2(32) == TOP
  {
    assert Pow2(4) == 16;
    assert Pow2(8) == 0x100;
    assert Pow2(12) == 0x1000;
    assert Pow2(16) == 0x1_0000;
    assert Pow2(20) == 0x10_0000;
    assert Pow2(24) == 0x100_0000;
    assert Pow2(28) == 0x1000_0000;
  }

  function Shl32(x: u32, k: nat): u32 {
    if k == 0 then x else 2 * Shl32(x, k - 1) % TOP
  }

  function Shr32(x: u32, k: nat): u32 {
    if k == 0 then x else Shr32(x, k - 1) / 2
  }

  /** The sign fills in: the complement's logical shift, complemented. */
  function Sar32(x: u32, k: nat): u32 {
    if x < 0x8000_0000 then Shr32(x, k) else TOP - 1 - Shr32(TOP - 1 - x, k)
  }

  /** The two-operand operations that have an immediate form. */
  function Alu(op: Op, x: u32, y: u32): u32 {
    match op
    case Add => Add32(x, y)
    case And => Word(AndGate, x, y)
    case Or => Word(OrGate, x, y)
    case Xor => Word(XorGate, x, y)
    case Shl => Shl32(x, y % 32)
    case Shr => Shr32(x, y % 32)
    case Sar => Sar32(x, y % 32)
    case Rotl => if y % 32 == 0 then x else Word(OrGate, Shl32(x, y % 32), Shr32(x, 32 - y % 32))
    case _ => 0
  }

  function BaseOf(op: Op): Op {
    match op
    case AddI => Add
    case AndI => And
    case OrI => Or
    case XorI => Xor
    case ShlI => Shl
    case ShrI => Shr
    case SarI => Sar
    case RotlI => Rotl
    case _ => op
  }

  predicate IsAlu(op: Op) {
    op.Add? || op.And? || op.Or? || op.Xor? || op.Shl? || op.Shr? || op.Sar? || op.Rotl?
  }

  predicate IsImm(op: Op) {
    op.AddI? || op.AndI? || op.OrI? || op.XorI? || op.ShlI? || op.ShrI? || op.SarI? || op.RotlI?
  }

  /** The operations whose value is a matter of their operands alone. */
  predicate IsArith(op: Op) {
    op.Const? || op.Mov? || op.Sub? || op.Mul? || op.Mac? || op.Pure? || IsAlu(op) || IsImm(op)
  }

  function Arith<W>(t: Target<W>, op: Op, aux: nat, imm: u32, a: u32, b: u32, c: u32): u32
    requires IsArith(op)
  {
    match op
    case Const => imm
    case Mov => a
    case Sub => Sub32(a, b)
    case Mul => t.times(a, b)
    case Mac => if aux % 2 == 1 then Sub32(c, t.times(a, b)) else Add32(c, t.times(a, b))
    case Pure(code) => t.pure(code, aux, imm, a, b, c)
    case _ => if IsImm(op) then Alu(BaseOf(op), a, imm) else Alu(op, a, b)
  }

  /** Nothing but a value: no effect, no trap. */
  predicate IsPure(op: Op) {
    IsArith(op) || op.Get? || op.GetCond? || op.Select? || op.FGet?
  }

  function Value<W>(t: Target<W>, op: Op, aux: nat, imm: u32, a: u32, b: u32, c: u32, g: Guest<W>): u32
    requires IsPure(op)
  {
    match op
    case Get => ReadReg(t, g, imm)
    case GetCond => if t.cond(aux, g.flags) then 1 else 0
    case Select => if t.cond(aux, g.flags) then a else b
    case FGet => t.fget(g.rest, aux, imm)
    case _ => Arith(t, op, aux, imm, a, b, c)
  }

  function SetFlags(flags: set<Flag>, which: set<Flag>, values: set<Flag>): set<Flag> {
    (flags - which) + values * which
  }

  function LoadAct<W>(t: Target<W>, addr: u32, aux: nat, g: Guest<W>, n: nat): Outcome<W> {
    match t.load(g, addr, aux)
    case Trap(h) => Stop(Result(h, n, false))
    case Served(rest, v) => Next(g.(rest := rest), n, v)
  }

  function StoreAct<W>(t: Target<W>, addr: u32, aux: nat, v: u32, g: Guest<W>, n: nat): Outcome<W> {
    match t.store(g, addr, aux, v)
    case Trap(h) => Stop(Result(h, n, false))
    case Served(rest, _) => Next(g.(rest := rest), n, 0)
  }

  function Changed(kind: BitKind, token: u32, mask: u32): u32 {
    match kind
    case Test => token
    case SetBit => Word(OrGate, token, mask)
    case ClearBit => Word(AndGate, token, TOP - 1 - mask)
    case InvertBit => Word(XorGate, token, mask)
  }

  /** A bit operation on memory: Z tells whether the bit was clear, and all but a test store the byte again. */
  function BitAct<W>(t: Target<W>, kind: BitKind, addr: u32, b: u32, g: Guest<W>, n: nat): Outcome<W> {
    var loaded := LoadAct(t, addr, 1, g, n);
    if loaded.Stop? then loaded else
      var token, mask := loaded.value, Shl32(1, b % 8);
      var clear := if Word(AndGate, token, mask) != 0 then {} else {Z};
      var flagged := loaded.guest.(flags := SetFlags(g.flags, {Z}, clear));
      if kind.Test? then Next(flagged, n, 0) else StoreAct(t, addr, 1, Changed(kind, token, mask), flagged, n)
  }

  /** The operations that can end the block or call out of it, where no write may still be owed. */
  predicate Observes(op: Op) {
    op.Load? || op.Store? || op.BitOp? || op.Helper? || op.HelperTrap? || op.Exit? || op.ExitIf?
  }

  function Observe<W>(t: Target<W>, op: Op, aux: nat, imm: u32, hasA: bool, hasC: bool,
                      a: u32, b: u32, c: u32, g: Guest<W>, n: nat): Outcome<W>
    requires Observes(op)
  {
    match op
    case Load => if hasC && c == 0 then Next(g, n, 0) else LoadAct(t, Add32(a, imm), aux, g, n)
    case Store => if hasC && c == 0 then Next(g, n, 0) else StoreAct(t, Add32(a, imm), aux, b, g, n)
    case BitOp(kind) => BitAct(t, kind, Add32(a, imm), b, g, n)
    case Exit => Stop(Result(g.(pc := if hasA then a else imm), n, !hasA && imm == t.start))
    case ExitIf =>
      if t.compare(aux, a, b) then Stop(Result(g.(pc := imm), n, imm == t.start)) else Next(g, n, 0)
    case _ =>
      var r := t.helper(g, imm, a, b);
      if op.HelperTrap? && r.1 != 0 then Stop(Result(r.0, n, false)) else Next(r.0, n, r.1)
  }

  /** The operations that change guest state and cannot leave the block. */
  function Change<W>(t: Target<W>, op: Op, aux: nat, imm: u32, live: set<Flag>, hasA: bool,
                     a: u32, b: u32, c: u32, g: Guest<W>): (Guest<W>, u32)
  {
    match op
    case Put => (WriteReg(t, g, imm, a), 0)
    case FPut => (g.(rest := t.fput(g.rest, aux, imm, a)), 0)
    case Float(code) =>
      var r := t.float(g.rest, code, aux, imm, a, b, c);
      (g.(rest := r.0), r.1)
    case SetF => (g.(flags := SetFlags(g.flags, live, t.flagsOf(aux, a, b))), 0)
    case SetPc => (g.(pc := if hasA then a else imm), 0)
    case _ => (g, 0)
  }

  /** What an operation does, given its operands' values and which of them are there at all. */
  function Act<W>(t: Target<W>, op: Op, aux: nat, imm: u32, live: set<Flag>, hasA: bool, hasC: bool,
                  a: u32, b: u32, c: u32, g: Guest<W>, n: nat): Outcome<W>
  {
    if IsPure(op) then Next(g, n, Value(t, op, aux, imm, a, b, c, g))
    else if Observes(op) then Observe(t, op, aux, imm, hasA, hasC, a, b, c, g, n)
    else
      var r := Change(t, op, aux, imm, live, hasA, a, b, c, g);
      Next(r.0, if op.Retire? then n + RetireCount(imm) else n, r.1)
  }

  /** `imm` instructions, where none named means one. */
  function RetireCount(imm: u32): nat {
    if imm == 0 then 1 else imm
  }

  /** What an instruction adds to the retired count. */
  function Amount(x: Insn): nat {
    if !x.dead && x.op.Retire? then RetireCount(x.imm) else 0
  }

  // ---- blocks ----

  type Temps = map<nat, u32>

  function Arg(tmp: Temps, k: nat): u32 {
    if k != NONE && k in tmp then tmp[k] else 0
  }

  function Perform<W>(t: Target<W>, x: Insn, g: Guest<W>, n: nat, tmp: Temps): Outcome<W> {
    Act(t, x.op, x.aux, x.imm, x.live, x.a != NONE, x.c != NONE, Arg(tmp, x.a), Arg(tmp, x.b), Arg(tmp, x.c), g, n)
  }

  function Bind(tmp: Temps, x: Insn, v: u32): Temps {
    if x.dst != NONE then tmp[x.dst := v] else tmp
  }

  /** One pass over a block from the first instruction, dead ones skipped. */
  function Exec<W>(t: Target<W>, s: seq<Insn>, g: Guest<W>, n: nat, tmp: Temps): Result<W>
    decreases |s|
  {
    if s == [] then Result(g, n, false)
    else if s[0].dead then Exec(t, s[1..], g, n, tmp)
    else
      match Perform(t, s[0], g, n, tmp)
      case Stop(r) => r
      case Next(h, m, v) => Exec(t, s[1..], h, m, Bind(tmp, s[0], v))
  }

  /** What follows an instruction's outcome. */
  function Onward<W>(t: Target<W>, p: Outcome<W>, x: Insn, rest: seq<Insn>, tmp: Temps): Result<W> {
    if p.Stop? then p.result else Exec(t, rest, p.guest, p.retired, Bind(tmp, x, p.value))
  }

  lemma ExecCons<W>(t: Target<W>, x: Insn, rest: seq<Insn>, g: Guest<W>, n: nat, tmp: Temps)
    ensures Exec(t, [x] + rest, g, n, tmp) ==
            if x.dead then Exec(t, rest, g, n, tmp) else Onward(t, Perform(t, x, g, n, tmp), x, rest, tmp)
  {
    assert ([x] + rest)[1..] == rest;
    hide Perform;
  }

  /** Two blocks mean the same: from every guest, whatever an earlier block left in the temps. */
  ghost predicate Same<W(!new)>(t: Target<W>, s: seq<Insn>, r: seq<Insn>) {
    forall g, n, tmp :: Exec(t, s, g, n, tmp) == Exec(t, r, g, n, tmp)
  }

  lemma SameTrans<W(!new)>(t: Target<W>, s: seq<Insn>, r: seq<Insn>, q: seq<Insn>)
    requires Same(t, s, r) && Same(t, r, q)
    ensures Same(t, s, q)
  {
    forall g, n, tmp
      ensures Exec(t, s, g, n, tmp) == Exec(t, q, g, n, tmp)
    {
      assert Exec(t, s, g, n, tmp) == Exec(t, r, g, n, tmp);
    }
  }

  /** Blocks alike up to a place, and of the same meaning from there, mean the same. */
  lemma {:induction false} SamePrefix<W(!new)>(t: Target<W>, first: seq<Insn>, s: seq<Insn>, r: seq<Insn>)
    requires Same(t, s, r)
    ensures Same(t, first + s, first + r)
  {
    if first == [] {
      assert first + s == s && first + r == r;
    } else {
      var x, more := first[0], first[1..];
      SamePrefix(t, more, s, r);
      assert first + s == [x] + (more + s) && first + r == [x] + (more + r);
      hide Exec, Perform;
      forall g, n, tmp
        ensures Exec(t, first + s, g, n, tmp) == Exec(t, first + r, g, n, tmp)
      {
        ExecCons(t, x, more + s, g, n, tmp);
        ExecCons(t, x, more + r, g, n, tmp);
      }
    }
  }

  // ---- what the builder guarantees ----

  predicate Writes(op: Op) {
    !(op.Put? || op.FPut? || op.Store? || op.SetF? || op.Retire? || op.SetPc? || op.Exit? || op.ExitIf? ||
      op.Nop? || op.BitOp?)
  }

  predicate Known(k: nat, defined: set<nat>) {
    k == NONE || k in defined
  }

  /** An instruction after temps `defined`: it reads only those, and writes a fresh one if it writes at all. */
  predicate InsnOk(x: Insn, defined: set<nat>) {
    && Known(x.a, defined) && Known(x.b, defined) && Known(x.c, defined)
    && (x.dst != NONE ==> x.dst < MAX_TEMPS && x.dst !in defined)
    && (x.dst != NONE <==> Writes(x.op))
    && (x.op.Put? ==> x.a != NONE)
  }

  function Defines(x: Insn): set<nat> {
    if x.dead || x.dst == NONE then {} else {x.dst}
  }

  /** A block as it is built: each temp written once and before it is read, and nothing after an EXIT. */
  predicate Built(s: seq<Insn>, defined: set<nat>)
    decreases |s|
  {
    s == [] || (
      && (!s[0].dead ==> InsnOk(s[0], defined))
      && (!s[0].dead && s[0].op.Exit? ==> |s| == 1)
      && Built(s[1..], defined + Defines(s[0])))
  }

  /** The other block's retirements, and the temps it writes, place by place. */
  predicate SameFrame(s: seq<Insn>, r: seq<Insn>) {
    |s| == |r| && forall i :: 0 <= i < |s| ==> Amount(s[i]) == Amount(r[i]) && s[i].dst == r[i].dst
  }

  /** Temps are numbered in the order they are emitted. */
  predicate Ordered(s: seq<Insn>) {
    forall i, j :: 0 <= i < j < |s| && s[i].dst != NONE && s[j].dst != NONE ==> s[i].dst < s[j].dst
  }

  lemma SameFrameCons(x: Insn, y: Insn, s: seq<Insn>, r: seq<Insn>)
    requires Amount(x) == Amount(y) && x.dst == y.dst && SameFrame(s, r)
    ensures SameFrame([x] + s, [y] + r)
  {
  }
}
