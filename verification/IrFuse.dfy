/**
 * Fusion: a constant operand into an immediate, an address sum into an access's displacement, an
 * operation that computes its own input into a move, and a multiply with its only reader into a
 * multiply-accumulate.
 */
module IrFuse {
  import opened Words
  import opened Ir
  import opened IrRewrite

  // ---- readers and definition sites ----

  /** Counts that are never low, unless they have saturated, and where each live temp is defined. */
  ghost predicate Tabled(s: seq<Insn>, uses: seq<nat>, def: seq<nat>) {
    && |uses| == MAX_TEMPS == |def|
    && (forall k :: 0 <= k < MAX_TEMPS ==> uses[k] == 255 || Count(s, k) <= uses[k])
    && (forall k :: 0 <= k < MAX_TEMPS ==> def[k] == NONE || def[k] < |s|)
    && (forall d :: 0 <= d < |s| && !s[d].dead && s[d].dst != NONE ==> s[d].dst < MAX_TEMPS && def[s[d].dst] == d)
  }

  function Bumped(uses: seq<nat>, k: nat): (r: seq<nat>)
    ensures |r| == |uses|
    ensures forall j :: 0 <= j < |uses| ==> r[j] == if j == k && uses[j] != 255 then uses[j] + 1 else uses[j]
  {
    if k < |uses| && uses[k] != 255 then uses[k := uses[k] + 1] else uses
  }

  function AtMost255(n: nat): nat {
    if n <= 255 then n else 255
  }

  lemma CountMore(s: seq<Insn>, j: nat, k: nat)
    requires j < |s|
    ensures Count(s[..j + 1], k) == Count(s[..j], k) + Reads(s[j], k)
  {
    assert s[..j + 1][..j] == s[..j];
  }

  /** An instruction's readers counted in. */
  function Counted(uses: seq<nat>, x: Insn): seq<nat> {
    if x.dead then uses else Bumped(Bumped(Bumped(uses, x.a), x.b), x.c)
  }

  ghost predicate CountedUpto(s: seq<Insn>, i: nat, uses: seq<nat>)
    requires i <= |s|
  {
    |uses| == MAX_TEMPS && forall k :: 0 <= k < MAX_TEMPS ==> uses[k] == AtMost255(Count(s[..i], k))
  }

  lemma CountedStep(s: seq<Insn>, i: nat, uses: seq<nat>)
    requires i < |s| && CountedUpto(s, i, uses)
    ensures CountedUpto(s, i + 1, Counted(uses, s[i]))
  {
    var r := Counted(uses, s[i]);
    forall k | 0 <= k < MAX_TEMPS
      ensures r[k] == AtMost255(Count(s[..i + 1], k))
    {
      CountMore(s, i, k);
      hide Count;
    }
  }

  function Sited(def: seq<nat>, x: Insn, i: nat): (r: seq<nat>)
    ensures |r| == |def|
  {
    if !x.dead && x.dst < |def| then def[x.dst := i] else def
  }

  ghost predicate SitedUpto(s: seq<Insn>, i: nat, def: seq<nat>)
    requires i <= |s|
  {
    && |def| == MAX_TEMPS
    && (forall k :: 0 <= k < MAX_TEMPS ==> def[k] == NONE || def[k] < i)
    && (forall d :: 0 <= d < i && !s[d].dead && s[d].dst != NONE ==> s[d].dst < MAX_TEMPS && def[s[d].dst] == d)
  }

  lemma SitedStep(s: seq<Insn>, i: nat, def: seq<nat>)
    requires WellBuilt(s) && i < |s| && SitedUpto(s, i, def)
    ensures SitedUpto(s, i + 1, Sited(def, s[i], i))
  {
    assert PlaceOk(s, i);
    forall d | 0 <= d < i && !s[d].dead && s[d].dst != NONE
      ensures !s[i].dead ==> s[d].dst != s[i].dst
    {
      if !s[i].dead && s[d].dst == s[i].dst {
        OneDefinition(s, d, i);
      }
    }
  }

  /** The readers each temp has, up to 255, and where it is defined last. */
  function Uses(s: seq<Insn>): seq<nat> {
    seq(MAX_TEMPS, k requires 0 <= k => AtMost255(Count(s, k)))
  }

  function Sites(s: seq<Insn>): (def: seq<nat>)
    ensures |def| == MAX_TEMPS
  {
    if s == [] then seq(MAX_TEMPS, k => NONE) else Sited(Sites(s[..|s| - 1]), s[|s| - 1], |s| - 1)
  }

  /** One walk for both tables. */
  method Tabulate(b: array<Insn>) returns (uses: seq<nat>, def: seq<nat>)
    requires WellBuilt(b[..])
    ensures Tabled(b[..], uses, def) && CountedUpto(b[..], b.Length, uses)
    ensures uses == Uses(b[..]) && def == Sites(b[..])
  {
    hide WellBuilt, Count;
    ghost var s := b[..];
    uses, def := seq(MAX_TEMPS, i => 0), seq(MAX_TEMPS, i => NONE);
    CountedNone(s, uses);
    for i := 0 to b.Length
      invariant CountedUpto(s, i, uses) && SitedUpto(s, i, def) && def == Sites(s[..i])
    {
      CountedStep(s, i, uses);
      SitedStep(s, i, def);
      uses := Counted(uses, b[i]);
      def := Sited(def, b[i], i);
      assert s[..i + 1][..i] == s[..i];
    }
    assert s[..|s|] == s;
  }

  lemma CountedNone(s: seq<Insn>, uses: seq<nat>)
    requires |uses| == MAX_TEMPS && forall k :: 0 <= k < MAX_TEMPS ==> uses[k] == 0
    ensures CountedUpto(s, 0, uses)
  {
    assert s[..0] == [];
  }

  // ---- the forms the rewrites turn on ----

  lemma ArithConst<W>(t: Target<W>, x: Insn, tmp: Temps)
    requires x.op.Const? || x.op.Mov?
    ensures ArithOf(t, x, tmp) == if x.op.Const? then x.imm else Arg(tmp, x.a)
  {
    hide Alu, Arg;
  }

  lemma ArithAlu<W>(t: Target<W>, x: Insn, tmp: Temps)
    requires IsAlu(x.op) || IsImm(x.op)
    ensures ArithOf(t, x, tmp) == Alu(BaseOf(x.op), Arg(tmp, x.a), if IsImm(x.op) then x.imm else Arg(tmp, x.b))
  {
    hide Alu, Arg;
  }

  // ---- constants into immediates ----

  function ImmForm(op: Op): Op {
    match op
    case Add => AddI
    case And => AndI
    case Or => OrI
    case Xor => XorI
    case Shl => ShlI
    case Shr => ShrI
    case Sar => SarI
    case Rotl => RotlI
    case _ => Nop
  }

  predicate Commutes(op: Op) {
    op.Add? || op.And? || op.Or? || op.Xor?
  }

  lemma {:induction false} BitwiseCommutes(gate: Gate, x: nat, y: nat, n: nat)
    ensures Bitwise(gate, x, y, n) == Bitwise(gate, y, x, n)
  {
    if n > 0 {
      BitwiseCommutes(gate, x / 2, y / 2, n - 1);
    }
  }

  lemma AluCommutes(op: Op, x: u32, y: u32)
    requires Commutes(op)
    ensures Alu(op, x, y) == Alu(op, y, x)
  {
    BitwiseCommutes(AndGate, x, y, 32);
    BitwiseCommutes(OrGate, x, y, 32);
    BitwiseCommutes(XorGate, x, y, 32);
    hide Bitwise;
  }

  predicate ShiftImmOk(op: Op, imm: u32) {
    (op.ShlI? || op.ShrI? || op.SarI? || op.RotlI?) ==> imm < 32
  }

  function Folded(x: Insn, fromA: bool, k: u32): Insn {
    x.(op := ImmForm(x.op), a := if fromA then x.b else x.a, b := NONE, imm := k)
  }

  /** The value at `d` has instruction `i` for its only reader. */
  ghost predicate OnlyReader(s: seq<Insn>, i: nat, d: nat) {
    && WellBuilt(s) && d < i < |s| && !s[i].dead && !s[d].dead && s[d].dst != NONE
    && Count(s, s[d].dst) <= 1 <= Reads(s[i], s[d].dst)
  }

  lemma FoldAbsorbs(s: seq<Insn>, i: nat, d: nat, fromA: bool)
    requires OnlyReader(s, i, d) && s[d].op.Const? && ImmForm(s[i].op) != Nop
    requires if fromA then s[i].a == s[d].dst else s[i].b == s[d].dst
    ensures Absorbs(s, i, Folded(s[i], fromA, s[d].imm), d) && NoNewReads(s, i, Folded(s[i], fromA, s[d].imm), d)
  {
    assert PlaceOk(s, i);
    ReadsCounted(s, i, s[d].dst);
    hide WellBuilt, Count;
  }

  lemma FoldStep<W>(t: Target<W>, x: Insn, def: Insn, fromA: bool, g: Guest<W>, n: nat, tmp: Temps)
    requires ImmForm(x.op) != Nop && def.op.Const? && !def.dead && def.dst != NONE && Holds(t, def, tmp)
    requires if fromA then x.a == def.dst && Commutes(x.op) else x.b == def.dst
    ensures Perform(t, x, g, n, tmp) == Perform(t, Folded(x, fromA, def.imm), g, n, tmp)
  {
    hide Perform, Alu, Arg, ArithOf;
    var y := Folded(x, fromA, def.imm);
    PerformArith(t, x, g, n, tmp);
    PerformArith(t, y, g, n, tmp);
    ArithConst(t, def, tmp);
    ArithAlu(t, x, tmp);
    ArithAlu(t, y, tmp);
    if fromA {
      AluCommutes(x.op, Arg(tmp, x.a), Arg(tmp, x.b));
    }
  }

  lemma FoldExchange<W(!new)>(t: Target<W>, s: seq<Insn>, i: nat, d: nat, fromA: bool)
    requires OnlyReader(s, i, d) && s[d].op.Const? && ImmForm(s[i].op) != Nop
    requires if fromA then s[i].a == s[d].dst && Commutes(s[i].op) else s[i].b == s[d].dst
    ensures Exchange(t, s, i, Folded(s[i], fromA, s[d].imm))
  {
    assert d < i < |s| && !s[d].dead && s[d].dst != NONE;
    hide OnlyReader, Holds, Perform, Folded;
    forall g, n, tmp | Facts(t, s, i, tmp)
      ensures Perform(t, s[i], g, n, tmp) == Perform(t, Folded(s[i], fromA, s[d].imm), g, n, tmp)
    {
      FoldStep(t, s[i], s[d], fromA, g, n, tmp);
    }
  }

  // ---- address sums into displacements ----

  function Displaced(x: Insn, src: Insn): Insn {
    x.(imm := Add32(x.imm, src.imm), a := src.a)
  }

  lemma DisplaceAbsorbs(s: seq<Insn>, i: nat, d: nat)
    requires OnlyReader(s, i, d) && (s[i].op.Load? || s[i].op.Store?) && s[i].a == s[d].dst
    requires s[d].op.AddI? && s[d].a != NONE
    ensures Absorbs(s, i, Displaced(s[i], s[d]), d) && NoNewReads(s, i, Displaced(s[i], s[d]), d)
  {
    assert PlaceOk(s, i) && PlaceOk(s, d);
    UptoGrows(s, d, i);
    ReadsCounted(s, i, s[d].dst);
    hide WellBuilt, Count;
  }

  lemma AluAdd(x: u32, y: u32)
    ensures Alu(Add, x, y) == Add32(x, y)
  {
  }

  lemma AddAssociates(x: u32, y: u32, z: u32)
    ensures Add32(Add32(x, y), z) == Add32(x, Add32(z, y))
  {
  }

  /** An access goes by the sum of its address and its displacement. */
  lemma PerformAccess<W>(t: Target<W>, x: Insn, y: Insn, g: Guest<W>, n: nat, tmp: Temps)
    requires x.op.Load? || x.op.Store?
    requires y == x.(a := y.a, imm := y.imm) && Add32(Arg(tmp, x.a), x.imm) == Add32(Arg(tmp, y.a), y.imm)
    ensures Perform(t, x, g, n, tmp) == Perform(t, y, g, n, tmp)
  {
    hide LoadAct, StoreAct, Arg, Value, Change, BitAct, Add32;
  }

  lemma DisplaceStep<W>(t: Target<W>, x: Insn, def: Insn, g: Guest<W>, n: nat, tmp: Temps)
    requires (x.op.Load? || x.op.Store?) && x.a == def.dst != NONE
    requires def.op.AddI? && !def.dead && Holds(t, def, tmp)
    ensures Perform(t, x, g, n, tmp) == Perform(t, Displaced(x, def), g, n, tmp)
  {
    hide Perform, Arg, ArithOf, Alu, Add32;
    ArithAlu(t, def, tmp);
    AluAdd(Arg(tmp, def.a), def.imm);
    AddAssociates(Arg(tmp, def.a), def.imm, x.imm);
    PerformAccess(t, x, Displaced(x, def), g, n, tmp);
  }

  lemma DisplaceExchange<W(!new)>(t: Target<W>, s: seq<Insn>, i: nat, d: nat)
    requires OnlyReader(s, i, d) && (s[i].op.Load? || s[i].op.Store?) && s[i].a == s[d].dst
    requires s[d].op.AddI? && s[d].a != NONE
    ensures Exchange(t, s, i, Displaced(s[i], s[d]))
  {
    assert d < i < |s| && !s[d].dead && s[d].dst != NONE;
    hide OnlyReader, Holds, Perform, Displaced;
    forall g, n, tmp | Facts(t, s, i, tmp)
      ensures Perform(t, s[i], g, n, tmp) == Perform(t, Displaced(s[i], s[d]), g, n, tmp)
    {
      DisplaceStep(t, s[i], s[d], g, n, tmp);
    }
  }

  // ---- operations that compute their own input ----

  /** What an immediate operation becomes when its immediate leaves nothing to compute. */
  function Simplified(x: Insn): Insn {
    if x.op.AndI? then
      if x.imm == 0xFFFF_FFFF && x.a != NONE then x.(op := Mov)
      else if x.imm == 0 then x.(op := Const, a := NONE)
      else x
    else if IsImm(x.op) && x.imm == 0 && x.a != NONE then x.(op := Mov)
    else x
  }

  lemma Identity(op: Op, x: u32)
    requires IsAlu(op)
    ensures !op.And? ==> Alu(op, x, 0) == x
    ensures op.And? ==> Alu(op, x, 0) == 0 && Alu(op, x, 0xFFFF_FFFF) == x
  {
    if op.And? || op.Or? || op.Xor? {
      Pow2Top();
      BitwiseZero(x, 32);
      BitwiseOnes(x, 32);
      hide Bitwise, Pow2;
    } else {
      hide Word;
    }
  }

  lemma {:induction false} BitwiseZero(x: nat, n: nat)
    requires x < Pow2(n)
    ensures Bitwise(OrGate, x, 0, n) == x == Bitwise(XorGate, x, 0, n) && Bitwise(AndGate, x, 0, n) == 0
  {
    if n > 0 {
      BitwiseZero(x / 2, n - 1);
    }
  }

  lemma {:induction false} BitwiseOnes(x: nat, n: nat)
    requires x < Pow2(n)
    ensures Bitwise(AndGate, x, Pow2(n) - 1, n) == x
  {
    if n > 0 {
      assert (Pow2(n) - 1) / 2 == Pow2(n - 1) - 1;
      BitwiseOnes(x / 2, n - 1);
    }
  }

  lemma SimplifiedStep<W>(t: Target<W>, x: Insn, g: Guest<W>, n: nat, tmp: Temps)
    ensures Perform(t, x, g, n, tmp) == Perform(t, Simplified(x), g, n, tmp)
  {
    hide Alu, Perform, Arg, ArithOf;
    if IsImm(x.op) {
      var y := Simplified(x);
      PerformArith(t, x, g, n, tmp);
      PerformArith(t, y, g, n, tmp);
      ArithAlu(t, x, tmp);
      Identity(BaseOf(x.op), Arg(tmp, x.a));
      if y != x {
        ArithConst(t, y, tmp);
      }
    }
  }

  lemma SimplifiedSame<W(!new)>(t: Target<W>, s: seq<Insn>, i: nat)
    requires WellBuilt(s) && i < |s| && !s[i].dead
    ensures Same(t, s, s[i := Simplified(s[i])]) && WellBuilt(s[i := Simplified(s[i])])
    ensures forall k :: k != NONE ==> Reads(Simplified(s[i]), k) <= Reads(s[i], k)
  {
    var y := Simplified(s[i]);
    assert PlaceOk(s, i);
    assert InsnOk(y, Upto(s, i));
    hide Perform, InsnOk, WellBuilt, Facts;
    forall g, n, tmp | Facts(t, s, i, tmp)
      ensures Perform(t, s[i], g, n, tmp) == Perform(t, y, g, n, tmp)
    {
      SimplifiedStep(t, s[i], g, n, tmp);
    }
    ReplaceSame(t, s, i, y);
    ReplaceWellBuilt(s, i, y);
  }

  // ---- what every rewrite keeps ----

  /** Only values and accesses change, values into values and accesses into accesses. */
  predicate KinInsn(x: Insn, y: Insn) {
    y.dst == x.dst &&
    (y == x || (IsArith(x.op) && IsArith(y.op)) || (x.op == y.op && (x.op.Load? || x.op.Store?) && x.dead == y.dead))
  }

  ghost predicate Kin(s: seq<Insn>, r: seq<Insn>) {
    |s| == |r| && forall i :: 0 <= i < |s| ==> KinInsn(s[i], r[i])
  }

  /** The block so far means what it did, is well built, and the tables are right for it. */
  ghost predicate Sound<W(!new)>(t: Target<W>, start: seq<Insn>, s: seq<Insn>, uses: seq<nat>, def: seq<nat>) {
    Same(t, start, s) && WellBuilt(s) && Tabled(s, uses, def) && Kin(start, s)
  }

  /** A count of one is an only reader. */
  lemma TableReader(s: seq<Insn>, uses: seq<nat>, def: seq<nat>, i: nat, k: nat)
    requires WellBuilt(s) && Tabled(s, uses, def) && i < |s| && !s[i].dead
    requires k != NONE && (k == s[i].a || k == s[i].b || k == s[i].c)
    ensures k < MAX_TEMPS && (uses[k] == 1 ==> def[k] < |s| && s[def[k]].dst == k && OnlyReader(s, i, def[k]))
  {
    assert PlaceOk(s, i);
    var d := Definer(s, i, k);
    assert s[d].dst == k && def[k] == d;
    hide WellBuilt;
  }

  lemma TabledAbsorbed(s: seq<Insn>, uses: seq<nat>, def: seq<nat>, i: nat, y: Insn, d: nat)
    requires Tabled(s, uses, def) && Absorbs(s, i, y, d) && NoNewReads(s, i, y, d)
    ensures Tabled(Absorbed(s, i, y, d), uses, def)
  {
    var r := Absorbed(s, i, y, d);
    forall k | 0 <= k < MAX_TEMPS
      ensures uses[k] == 255 || Count(r, k) <= uses[k]
    {
      AbsorbedCount(s, i, y, d, k);
    }
    forall e | 0 <= e < |r| && !r[e].dead && r[e].dst != NONE
      ensures r[e].dst < MAX_TEMPS && def[r[e].dst] == e
    {
      assert r[e].dst == s[e].dst && !s[e].dead;
    }
  }

  lemma AbsorbSound<W(!new)>(t: Target<W>, start: seq<Insn>, s: seq<Insn>, uses: seq<nat>, def: seq<nat>, i: nat,
                             y: Insn, d: nat)
    requires Sound(t, start, s, uses, def) && Absorbs(s, i, y, d) && NoNewReads(s, i, y, d) && Exchange(t, s, i, y)
    requires IsArith(s[d].op) && KinInsn(s[i], y) && IsArith(s[i].op) == IsArith(y.op)
    ensures Sound(t, start, Absorbed(s, i, y, d), uses, def)
  {
    assert d < i < |s|;
    hide WellBuilt, Same, Tabled, Exchange, Absorbs, NoNewReads;
    AbsorbSame(t, s, i, y, d);
    SameTrans(t, start, s, Absorbed(s, i, y, d));
    TabledAbsorbed(s, uses, def, i, y, d);
    var r := Absorbed(s, i, y, d);
    forall j | 0 <= j < |start|
      ensures KinInsn(start[j], r[j])
    {
      assert KinInsn(start[j], s[j]);
      assert j != i && j != d ==> r[j] == s[j];
      assert j == i && i != d ==> r[j] == y;
      assert j == d && i != d ==> r[j] == s[d].(dead := true);
    }
  }

  lemma FoldSound<W(!new)>(t: Target<W>, start: seq<Insn>, s: seq<Insn>, uses: seq<nat>, def: seq<nat>, i: nat,
                           fromA: bool)
    requires Sound(t, start, s, uses, def) && i < |s| && !s[i].dead && ImmForm(s[i].op) != Nop
    requires fromA ==> Commutes(s[i].op)
    requires var k := if fromA then s[i].a else s[i].b;
             k < MAX_TEMPS && uses[k] == 1 && def[k] != NONE && s[def[k]].op.Const?
    ensures var d := def[if fromA then s[i].a else s[i].b];
            var r := Absorbed(s, i, Folded(s[i], fromA, s[d].imm), d);
            d < |s| && d != i && Sound(t, start, r, uses[if fromA then s[i].a else s[i].b := 0], def)
  {
    hide Sound, Same, WellBuilt, Tabled, Kin, KinInsn, OnlyReader, Absorbs, NoNewReads, Exchange, Count, Folded;
    var k := if fromA then s[i].a else s[i].b;
    SoundMeans(t, start, s, uses, def);
    TableReader(s, uses, def, i, k);
    var d := def[k];
    FoldAbsorbs(s, i, d, fromA);
    FoldExchange(t, s, i, d, fromA);
    AbsorbedCount(s, i, Folded(s[i], fromA, s[d].imm), d, 0);
    FoldKin(s[i], fromA, s[d].imm);
    AbsorbSound(t, start, s, uses, def, i, Folded(s[i], fromA, s[d].imm), d);
    Unused(t, start, Absorbed(s, i, Folded(s[i], fromA, s[d].imm), d), uses, def, k);
  }

  lemma FoldKin(x: Insn, fromA: bool, imm: u32)
    requires ImmForm(x.op) != Nop
    ensures KinInsn(x, Folded(x, fromA, imm))
  {
  }

  lemma Unused<W(!new)>(t: Target<W>, start: seq<Insn>, s: seq<Insn>, uses: seq<nat>, def: seq<nat>, k: nat)
    requires Sound(t, start, s, uses, def) && k < MAX_TEMPS && Count(s, k) == 0
    ensures Sound(t, start, s, uses[k := 0], def)
  {
    hide Same, WellBuilt, Count, Kin;
  }

  lemma DisplaceSound<W(!new)>(t: Target<W>, start: seq<Insn>, s: seq<Insn>, uses: seq<nat>, def: seq<nat>, i: nat)
    requires Sound(t, start, s, uses, def) && i < |s| && !s[i].dead && (s[i].op.Load? || s[i].op.Store?)
    requires s[i].a < MAX_TEMPS && uses[s[i].a] == 1 && def[s[i].a] != NONE
    requires var src := s[def[s[i].a]]; src.op.AddI? && src.a != NONE
    ensures var d := def[s[i].a];
            d < |s| && d != i && Sound(t, start, Absorbed(s, i, Displaced(s[i], s[d]), d), uses, def)
  {
    TableReader(s, uses, def, i, s[i].a);
    var d := def[s[i].a];
    DisplaceAbsorbs(s, i, d);
    DisplaceExchange(t, s, i, d);
    hide Sound, OnlyReader, Absorbs, NoNewReads, Exchange;
    AbsorbSound(t, start, s, uses, def, i, Displaced(s[i], s[d]), d);
  }

  lemma SimplifySound<W(!new)>(t: Target<W>, start: seq<Insn>, s: seq<Insn>, uses: seq<nat>, def: seq<nat>, i: nat)
    requires Sound(t, start, s, uses, def) && i < |s| && !s[i].dead
    ensures Sound(t, start, s[i := Simplified(s[i])], uses, def)
  {
    var r := s[i := Simplified(s[i])];
    SimplifiedSame(t, s, i);
    SameTrans(t, start, s, r);
    hide Same, WellBuilt;
    forall k | 0 <= k < MAX_TEMPS
      ensures uses[k] == 255 || Count(r, k) <= uses[k]
    {
      CountSet(s, i, Simplified(s[i]), k);
    }
    forall j | 0 <= j < |start|
      ensures KinInsn(start[j], r[j])
    {
      assert KinInsn(start[j], s[j]);
    }
  }

  // ---- the pass ----

  /** A constant that the tables give one reader. */
  ghost predicate LoneConst(s: seq<Insn>, uses: seq<nat>, def: seq<nat>, k: nat) {
    && k != NONE && k < |uses| && k < |def| && uses[k] == 1
    && def[k] != NONE && def[k] < |s| && s[def[k]].op.Const?
  }

  ghost predicate FoldsFrom(s: seq<Insn>, uses: seq<nat>, def: seq<nat>, form: Op, k: nat) {
    LoneConst(s, uses, def, k) && ShiftImmOk(form, s[def[k]].imm)
  }

  /** An operation whose immediate form the host has, with such a constant where that form takes one. */
  ghost predicate CanFold(s: seq<Insn>, uses: seq<nat>, def: seq<nat>, can: (Op, nat) -> bool, x: Insn) {
    && ImmForm(x.op) != Nop && can(ImmForm(x.op), x.aux)
    && (FoldsFrom(s, uses, def, ImmForm(x.op), x.b) ||
        (Commutes(x.op) && FoldsFrom(s, uses, def, ImmForm(x.op), x.a)))
  }

  ghost function FoldOne(s: seq<Insn>, i: nat, uses: seq<nat>, def: seq<nat>, can: (Op, nat) -> bool)
    : (r: (seq<Insn>, seq<nat>))
    requires i < |s|
    ensures |r.0| == |s| && |r.1| == |uses|
  {
    var x := s[i];
    if !CanFold(s, uses, def, can, x) then (s, uses)
    else
      var fromA := !LoneConst(s, uses, def, x.b);
      var k := if fromA then x.a else x.b;
      (Absorbed(s, i, Folded(x, fromA, s[def[k]].imm), def[k]), uses[k := 0])
  }

  ghost predicate CanDisplace(s: seq<Insn>, uses: seq<nat>, def: seq<nat>, x: Insn) {
    && (x.op.Load? || x.op.Store?) && x.a != NONE && x.a < |uses| && x.a < |def| && uses[x.a] == 1
    && def[x.a] != NONE && def[x.a] < |s|
    && !s[def[x.a]].dead && s[def[x.a]].op.AddI? && s[def[x.a]].a != NONE
  }

  ghost function DisplaceOne(s: seq<Insn>, i: nat, uses: seq<nat>, def: seq<nat>): (r: seq<Insn>)
    requires i < |s|
    ensures |r| == |s|
  {
    var x := s[i];
    if CanDisplace(s, uses, def, x) then Absorbed(s, i, Displaced(x, s[def[x.a]]), def[x.a]) else s
  }

  /** One instruction of the walk. */
  ghost function FuseStep(s: seq<Insn>, i: nat, uses: seq<nat>, def: seq<nat>, can: (Op, nat) -> bool)
    : (r: (seq<Insn>, seq<nat>))
    requires i < |s|
    ensures |r.0| == |s| && |r.1| == |uses|
  {
    if s[i].dead then (s, uses)
    else
      var f := FoldOne(s, i, uses, def, can);
      var d := DisplaceOne(f.0, i, f.1, def);
      (d[i := Simplified(d[i])], f.1)
  }

  ghost function FuseFrom(s: seq<Insn>, i: nat, uses: seq<nat>, def: seq<nat>, can: (Op, nat) -> bool): (r: seq<Insn>)
    requires i <= |s|
    ensures |r| == |s|
    decreases |s| - i
  {
    if i == |s| then s
    else
      var f := FuseStep(s, i, uses, def, can);
      FuseFrom(f.0, i + 1, f.1, def, can)
  }

  /** The pass. */
  ghost function Fused(s: seq<Insn>, can: (Op, nat) -> bool): seq<Insn> {
    FuseFrom(s, 0, Uses(s), Sites(s), can)
  }

  /** A constant operand read nowhere else becomes an immediate, where the host has the form. */
  method FoldAt<W(!new)>(b: array<Insn>, i: nat, uses: seq<nat>, def: seq<nat>, canLower: (Op, nat) -> bool,
                         ghost t: Target<W>, ghost start: seq<Insn>) returns (left: seq<nat>)
    requires i < b.Length && !b[i].dead && Sound(t, start, b[..], uses, def)
    modifies b
    ensures Sound(t, start, b[..], left, def) && !b[i].dead
    ensures (b[..], left) == FoldOne(old(b[..]), i, uses, def, canLower)
  {
    hide Sound;
    left := uses;
    SoundTables(t, start, b[..], uses, def, i);
    var x := b[i];
    var form := ImmForm(x.op);
    if form != Nop {
      var src, fromA := NONE, false;
      if x.b != NONE && uses[x.b] == 1 && def[x.b] != NONE && b[def[x.b]].op == Const {
        src := x.b;
      } else if Commutes(x.op) && x.a != NONE && uses[x.a] == 1 && def[x.a] != NONE && b[def[x.a]].op == Const {
        src, fromA := x.a, true;
      }
      if src != NONE {
        var k := b[def[src]].imm;
        if ShiftImmOk(form, k) && canLower(form, x.aux) {
          ghost var s := b[..];
          FoldSound(t, start, s, uses, def, i, fromA);
          b[i] := x.(op := form, a := if fromA then x.b else x.a, b := NONE, imm := k);
          b[def[src]] := b[def[src]].(dead := true);
          assert b[..] == Absorbed(s, i, Folded(x, fromA, k), def[src]);
          left := uses[src := 0];
        }
      }
    }
  }

  lemma SoundTables<W(!new)>(t: Target<W>, start: seq<Insn>, s: seq<Insn>, uses: seq<nat>, def: seq<nat>, i: nat)
    requires Sound(t, start, s, uses, def) && i < |s| && !s[i].dead
    ensures |uses| == MAX_TEMPS == |def| && forall k :: 0 <= k < MAX_TEMPS ==> def[k] == NONE || def[k] < |s|
    ensures (s[i].a != NONE ==> s[i].a < MAX_TEMPS) && (s[i].b != NONE ==> s[i].b < MAX_TEMPS)
  {
    if s[i].a != NONE {
      TableReader(s, uses, def, i, s[i].a);
    }
    if s[i].b != NONE {
      TableReader(s, uses, def, i, s[i].b);
    }
  }

  /** An address sum read by one access becomes the access's displacement. */
  method DisplaceAt<W(!new)>(b: array<Insn>, i: nat, uses: seq<nat>, def: seq<nat>,
                             ghost t: Target<W>, ghost start: seq<Insn>)
    requires i < b.Length && !b[i].dead && Sound(t, start, b[..], uses, def)
    modifies b
    ensures Sound(t, start, b[..], uses, def) && !b[i].dead
    ensures b[..] == DisplaceOne(old(b[..]), i, uses, def)
  {
    hide Sound;
    SoundTables(t, start, b[..], uses, def, i);
    var x := b[i];
    if (x.op.Load? || x.op.Store?) && x.a != NONE && uses[x.a] == 1 && def[x.a] != NONE {
      var src := b[def[x.a]];
      if !src.dead && src.op.AddI? && src.a != NONE {
        ghost var s := b[..];
        DisplaceSound(t, start, s, uses, def, i);
        b[i] := x.(imm := Add32(x.imm, src.imm), a := src.a);
        b[def[x.a]] := src.(dead := true);
        assert b[..] == Absorbed(s, i, Displaced(x, src), def[x.a]);
      }
    }
  }

  /** Only instruction `i` is another; some may have died. */
  predicate OnlyAt(s: seq<Insn>, r: seq<Insn>, i: nat) {
    |s| == |r| && forall j :: 0 <= j < |s| && j != i ==> r[j] == s[j] || r[j] == s[j].(dead := true)
  }

  predicate Fewer(uses: seq<nat>, left: seq<nat>) {
    |left| == |uses| && forall k :: 0 <= k < |uses| ==> left[k] == uses[k] || left[k] == 0
  }

  lemma FoldFrame(s: seq<Insn>, i: nat, uses: seq<nat>, def: seq<nat>, can: (Op, nat) -> bool)
    requires i < |s| && !s[i].dead && !FoldOne(s, i, uses, def, can).0[i].dead
    ensures var r := FoldOne(s, i, uses, def, can);
            && OnlyAt(s, r.0, i) && Fewer(uses, r.1) && Lowers(can, s, r.0)
            && !CanFold(r.0, r.1, def, can, r.0[i])
  {
  }

  lemma DisplaceFrame(s: seq<Insn>, i: nat, uses: seq<nat>, def: seq<nat>, can: (Op, nat) -> bool)
    requires i < |s| && !s[i].dead && !DisplaceOne(s, i, uses, def)[i].dead && !CanFold(s, uses, def, can, s[i])
    ensures var r := DisplaceOne(s, i, uses, def);
            OnlyAt(s, r, i) && Lowers(can, s, r) && !CanFold(r, uses, def, can, r[i])
  {
  }

  lemma SimplifyFrame(s: seq<Insn>, i: nat, uses: seq<nat>, def: seq<nat>, can: (Op, nat) -> bool)
    requires i < |s| && !s[i].dead && !CanFold(s, uses, def, can, s[i])
    ensures var r := s[i := Simplified(s[i])];
            && OnlyAt(s, r, i) && Lowers(can, s, r) && !CanFold(r, uses, def, can, r[i])
            && Simplified(r[i]) == r[i] && !r[i].dead
  {
    var r := s[i := Simplified(s[i])];
    if r[i] == s[i] {
      assert r == s;
    }
  }

  /** Nothing before `n` is left to fold, or to simplify. */
  ghost predicate Folded0(s: seq<Insn>, uses: seq<nat>, def: seq<nat>, can: (Op, nat) -> bool, n: nat) {
    n <= |s| &&
    forall j :: 0 <= j < n && !s[j].dead ==> !CanFold(s, uses, def, can, s[j]) && Simplified(s[j]) == s[j]
  }

  lemma StillFolded(s: seq<Insn>, r: seq<Insn>, uses: seq<nat>, left: seq<nat>, def: seq<nat>,
                    can: (Op, nat) -> bool, i: nat)
    requires WellBuilt(s) && Tabled(s, uses, def) && i < |s| && OnlyAt(s, r, i) && Fewer(uses, left)
    requires Folded0(s, uses, def, can, i)
    ensures Folded0(r, left, def, can, i)
  {
    hide WellBuilt, Tabled;
    forall j | 0 <= j < i && !r[j].dead
      ensures !CanFold(r, left, def, can, r[j]) && Simplified(r[j]) == r[j]
    {
      assert r[j] == s[j];
      hide Simplified;
      SameSource(s, r, uses, left, def, i, j, s[j].a);
      SameSource(s, r, uses, left, def, i, j, s[j].b);
    }
  }

  lemma SameSource(s: seq<Insn>, r: seq<Insn>, uses: seq<nat>, left: seq<nat>, def: seq<nat>, i: nat, j: nat, k: nat)
    requires WellBuilt(s) && Tabled(s, uses, def) && j < i < |s| && OnlyAt(s, r, i) && Fewer(uses, left)
    requires !s[j].dead && (k == s[j].a || k == s[j].b)
    ensures LoneConst(r, left, def, k) ==> LoneConst(s, uses, def, k) && r[def[k]].imm == s[def[k]].imm
  {
    if LoneConst(r, left, def, k) {
      TableReader(s, uses, def, j, k);
      hide WellBuilt, Tabled;
    }
  }

  /**
   * What is left of folding, said of the readers each temp had at the start: no live operation with an
   * immediate form the host has takes a constant that had it for its one reader.
   */
  ghost predicate NoneToFold(start: seq<Insn>, r: seq<Insn>, can: (Op, nat) -> bool) {
    forall j, d :: 0 <= j < |r| && 0 <= d < |r| && !r[j].dead && !r[d].dead && r[d].op.Const? ==>
      !FoldsInto(start, r[j], r[d], can)
  }

  predicate FoldsInto(start: seq<Insn>, x: Insn, c: Insn, can: (Op, nat) -> bool) {
    && ImmForm(x.op) != Nop && can(ImmForm(x.op), x.aux) && ShiftImmOk(ImmForm(x.op), c.imm)
    && c.dst != NONE && Count(start, c.dst) == 1 && (x.b == c.dst || (Commutes(x.op) && x.a == c.dst))
  }

  lemma NoneLeft(start: seq<Insn>, r: seq<Insn>, uses0: seq<nat>, uses: seq<nat>, def: seq<nat>,
                 can: (Op, nat) -> bool)
    requires CountedUpto(start, |start|, uses0) && Tabled(r, uses, def) && Fewer(uses0, uses)
    requires Folded0(r, uses, def, can, |r|) && |r| <= NONE
    ensures NoneToFold(start, r, can)
  {
    assert start[..|start|] == start;
    forall j, d | 0 <= j < |r| && 0 <= d < |r| && !r[j].dead && !r[d].dead && r[d].op.Const?
      ensures !FoldsInto(start, r[j], r[d], can)
    {
      var k := r[d].dst;
      if k != NONE && (k == r[j].b || k == r[j].a) {
        assert k < MAX_TEMPS && def[k] == d;
        ReadsCounted(r, j, k);
        assert uses[k] == uses0[k];
        assert !CanFold(r, uses, def, can, r[j]);
      }
    }
  }

  lemma FuseBegins<W(!new)>(t: Target<W>, start: seq<Insn>, uses: seq<nat>, def: seq<nat>, can: (Op, nat) -> bool)
    requires WellBuilt(start) && Tabled(start, uses, def) && uses == Uses(start) && def == Sites(start)
    ensures Sound(t, start, start, uses, def) && Lowers(can, start, start) && Fewer(uses, uses)
    ensures Folded0(start, uses, def, can, 0) && FuseFrom(start, 0, uses, def, can) == Fused(start, can)
  {
    hide WellBuilt, Tabled, Uses, Sites, FuseFrom;
    LowersSelf(can, start);
  }

  lemma FuseGoes(s: seq<Insn>, i: nat, uses: seq<nat>, def: seq<nat>, can: (Op, nat) -> bool)
    requires i < |s|
    ensures var f := FuseStep(s, i, uses, def, can);
            FuseFrom(s, i, uses, def, can) == FuseFrom(f.0, i + 1, f.1, def, can)
    ensures s[i].dead ==> FuseStep(s, i, uses, def, can) == (s, uses)
  {
    hide FoldOne, DisplaceOne, Simplified;
  }

  lemma FuseEnds(s: seq<Insn>, uses: seq<nat>, def: seq<nat>, can: (Op, nat) -> bool)
    ensures FuseFrom(s, |s|, uses, def, can) == s
    ensures Folded0(s, uses, def, can, |s|) ==>
              forall i :: 0 <= i < |s| && !s[i].dead ==> Simplified(s[i]) == s[i]
  {
  }

  method PassFuse<W(!new)>(b: array<Insn>, canLower: (Op, nat) -> bool, ghost t: Target<W>)
    requires WellBuilt(b[..])
    modifies b
    ensures Same(t, old(b[..]), b[..]) && WellBuilt(b[..]) && Kin(old(b[..]), b[..])
    ensures b[..] == Fused(old(b[..]), canLower) && Lowers(canLower, old(b[..]), b[..])
    ensures b.Length <= MAX_INSNS ==> NoneToFold(old(b[..]), b[..], canLower)
    ensures forall i :: 0 <= i < b.Length && !b[i].dead ==> Simplified(b[i]) == b[i]
  {
    hide Sound, Lowers, Fewer, Folded0, FuseStep, FuseFrom, Fused, Simplified, CanFold, WellBuilt, Tabled, Kin, Same,
         NoneToFold, Uses, Sites, CountedUpto;
    var uses, def := Tabulate(b);
    ghost var start, uses0 := b[..], uses;
    FuseBegins(t, start, uses, def, canLower);
    for i := 0 to b.Length
      invariant Sound(t, start, b[..], uses, def) && Lowers(canLower, start, b[..]) && Fewer(uses0, uses)
      invariant Folded0(b[..], uses, def, canLower, i)
      invariant FuseFrom(b[..], i, uses, def, canLower) == Fused(start, canLower)
    {
      ghost var s, was := b[..], uses;
      FuseGoes(s, i, uses, def, canLower);
      if !b[i].dead {
        uses := FuseOne(b, i, uses, def, canLower, t, start);
        LowersTrans(canLower, start, s, b[..]);
        FewerTrans(uses0, was, uses);
      } else {
        FoldedMore(s, uses, def, canLower, i);
      }
    }
    SoundMeans(t, start, b[..], uses, def);
    FuseEnds(b[..], uses, def, canLower);
    if b.Length <= MAX_INSNS {
      NoneLeft(start, b[..], uses0, uses, def, canLower);
    }
  }

  lemma SoundMeans<W(!new)>(t: Target<W>, start: seq<Insn>, s: seq<Insn>, uses: seq<nat>, def: seq<nat>)
    requires Sound(t, start, s, uses, def)
    ensures Same(t, start, s) && WellBuilt(s) && Tabled(s, uses, def) && Kin(start, s)
  {
  }

  lemma FoldedMore(s: seq<Insn>, uses: seq<nat>, def: seq<nat>, can: (Op, nat) -> bool, i: nat)
    requires i < |s| && Folded0(s, uses, def, can, i)
    requires !s[i].dead ==> !CanFold(s, uses, def, can, s[i]) && Simplified(s[i]) == s[i]
    ensures Folded0(s, uses, def, can, i + 1)
  {
    hide CanFold, Simplified;
  }

  lemma FewerTrans(a: seq<nat>, b: seq<nat>, c: seq<nat>)
    requires Fewer(a, b) && Fewer(b, c)
    ensures Fewer(a, c)
  {
  }

  /** One instruction of the walk: fold, displace, simplify. */
  method FuseOne<W(!new)>(b: array<Insn>, i: nat, uses: seq<nat>, def: seq<nat>, canLower: (Op, nat) -> bool,
                          ghost t: Target<W>, ghost start: seq<Insn>) returns (left: seq<nat>)
    requires i < b.Length && !b[i].dead && Sound(t, start, b[..], uses, def)
    modifies b
    ensures (b[..], left) == FuseStep(old(b[..]), i, uses, def, canLower)
    ensures Sound(t, start, b[..], left, def) && Fewer(uses, left) && Lowers(canLower, old(b[..]), b[..])
    ensures old(Folded0(b[..], uses, def, canLower, i)) ==> Folded0(b[..], left, def, canLower, i + 1)
  {
    hide Sound, FoldOne, DisplaceOne, Simplified, Lowers, Folded0, CanFold, OnlyAt, Fewer, WellBuilt, Tabled;
    ghost var s0 := b[..];
    left := FoldAt(b, i, uses, def, canLower, t, start);
    ghost var s1 := b[..];
    FoldFrame(s0, i, uses, def, canLower);
    DisplaceAt(b, i, left, def, t, start);
    ghost var s2 := b[..];
    DisplaceFrame(s1, i, left, def, canLower);
    SimplifySound(t, start, s2, left, def, i);
    SimplifyFrame(s2, i, left, def, canLower);
    b[i] := Simplified(b[i]);
    assert b[..] == s2[i := Simplified(s2[i])];
    LowersTrans(canLower, s0, s1, s2);
    LowersTrans(canLower, s0, s2, b[..]);
    if old(Folded0(b[..], uses, def, canLower, i)) {
      SoundMeans(t, start, s0, uses, def);
      SoundMeans(t, start, s1, left, def);
      SoundMeans(t, start, s2, left, def);
      FewerSelf(left);
      StillFolded(s0, s1, uses, left, def, canLower, i);
      StillFolded(s1, s2, left, left, def, canLower, i);
      StillFolded(s2, b[..], left, left, def, canLower, i);
      FoldedMore(b[..], left, def, canLower, i);
    }
  }

  lemma FewerSelf(uses: seq<nat>)
    ensures Fewer(uses, uses)
  {
  }

  // ---- multiply-accumulate ----

  function Accumulated(x: Insn, mul: Insn, fromA: bool): Insn {
    x.(op := Mac, aux := if x.op.Sub? then 1 else 0, a := mul.a, b := mul.b, c := if fromA then x.b else x.a)
  }

  predicate Accumulates(x: Insn, mul: Insn, fromA: bool) {
    && mul.op.Mul? && !mul.dead && mul.dst != NONE
    && (x.op.Add? || (x.op.Sub? && !fromA))
    && if fromA then x.a == mul.dst && x.b != NONE else x.b == mul.dst && x.a != NONE
  }

  lemma MacAbsorbs(s: seq<Insn>, i: nat, d: nat, fromA: bool)
    requires OnlyReader(s, i, d) && Accumulates(s[i], s[d], fromA)
    ensures Absorbs(s, i, Accumulated(s[i], s[d], fromA), d) && NoNewReads(s, i, Accumulated(s[i], s[d], fromA), d)
  {
    assert PlaceOk(s, i) && PlaceOk(s, d);
    UptoGrows(s, d, i);
    ReadsCounted(s, i, s[d].dst);
    hide WellBuilt, Count;
  }

  lemma ArithMul<W>(t: Target<W>, x: Insn, tmp: Temps)
    requires x.op.Mul? || x.op.Mac? || x.op.Add? || x.op.Sub?
    ensures var a, b, c := Arg(tmp, x.a), Arg(tmp, x.b), Arg(tmp, x.c);
            ArithOf(t, x, tmp) ==
            if x.op.Mul? then t.times(a, b)
            else if x.op.Add? then Add32(a, b)
            else if x.op.Sub? then Sub32(a, b)
            else if x.aux % 2 == 1 then Sub32(c, t.times(a, b)) else Add32(c, t.times(a, b))
  {
    hide Arg, Add32, Sub32;
  }

  lemma MacStep<W>(t: Target<W>, x: Insn, mul: Insn, fromA: bool, g: Guest<W>, n: nat, tmp: Temps)
    requires Accumulates(x, mul, fromA) && Holds(t, mul, tmp)
    ensures Perform(t, x, g, n, tmp) == Perform(t, Accumulated(x, mul, fromA), g, n, tmp)
  {
    hide Perform, Arg, ArithOf;
    var y := Accumulated(x, mul, fromA);
    PerformArith(t, x, g, n, tmp);
    PerformArith(t, y, g, n, tmp);
    ArithMul(t, x, tmp);
    ArithMul(t, mul, tmp);
    ArithMul(t, y, tmp);
  }

  lemma MacSound<W(!new)>(t: Target<W>, start: seq<Insn>, s: seq<Insn>, uses: seq<nat>, def: seq<nat>, i: nat,
                          fromA: bool)
    requires Sound(t, start, s, uses, def) && i < |s| && !s[i].dead
    requires var k := if fromA then s[i].a else s[i].b;
             k < MAX_TEMPS && uses[k] == 1 && def[k] != NONE && Accumulates(s[i], s[def[k]], fromA)
    ensures var d := def[if fromA then s[i].a else s[i].b];
            d < |s| && d != i && Sound(t, start, Absorbed(s, i, Accumulated(s[i], s[d], fromA), d), uses, def)
  {
    var k := if fromA then s[i].a else s[i].b;
    TableReader(s, uses, def, i, k);
    var d := def[k];
    MacAbsorbs(s, i, d, fromA);
    assert d < i < |s|;
    assert Exchange(t, s, i, Accumulated(s[i], s[d], fromA)) by {
      hide OnlyReader, Holds, Perform, Accumulated, Sound, Accumulates;
      forall g, n, tmp | Facts(t, s, i, tmp)
        ensures Perform(t, s[i], g, n, tmp) == Perform(t, Accumulated(s[i], s[d], fromA), g, n, tmp)
      {
        MacStep(t, s[i], s[d], fromA, g, n, tmp);
      }
    }
    hide Sound, OnlyReader, Absorbs, NoNewReads, Exchange;
    AbsorbSound(t, start, s, uses, def, i, Accumulated(s[i], s[d], fromA), d);
  }

  /** A live product that the tables give one reader. */
  ghost predicate LoneMul(s: seq<Insn>, uses: seq<nat>, def: seq<nat>, k: nat) {
    && k != NONE && k < |uses| && k < |def| && uses[k] == 1
    && def[k] != NONE && def[k] < |s| && s[def[k]].op.Mul? && !s[def[k]].dead
  }

  /** A sum, or a difference that subtracts it, with such a product and another operand, on a host that has MAC. */
  ghost predicate CanMac(s: seq<Insn>, uses: seq<nat>, def: seq<nat>, can: (Op, nat) -> bool, x: Insn) {
    && (x.op.Add? || x.op.Sub?) && can(Mac, if x.op.Sub? then 1 else 0) && x.a != NONE && x.b != NONE
    && (LoneMul(s, uses, def, x.b) || (x.op.Add? && LoneMul(s, uses, def, x.a)))
  }

  ghost function MacOne(s: seq<Insn>, i: nat, uses: seq<nat>, def: seq<nat>, can: (Op, nat) -> bool): (r: seq<Insn>)
    requires i < |s|
    ensures |r| == |s|
  {
    var x := s[i];
    if !CanMac(s, uses, def, can, x) then s
    else
      var fromA := !LoneMul(s, uses, def, x.b);
      var d := def[if fromA then x.a else x.b];
      Absorbed(s, i, Accumulated(x, s[d], fromA), d)
  }

  ghost function MacFrom(s: seq<Insn>, i: nat, uses: seq<nat>, def: seq<nat>, can: (Op, nat) -> bool): (r: seq<Insn>)
    requires i <= |s|
    ensures |r| == |s|
    decreases |s| - i
  {
    if i == |s| then s
    else MacFrom(if s[i].dead then s else MacOne(s, i, uses, def, can), i + 1, uses, def, can)
  }

  /** The pass. */
  ghost function Macked(s: seq<Insn>, can: (Op, nat) -> bool): seq<Insn> {
    MacFrom(s, 0, Uses(s), Sites(s), can)
  }

  /** A product read only by a sum, or subtracted by a difference, becomes part of it. */
  method MacAt<W(!new)>(b: array<Insn>, i: nat, uses: seq<nat>, def: seq<nat>, canLower: (Op, nat) -> bool,
                        ghost t: Target<W>, ghost start: seq<Insn>)
    requires i < b.Length && !b[i].dead && Sound(t, start, b[..], uses, def)
    modifies b
    ensures Sound(t, start, b[..], uses, def) && !b[i].dead
    ensures b[..] == MacOne(old(b[..]), i, uses, def, canLower)
  {
    hide Sound;
    SoundTables(t, start, b[..], uses, def, i);
    var x := b[i];
    if x.op.Add? || x.op.Sub? {
      var prod, addend, fromA := NONE, NONE, false;
      if x.b != NONE && uses[x.b] == 1 && def[x.b] != NONE && b[def[x.b]].op.Mul? && !b[def[x.b]].dead {
        prod, addend := x.b, x.a;
      } else if !x.op.Sub? && x.a != NONE && uses[x.a] == 1 && def[x.a] != NONE && b[def[x.a]].op.Mul? &&
                !b[def[x.a]].dead {
        prod, addend, fromA := x.a, x.b, true;
      }
      if prod != NONE && addend != NONE && canLower(Mac, if x.op.Sub? then 1 else 0) {
        ghost var s := b[..];
        var mul := b[def[prod]];
        TabledDst(t, start, s, uses, def, i, prod);
        MacSound(t, start, s, uses, def, i, fromA);
        b[i] := x.(op := Mac, aux := if x.op.Sub? then 1 else 0, a := mul.a, b := mul.b, c := addend);
        b[def[prod]] := mul.(dead := true);
        assert b[..] == Absorbed(s, i, Accumulated(x, mul, fromA), def[prod]);
      }
    }
  }

  lemma TabledDst<W(!new)>(t: Target<W>, start: seq<Insn>, s: seq<Insn>, uses: seq<nat>, def: seq<nat>, i: nat, k: nat)
    requires Sound(t, start, s, uses, def) && i < |s| && !s[i].dead
    requires k != NONE && k < MAX_TEMPS && (k == s[i].a || k == s[i].b) && uses[k] == 1 && def[k] != NONE
    ensures def[k] < |s| && s[def[k]].dst == k
  {
    TableReader(s, uses, def, i, k);
  }

  lemma MacFrame(s: seq<Insn>, i: nat, uses: seq<nat>, def: seq<nat>, can: (Op, nat) -> bool)
    requires i < |s| && !s[i].dead && !MacOne(s, i, uses, def, can)[i].dead
    ensures var r := MacOne(s, i, uses, def, can);
            OnlyAt(s, r, i) && Lowers(can, s, r) && !CanMac(r, uses, def, can, r[i])
  {
  }

  ghost predicate Macked0(s: seq<Insn>, uses: seq<nat>, def: seq<nat>, can: (Op, nat) -> bool, n: nat) {
    n <= |s| && forall j :: 0 <= j < n && !s[j].dead ==> !CanMac(s, uses, def, can, s[j])
  }

  lemma StillMacked(s: seq<Insn>, r: seq<Insn>, uses: seq<nat>, def: seq<nat>, can: (Op, nat) -> bool, i: nat)
    requires WellBuilt(s) && Tabled(s, uses, def) && i < |s| && OnlyAt(s, r, i)
    requires Macked0(s, uses, def, can, i) && (!r[i].dead ==> !CanMac(r, uses, def, can, r[i]))
    ensures Macked0(r, uses, def, can, i + 1)
  {
    hide WellBuilt, Tabled;
    forall j | 0 <= j < i && !r[j].dead
      ensures !CanMac(r, uses, def, can, r[j])
    {
      assert r[j] == s[j];
      SameProduct(s, r, uses, def, i, j, s[j].a);
      SameProduct(s, r, uses, def, i, j, s[j].b);
    }
  }

  lemma SameProduct(s: seq<Insn>, r: seq<Insn>, uses: seq<nat>, def: seq<nat>, i: nat, j: nat, k: nat)
    requires WellBuilt(s) && Tabled(s, uses, def) && j < i < |s| && OnlyAt(s, r, i)
    requires !s[j].dead && (k == s[j].a || k == s[j].b)
    ensures LoneMul(r, uses, def, k) ==> LoneMul(s, uses, def, k)
  {
    if LoneMul(r, uses, def, k) {
      TableReader(s, uses, def, j, k);
      hide WellBuilt, Tabled;
    }
  }

  /** No live sum or difference is left that could have taken in a product it was the one reader of. */
  ghost predicate NoneToMac(start: seq<Insn>, r: seq<Insn>, can: (Op, nat) -> bool) {
    forall j, d :: 0 <= j < |r| && 0 <= d < |r| && !r[j].dead && !r[d].dead && r[d].op.Mul? ==>
      !MacsInto(start, r[j], r[d], can)
  }

  predicate MacsInto(start: seq<Insn>, x: Insn, m: Insn, can: (Op, nat) -> bool) {
    && (x.op.Add? || x.op.Sub?) && can(Mac, if x.op.Sub? then 1 else 0) && x.a != NONE && x.b != NONE
    && m.dst != NONE && Count(start, m.dst) == 1 && (x.b == m.dst || (x.op.Add? && x.a == m.dst))
  }

  lemma NoneMacked(start: seq<Insn>, r: seq<Insn>, uses: seq<nat>, def: seq<nat>, can: (Op, nat) -> bool)
    requires CountedUpto(start, |start|, uses) && Tabled(r, uses, def) && Macked0(r, uses, def, can, |r|)
    requires |r| <= NONE
    ensures NoneToMac(start, r, can)
  {
    assert start[..|start|] == start;
    forall j, d | 0 <= j < |r| && 0 <= d < |r| && !r[j].dead && !r[d].dead && r[d].op.Mul?
      ensures !MacsInto(start, r[j], r[d], can)
    {
      var k := r[d].dst;
      if k != NONE && (k == r[j].b || k == r[j].a) {
        assert k < MAX_TEMPS && def[k] == d;
        assert !CanMac(r, uses, def, can, r[j]);
      }
    }
  }

  lemma MacBegins<W(!new)>(t: Target<W>, start: seq<Insn>, uses: seq<nat>, def: seq<nat>, can: (Op, nat) -> bool)
    requires WellBuilt(start) && Tabled(start, uses, def) && uses == Uses(start) && def == Sites(start)
    ensures Sound(t, start, start, uses, def) && Lowers(can, start, start) && Macked0(start, uses, def, can, 0)
    ensures MacFrom(start, 0, uses, def, can) == Macked(start, can)
  {
    hide WellBuilt, Tabled, Uses, Sites, MacFrom;
    LowersSelf(can, start);
  }

  lemma MacGoes(s: seq<Insn>, i: nat, uses: seq<nat>, def: seq<nat>, can: (Op, nat) -> bool)
    requires i < |s|
    ensures MacFrom(s, i, uses, def, can) ==
            MacFrom(if s[i].dead then s else MacOne(s, i, uses, def, can), i + 1, uses, def, can)
  {
    hide MacOne;
  }

  lemma MacEnds(s: seq<Insn>, uses: seq<nat>, def: seq<nat>, can: (Op, nat) -> bool)
    ensures MacFrom(s, |s|, uses, def, can) == s
  {
  }

  method PassMac<W(!new)>(b: array<Insn>, canLower: (Op, nat) -> bool, ghost t: Target<W>)
    requires WellBuilt(b[..])
    modifies b
    ensures Same(t, old(b[..]), b[..]) && WellBuilt(b[..]) && Kin(old(b[..]), b[..])
    ensures b[..] == Macked(old(b[..]), canLower) && Lowers(canLower, old(b[..]), b[..])
    ensures b.Length <= MAX_INSNS ==> NoneToMac(old(b[..]), b[..], canLower)
  {
    hide Sound, Lowers, Macked0, MacOne, CanMac, WellBuilt, OnlyAt, Tabled, Kin, Same, NoneToMac, Uses, Sites,
         CountedUpto, MacFrom, Macked;
    var uses, def := Tabulate(b);
    ghost var start := b[..];
    MacBegins(t, start, uses, def, canLower);
    for i := 0 to b.Length
      invariant Sound(t, start, b[..], uses, def) && Lowers(canLower, start, b[..])
      invariant Macked0(b[..], uses, def, canLower, i)
      invariant MacFrom(b[..], i, uses, def, canLower) == Macked(start, canLower)
    {
      ghost var s := b[..];
      MacGoes(s, i, uses, def, canLower);
      SoundMeans(t, start, s, uses, def);
      if !b[i].dead {
        MacAt(b, i, uses, def, canLower, t, start);
        MacFrame(s, i, uses, def, canLower);
        LowersTrans(canLower, start, s, b[..]);
        StillMacked(s, b[..], uses, def, canLower, i);
      } else {
        MackedMore(s, uses, def, canLower, i);
      }
    }
    SoundMeans(t, start, b[..], uses, def);
    MacEnds(b[..], uses, def, canLower);
    if b.Length <= MAX_INSNS {
      NoneMacked(start, b[..], uses, def, canLower);
    }
  }

  lemma MackedMore(s: seq<Insn>, uses: seq<nat>, def: seq<nat>, can: (Op, nat) -> bool, i: nat)
    requires i < |s| && s[i].dead && Macked0(s, uses, def, can, i)
    ensures Macked0(s, uses, def, can, i + 1)
  {
    hide CanMac;
  }
}
