/**
 * Forwarding of guest registers: once a temp is known to equal a register, reading the register is
 * copying the temp, and whoever would read the copy reads the temp.
 */
module IrTraffic {
  import opened Words
  import opened Ir
  import opened IrValues

  const TRACKED: nat := 64

  /** The registers the walk follows: not those past its table, and none that reads as zero. */
  predicate Tracked<W>(t: Target<W>, n: u32) {
    n < TRACKED && !t.zero(n)
  }

  /** Which temp holds a register's value, and which temp a temp is a copy of. */
  datatype Walk = Walk(cur: map<u32, nat>, copy: map<nat, nat>)

  const FRESH := Walk(map[], map[])

  function Source(copy: map<nat, nat>, k: nat): nat {
    if k in copy then copy[k] else k
  }

  function Resolved(x: Insn, w: Walk): Insn {
    x.(a := Source(w.copy, x.a), b := Source(w.copy, x.b), c := Source(w.copy, x.c))
  }

  /** The instruction as the walk leaves it. */
  function Forward<W>(t: Target<W>, x: Insn, w: Walk): Insn {
    if x.dead then x
    else if x.op.Get? && Tracked(t, x.imm) && x.imm in w.cur then Resolved(x, w).(op := Mov, a := w.cur[x.imm])
    else Resolved(x, w)
  }

  function CurAfter<W>(t: Target<W>, x: Insn, y: Insn, cur: map<u32, nat>): map<u32, nat> {
    match x.op
    case Get => if Tracked(t, x.imm) && x.imm !in cur then cur[x.imm := x.dst] else cur
    case Put => if !Tracked(t, x.imm) then cur else if y.a == NONE then cur - {x.imm} else cur[x.imm := y.a]
    case Helper => map[]
    case HelperTrap => map[]
    case SetPc => if t.pcReg.Some? && t.pcReg.value < TRACKED then cur - {t.pcReg.value} else cur
    case _ => cur
  }

  function WalkAfter<W>(t: Target<W>, x: Insn, w: Walk): Walk {
    if x.dead then w else
      var y := Forward(t, x, w);
      Walk(CurAfter(t, x, y, w.cur), if y.op.Mov? && y.dst != NONE && y.a != NONE then w.copy[y.dst := y.a] else w.copy)
  }

  function Traffic<W>(t: Target<W>, s: seq<Insn>, w: Walk): seq<Insn> {
    if s == [] then [] else [Forward(t, s[0], w)] + Traffic(t, s[1..], WalkAfter(t, s[0], w))
  }

  // ---- what the tables promise ----

  /** Every temp in the tables is a defined one. */
  predicate TablesOk<W>(t: Target<W>, w: Walk, defined: set<nat>) {
    && (forall r :: r in w.cur ==> w.cur[r] in defined && Tracked(t, r))
    && (forall k :: k in w.copy ==> k in defined && w.copy[k] in defined)
    && NONE !in defined
  }

  /** And holds what the tables say it does. */
  predicate Current<W>(t: Target<W>, w: Walk, g: Guest<W>, tmp: Temps) {
    && (forall r :: r in w.cur ==> ReadReg(t, g, r) == Arg(tmp, w.cur[r]))
    && (forall k :: k in w.copy ==> Arg(tmp, k) == Arg(tmp, w.copy[k]))
  }

  lemma ResolvedPerforms<W>(t: Target<W>, x: Insn, w: Walk, defined: set<nat>, g: Guest<W>, n: nat, tmp: Temps)
    requires InsnOk(x, defined) && TablesOk(t, w, defined) && Current(t, w, g, tmp)
    ensures Perform(t, Resolved(x, w), g, n, tmp) == Perform(t, x, g, n, tmp)
  {
    hide Act;
  }

  /** The forwarded instruction does what the original did. */
  lemma ForwardPerforms<W>(t: Target<W>, x: Insn, w: Walk, defined: set<nat>, g: Guest<W>, n: nat, tmp: Temps)
    requires !x.dead && InsnOk(x, defined) && TablesOk(t, w, defined) && Current(t, w, g, tmp)
    ensures Perform(t, Forward(t, x, w), g, n, tmp) == Perform(t, x, g, n, tmp)
  {
    if x.op.Get? && Tracked(t, x.imm) && x.imm in w.cur {
      var y := Forward(t, x, w);
      PerformPure(t, x, g, n, tmp);
      PerformPure(t, y, g, n, tmp);
      assert Arg(tmp, y.a) == ReadReg(t, g, x.imm);
      hide Perform, ReadReg, Arg;
    } else {
      ResolvedPerforms(t, x, w, defined, g, n, tmp);
    }
  }

  /** Nothing but a PUT, a SETPC or a helper changes a register without leaving the block. */
  lemma RegistersKept<W>(t: Target<W>, x: Insn, g: Guest<W>, n: nat, tmp: Temps)
    requires !x.op.Put? && !x.op.SetPc? && !x.op.Helper? && !x.op.HelperTrap?
    ensures var p := Perform(t, x, g, n, tmp); p.Next? ==> p.guest.regs == g.regs && p.guest.pc == g.pc
  {
    hide Value, Arg, SetFlags, WriteReg, Add32, Changed, Shl32, Word;
  }

  lemma SameRegisters<W>(t: Target<W>, g: Guest<W>, h: Guest<W>, r: u32)
    requires h.regs == g.regs && h.pc == g.pc
    ensures ReadReg(t, h, r) == ReadReg(t, g, r)
  {
  }

  lemma PerformPut<W>(t: Target<W>, x: Insn, g: Guest<W>, n: nat, tmp: Temps)
    requires x.op.Put? || x.op.SetPc?
    ensures Perform(t, x, g, n, tmp) ==
            Next(if x.op.Put? then WriteReg(t, g, x.imm, Arg(tmp, x.a))
                 else g.(pc := if x.a != NONE then Arg(tmp, x.a) else x.imm), n, 0)
  {
    hide Value, Arg, WriteReg;
  }

  lemma WrittenReg<W>(t: Target<W>, g: Guest<W>, m: u32, v: u32, r: u32)
    ensures ReadReg(t, WriteReg(t, g, m, v), r) == if r == m && !t.zero(m) then v else ReadReg(t, g, r)
  {
  }

  lemma CurPut<W>(t: Target<W>, x: Insn, w: Walk, defined: set<nat>, g: Guest<W>, n: nat, tmp: Temps, r: u32)
    requires !x.dead && x.op.Put? && InsnOk(x, defined) && TablesOk(t, w, defined) && Current(t, w, g, tmp)
    requires r in WalkAfter(t, x, w).cur
    ensures ReadReg(t, WriteReg(t, g, x.imm, Arg(tmp, x.a)), r) == Arg(tmp, WalkAfter(t, x, w).cur[r])
    ensures WalkAfter(t, x, w).cur[r] in defined && Tracked(t, r)
  {
    WrittenReg(t, g, x.imm, Arg(tmp, x.a), r);
    hide ReadReg, WriteReg;
  }

  lemma CurSetPc<W>(t: Target<W>, x: Insn, w: Walk, defined: set<nat>, g: Guest<W>, v: u32, tmp: Temps, r: u32)
    requires !x.dead && x.op.SetPc? && TablesOk(t, w, defined) && Current(t, w, g, tmp)
    requires r in WalkAfter(t, x, w).cur
    ensures ReadReg(t, g.(pc := v), r) == Arg(tmp, WalkAfter(t, x, w).cur[r])
    ensures WalkAfter(t, x, w).cur[r] in defined && Tracked(t, r)
  {
  }

  /** A read not forwarded names its own temp; every other operation leaves the table. */
  lemma CurRead<W>(t: Target<W>, x: Insn, w: Walk, defined: set<nat>, g: Guest<W>, n: nat, tmp: Temps, v: u32, r: u32)
    requires !x.dead && InsnOk(x, defined) && TablesOk(t, w, defined) && Current(t, w, g, tmp)
    requires !x.op.Put? && !x.op.SetPc? && !x.op.Helper? && !x.op.HelperTrap? &&
             (x.op.Get? ==> v == ReadReg(t, g, x.imm))
    requires r in WalkAfter(t, x, w).cur
    ensures ReadReg(t, g, r) == Arg(Bind(tmp, x, v), WalkAfter(t, x, w).cur[r])
    ensures WalkAfter(t, x, w).cur[r] in defined + Defines(x) && Tracked(t, r)
  {
    hide ReadReg;
  }

  /** The registers in the new table, after the step, hold what it says. */
  lemma CurStep<W>(t: Target<W>, x: Insn, w: Walk, defined: set<nat>, g: Guest<W>, n: nat, tmp: Temps, r: u32)
    requires !x.dead && InsnOk(x, defined) && TablesOk(t, w, defined) && Current(t, w, g, tmp)
    requires Perform(t, x, g, n, tmp).Next? && r in WalkAfter(t, x, w).cur
    ensures var p := Perform(t, x, g, n, tmp);
            ReadReg(t, p.guest, r) == Arg(Bind(tmp, x, p.value), WalkAfter(t, x, w).cur[r])
    ensures WalkAfter(t, x, w).cur[r] in defined + Defines(x) && Tracked(t, r)
  {
    hide Perform, ReadReg, WriteReg, TablesOk, Current, Arg, Tracked, Forward;
    var p := Perform(t, x, g, n, tmp);
    if x.op.Put? {
      PerformPut(t, x, g, n, tmp);
      CurPut(t, x, w, defined, g, n, tmp, r);
      hide CurAfter;
    } else if x.op.SetPc? {
      PerformPut(t, x, g, n, tmp);
      CurSetPc(t, x, w, defined, g, p.guest.pc, tmp, r);
      hide CurAfter;
    } else if !x.op.Helper? && !x.op.HelperTrap? {
      RegistersKept(t, x, g, n, tmp);
      SameRegisters(t, g, p.guest, r);
      if x.op.Get? {
        PerformPure(t, x, g, n, tmp);
      }
      CurRead(t, x, w, defined, g, n, tmp, p.value, r);
      hide CurAfter;
    }
  }

  lemma CopyStep<W>(t: Target<W>, x: Insn, w: Walk, defined: set<nat>, g: Guest<W>, n: nat, tmp: Temps, k: nat)
    requires !x.dead && InsnOk(x, defined) && TablesOk(t, w, defined) && Current(t, w, g, tmp)
    requires Perform(t, x, g, n, tmp).Next? && k in WalkAfter(t, x, w).copy
    ensures var p, w' := Perform(t, x, g, n, tmp), WalkAfter(t, x, w);
            Arg(Bind(tmp, x, p.value), k) == Arg(Bind(tmp, x, p.value), w'.copy[k])
    ensures k in defined + Defines(x) && WalkAfter(t, x, w).copy[k] in defined + Defines(x)
  {
    hide Perform, ReadReg, CurAfter;
    var y := Forward(t, x, w);
    if y.op.Mov? && k == y.dst {
      ForwardPerforms(t, x, w, defined, g, n, tmp);
      PerformPure(t, y, g, n, tmp);
    }
  }

  lemma StepKeeps<W>(t: Target<W>, x: Insn, w: Walk, defined: set<nat>, g: Guest<W>, n: nat, tmp: Temps)
    requires !x.dead && InsnOk(x, defined) && TablesOk(t, w, defined) && Current(t, w, g, tmp)
    requires Perform(t, x, g, n, tmp).Next?
    ensures var p, w' := Perform(t, x, g, n, tmp), WalkAfter(t, x, w);
            TablesOk(t, w', defined + Defines(x)) && Current(t, w', p.guest, Bind(tmp, x, p.value))
  {
    var p, w' := Perform(t, x, g, n, tmp), WalkAfter(t, x, w);
    hide Perform, WalkAfter, ReadReg, Bind;
    forall r | r in w'.cur
      ensures ReadReg(t, p.guest, r) == Arg(Bind(tmp, x, p.value), w'.cur[r]) &&
              w'.cur[r] in defined + Defines(x) && Tracked(t, r)
    {
      CurStep(t, x, w, defined, g, n, tmp, r);
    }
    forall k | k in w'.copy
      ensures Arg(Bind(tmp, x, p.value), k) == Arg(Bind(tmp, x, p.value), w'.copy[k]) &&
              k in defined + Defines(x) && w'.copy[k] in defined + Defines(x)
    {
      CopyStep(t, x, w, defined, g, n, tmp, k);
    }
  }

  /** With the tables current, the block and what the walk makes of it end alike. */
  lemma {:induction false} TrafficSim<W>(t: Target<W>, s: seq<Insn>, w: Walk, defined: set<nat>, g: Guest<W>, n: nat,
                                         tmp: Temps)
    requires Built(s, defined) && TablesOk(t, w, defined) && Current(t, w, g, tmp)
    ensures Exec(t, s, g, n, tmp) == Exec(t, Traffic(t, s, w), g, n, tmp)
    decreases |s|
  {
    if s != [] {
      var x, y, rest := s[0], Forward(t, s[0], w), Traffic(t, s[1..], WalkAfter(t, s[0], w));
      assert s == [x] + s[1..] && Traffic(t, s, w) == [y] + rest;
      assert y.dead == x.dead && y.dst == x.dst;
      ExecCons(t, x, s[1..], g, n, tmp);
      ExecCons(t, y, rest, g, n, tmp);
      hide Exec, Perform, TablesOk, Current, Forward, Traffic, InsnOk;
      if x.dead {
        TrafficSim(t, s[1..], w, defined + Defines(x), g, n, tmp);
      } else {
        ForwardPerforms(t, x, w, defined, g, n, tmp);
        var p := Perform(t, x, g, n, tmp);
        if p.Next? {
          StepKeeps(t, x, w, defined, g, n, tmp);
          TrafficSim(t, s[1..], WalkAfter(t, x, w), defined + Defines(x), p.guest, p.retired, Bind(tmp, x, p.value));
        }
      }
    }
  }

  /** The pass preserves meaning. */
  lemma TrafficSame<W(!new)>(t: Target<W>, s: seq<Insn>)
    requires Built(s, {})
    ensures Same(t, s, Traffic(t, s, FRESH))
  {
    forall g, n, tmp
      ensures Exec(t, s, g, n, tmp) == Exec(t, Traffic(t, s, FRESH), g, n, tmp)
    {
      TrafficSim(t, s, FRESH, {}, g, n, tmp);
    }
  }

  lemma TablesStep<W>(t: Target<W>, x: Insn, w: Walk, defined: set<nat>)
    requires (!x.dead ==> InsnOk(x, defined)) && TablesOk(t, w, defined)
    ensures TablesOk(t, WalkAfter(t, x, w), defined + Defines(x))
    ensures !x.dead ==> InsnOk(Forward(t, x, w), defined)
  {
  }

  /** The block stays as the builder makes them. */
  lemma {:induction false} TrafficBuilt<W>(t: Target<W>, s: seq<Insn>, w: Walk, defined: set<nat>)
    requires Built(s, defined) && TablesOk(t, w, defined)
    ensures Built(Traffic(t, s, w), defined) && SameFrame(s, Traffic(t, s, w))
    decreases |s|
  {
    if s != [] {
      var x, y, rest := s[0], Forward(t, s[0], w), Traffic(t, s[1..], WalkAfter(t, s[0], w));
      TablesStep(t, x, w, defined);
      TrafficBuilt(t, s[1..], WalkAfter(t, x, w), defined + Defines(x));
      assert Traffic(t, s, w) == [y] + rest && ([y] + rest)[1..] == rest;
      assert y.dead == x.dead && Defines(y) == Defines(x) && (y.op.Exit? ==> x.op.Exit?);
      SameFrameCons(x, y, s[1..], rest);
      assert s == [x] + s[1..];
      hide InsnOk, TablesOk, Forward, WalkAfter;
    }
  }

  // ---- what the next passes rely on ----

  /** The registers PUT or read since something else may have written them. */
  function PutsAfter<W>(t: Target<W>, x: Insn, puts: set<u32>): set<u32> {
    if x.dead then puts
    else match x.op
      case Put => if Tracked(t, x.imm) then puts + {x.imm} else puts
      case Get => if Tracked(t, x.imm) then puts + {x.imm} else puts
      case Helper => {}
      case HelperTrap => {}
      case SetPc => if t.pcReg.Some? then puts - {t.pcReg.value} else puts
      case _ => puts
  }

  /**
   * No register in `puts`, or PUT or read from here on, is read again before a helper, or a SETPC for the pc, has
   * intervened.
   */
  predicate Forwarded<W>(t: Target<W>, s: seq<Insn>, puts: set<u32>)
    decreases |s|
  {
    s == [] || (
      && (!s[0].dead && s[0].op.Get? && Tracked(t, s[0].imm) ==> s[0].imm !in puts)
      && Forwarded(t, s[1..], PutsAfter(t, s[0], puts)))
  }

  lemma ForwardedStep<W>(t: Target<W>, x: Insn, w: Walk, defined: set<nat>, puts: set<u32>)
    requires (!x.dead ==> InsnOk(x, defined)) && TablesOk(t, w, defined) && puts <= w.cur.Keys
    ensures PutsAfter(t, Forward(t, x, w), puts) <= WalkAfter(t, x, w).cur.Keys
    ensures var y := Forward(t, x, w); !y.dead && y.op.Get? && Tracked(t, y.imm) ==> y.imm !in puts
  {
  }

  /** Which is what the walk leaves. */
  lemma {:induction false} TrafficForwards<W>(t: Target<W>, s: seq<Insn>, w: Walk, defined: set<nat>, puts: set<u32>)
    requires Built(s, defined) && TablesOk(t, w, defined) && puts <= w.cur.Keys
    ensures Forwarded(t, Traffic(t, s, w), puts)
    decreases |s|
  {
    if s != [] {
      var x, y, rest := s[0], Forward(t, s[0], w), Traffic(t, s[1..], WalkAfter(t, s[0], w));
      TablesStep(t, x, w, defined);
      ForwardedStep(t, x, w, defined, puts);
      TrafficForwards(t, s[1..], WalkAfter(t, x, w), defined + Defines(x), PutsAfter(t, y, puts));
      assert Traffic(t, s, w) == [y] + rest && ([y] + rest)[1..] == rest;
      hide InsnOk, TablesOk, Forward, WalkAfter, PutsAfter;
    }
  }

  /** One instruction of the walk. */
  method ForwardOne<W>(t: Target<W>, x0: Insn, cur0: map<u32, nat>, copy0: map<nat, nat>)
    returns (x: Insn, cur: map<u32, nat>, copy: map<nat, nat>)
    ensures x == Forward(t, x0, Walk(cur0, copy0)) && Walk(cur, copy) == WalkAfter(t, x0, Walk(cur0, copy0))
  {
    x, cur, copy := x0, cur0, copy0;
    if x.dead {
      return;
    }
    x := x.(a := Source(copy, x.a), b := Source(copy, x.b), c := Source(copy, x.c));
    match x.op {
      case Get =>
        if Tracked(t, x.imm) {
          if x.imm in cur {
            x := x.(op := Mov, a := cur[x.imm]);
          } else {
            cur := cur[x.imm := x.dst];
          }
        }
      case Put =>
        if Tracked(t, x.imm) {
          cur := if x.a == NONE then cur - {x.imm} else cur[x.imm := x.a];
        }
      case Helper => cur := map[];
      case HelperTrap => cur := map[];
      case SetPc =>
        if t.pcReg.Some? && t.pcReg.value < TRACKED {
          cur := cur - {t.pcReg.value};
        }
      case _ =>
    }
    if x.op.Mov? && x.dst != NONE && x.a != NONE {
      copy := copy[x.dst := x.a];
    }
  }

  lemma TrafficCons<W>(t: Target<W>, x: Insn, rest: seq<Insn>, w: Walk)
    ensures Traffic(t, [x] + rest, w) == [Forward(t, x, w)] + Traffic(t, rest, WalkAfter(t, x, w))
  {
    assert ([x] + rest)[1..] == rest;
  }

  lemma {:induction false} TrafficLength<W>(t: Target<W>, s: seq<Insn>, w: Walk)
    ensures |Traffic(t, s, w)| == |s|
    decreases |s|
  {
    if s != [] {
      TrafficLength(t, s[1..], WalkAfter(t, s[0], w));
    }
  }

  /** The walk in place. */
  method PassRegTraffic<W>(b: array<Insn>, t: Target<W>)
    modifies b
    ensures b[..] == Traffic(t, old(b[..]), FRESH)
  {
    hide Traffic, Forward, WalkAfter;
    ghost var was, goal := b[..], Traffic(t, b[..], FRESH);
    TrafficLength(t, was, FRESH);
    var cur: map<u32, nat>, copy: map<nat, nat> := map[], map[];
    assert was[0..] == was && goal[0..] == goal;
    for i := 0 to b.Length
      invariant b[..i] == goal[..i] && b[i..] == was[i..]
      invariant goal[i..] == Traffic(t, was[i..], Walk(cur, copy))
    {
      ghost var rest := was[i + 1..];
      assert was[i..] == [was[i]] + rest && b[i] == was[i] by { assert b[i..][0] == was[i..][0]; }
      TrafficCons(t, was[i], rest, Walk(cur, copy));
      var x;
      x, cur, copy := ForwardOne(t, b[i], cur, copy);
      GoalStep(goal, i, x, Traffic(t, rest, Walk(cur, copy)));
      b[i] := x;
    }
  }

  lemma GoalStep(goal: seq<Insn>, i: nat, x: Insn, rest: seq<Insn>)
    requires i < |goal| && goal[i..] == [x] + rest
    ensures goal[i] == x && goal[i + 1..] == rest
  {
    assert goal[i] == goal[i..][0];
    assert goal[i + 1..] == goal[i..][1..];
  }
}
