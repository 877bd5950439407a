/** Dead flag elimination: a flag nothing reads before it is defined again is not computed. */
module IrFlags {
  import opened Words
  import opened Ir

  function ReadsFlags(op: Op): set<Flag> {
    if op.GetCond? || op.Select? || op.ExitIf? || op.Load? || op.Store? || op.BitOp? || op.Helper? || op.HelperTrap?
    then ALL else {}
  }

  /** One instruction of the backward walk, with the flags wanted after it: the instruction, and those wanted before. */
  function Kept(x: Insn, live: set<Flag>): (Insn, set<Flag>) {
    if x.dead then (x, live)
    else if x.op.SetF? && x.defs != {} && x.defs * live == {} then (x.(live := {}, dead := true), live)
    else if x.defs != {} then (x.(live := x.defs * live), live - x.defs + ReadsFlags(x.op))
    else (x, live + ReadsFlags(x.op))
  }

  function DeadFlags(s: seq<Insn>, live: set<Flag>): (seq<Insn>, set<Flag>) {
    if s == [] then ([], live) else
      var rest := DeadFlags(s[1..], live);
      var x := Kept(s[0], rest.1);
      ([x.0] + rest.0, x.1)
  }

  /** As a frontend emits them: a flag definition wanted whole, and only by the operations that make one. */
  predicate Fresh(x: Insn) {
    && (x.op.SetF? ==> x.live == x.defs)
    && (x.defs != {} ==> x.op.SetF? || (x.op.BitOp? && x.defs == {Z}))
  }

  predicate AllFresh(s: seq<Insn>)
    decreases |s|
  {
    s == [] || ((!s[0].dead ==> Fresh(s[0])) && AllFresh(s[1..]))
  }

  predicate Alike<W(==)>(g: Guest<W>, h: Guest<W>, live: set<Flag>) {
    h == g.(flags := h.flags) && g.flags * live == h.flags * live
  }

  lemma SetAlike(f: set<Flag>, h: set<Flag>, defs: set<Flag>, live: set<Flag>, values: set<Flag>)
    requires f * (live - defs) == h * (live - defs)
    ensures SetFlags(f, defs, values) * live == SetFlags(h, defs * live, values) * live
    ensures defs * live == {} ==> SetFlags(f, defs, values) * live == h * live
  {
    forall x | x in live
      ensures x in SetFlags(f, defs, values) <==> x in SetFlags(h, defs * live, values)
    {
      if x !in defs {
        assert x in f * (live - defs) <==> x in h * (live - defs);
      }
    }
  }

  lemma ValueBlind<W>(t: Target<W>, op: Op, aux: nat, imm: u32, a: u32, b: u32, c: u32, g: Guest<W>, f: set<Flag>)
    requires IsPure(op) && !op.GetCond? && !op.Select?
    ensures Value(t, op, aux, imm, a, b, c, g.(flags := f)) == Value(t, op, aux, imm, a, b, c, g)
  {
    hide Arith;
  }

  lemma ChangeBlind<W>(t: Target<W>, op: Op, aux: nat, imm: u32, live: set<Flag>, hasA: bool,
                       a: u32, b: u32, c: u32, g: Guest<W>, f: set<Flag>)
    requires !op.SetF?
    ensures var p := Change(t, op, aux, imm, live, hasA, a, b, c, g);
            && Change(t, op, aux, imm, live, hasA, a, b, c, g.(flags := f)) == (p.0.(flags := f), p.1)
            && p.0.flags == g.flags
  {
    hide SetFlags;
    if op.Put? {
    } else {
      hide WriteReg;
    }
  }

  /** An operation that neither reads nor writes the flags leaves them and does the same whatever they are. */
  lemma FlagBlind<W>(t: Target<W>, x: Insn, g: Guest<W>, f: set<Flag>, n: nat, tmp: Temps)
    requires ReadsFlags(x.op) == {} && !x.op.SetF? && !x.op.Exit?
    ensures var p, q := Perform(t, x, g, n, tmp), Perform(t, x, g.(flags := f), n, tmp);
            p.Next? && q == p.(guest := p.guest.(flags := f)) && p.guest.flags == g.flags
  {
    var a, b, c := Arg(tmp, x.a), Arg(tmp, x.b), Arg(tmp, x.c);
    assert !Observes(x.op) && !x.op.GetCond? && !x.op.Select?;
    hide Value, Change, Observe, Arg, RetireCount, IsArith;
    if IsPure(x.op) {
      ValueBlind(t, x.op, x.aux, x.imm, a, b, c, g, f);
    } else {
      ChangeBlind(t, x.op, x.aux, x.imm, x.live, x.a != NONE, a, b, c, g, f);
    }
  }

  lemma Whole(f: set<Flag>)
    ensures f * ALL == f && f + ALL == ALL
  {
    forall x | x in f
      ensures x in ALL
    {
      match x
      case Z => case S => case V => case C =>
    }
  }

  /** The outcome of one instruction in both runs: the same stop, or guests alike in the flags wanted next. */
  predicate InStep<W(==)>(p: Outcome<W>, q: Outcome<W>, live: set<Flag>) {
    if p.Stop? then q == p
    else q.Next? && q.retired == p.retired && q.value == p.value && Alike(p.guest, q.guest, live)
  }

  lemma ReaderSim<W>(t: Target<W>, x: Insn, live: set<Flag>, g: Guest<W>, h: Guest<W>, n: nat, tmp: Temps)
    requires !x.dead && Fresh(x) && ReadsFlags(x.op) == ALL && Alike(g, h, Kept(x, live).1)
    ensures !Kept(x, live).0.dead && InStep(Perform(t, x, g, n, tmp), Perform(t, Kept(x, live).0, h, n, tmp), live)
  {
    Whole(live);
    Whole(live - x.defs);
    assert Kept(x, live).1 == ALL;
    Whole(g.flags);
    Whole(h.flags);
    assert g == h;
    var y := Kept(x, live).0;
    assert y == x.(live := y.live) && !x.op.SetF?;
    hide Value, Observe, Arg, IsPure, IsArith;
    assert Perform(t, x, g, n, tmp) == Perform(t, y, g, n, tmp);
  }

  lemma BlindSim<W>(t: Target<W>, x: Insn, live: set<Flag>, g: Guest<W>, h: Guest<W>, n: nat, tmp: Temps)
    requires !x.dead && Fresh(x) && ReadsFlags(x.op) == {} && !x.op.SetF? && !x.op.Exit? && Alike(g, h, Kept(x, live).1)
    ensures Kept(x, live).0 == x && InStep(Perform(t, x, g, n, tmp), Perform(t, x, h, n, tmp), live)
  {
    assert live + {} == live;
    FlagBlind(t, x, g, h.flags, n, tmp);
    hide Perform;
  }

  lemma PerformSetF<W>(t: Target<W>, x: Insn, g: Guest<W>, n: nat, tmp: Temps)
    requires x.op.SetF?
    ensures var values := t.flagsOf(x.aux, Arg(tmp, x.a), Arg(tmp, x.b));
            Perform(t, x, g, n, tmp) == Next(g.(flags := SetFlags(g.flags, x.live, values)), n, 0)
  {
    hide Value, Observe, SetFlags, Arg;
  }

  lemma Disjoint(a: set<Flag>, b: set<Flag>)
    requires a * b == {}
    ensures b - a == b
  {
    forall x | x in b
      ensures x !in a
    {
      assert x in a ==> x in a * b;
    }
  }

  /** What the walk makes of a flag definition. */
  lemma KeptSetF(x: Insn, live: set<Flag>)
    requires !x.dead && Fresh(x) && x.op.SetF?
    ensures var y := Kept(x, live);
            y == (x.(live := x.defs * live, dead := y.0.dead), live - x.defs) &&
            (y.0.dead ==> x.defs * live == {})
  {
    if x.defs * live == {} {
      Disjoint(x.defs, live);
    }
    assert live - x.defs + {} == live - x.defs;
    assert live + {} == live;
    assert {} * live == {};
  }

  lemma SetFSim<W>(t: Target<W>, x: Insn, live: set<Flag>, g: Guest<W>, h: Guest<W>, n: nat, tmp: Temps)
    requires !x.dead && Fresh(x) && x.op.SetF? && Alike(g, h, Kept(x, live).1)
    ensures var y := Kept(x, live).0;
            var p := Perform(t, x, g, n, tmp);
            if y.dead then p.Next? && p.retired == n && Alike(p.guest, h, live)
            else InStep(p, Perform(t, y, h, n, tmp), live)
  {
    var values := t.flagsOf(x.aux, Arg(tmp, x.a), Arg(tmp, x.b));
    KeptSetF(x, live);
    PerformSetF(t, x, g, n, tmp);
    PerformSetF(t, Kept(x, live).0, h, n, tmp);
    SetAlike(g.flags, h.flags, x.defs, live, values);
    hide Perform, Kept, SetFlags;
  }

  /** Two ends of a block: alike in everything but the flags, and in those of `live`. */
  ghost predicate Like<W>(p: Result<W>, q: Result<W>, live: set<Flag>) {
    q == p.(guest := q.guest) && q.guest == p.guest.(flags := q.guest.flags) &&
    p.guest.flags * live == q.guest.flags * live
  }

  lemma ExitSim<W>(t: Target<W>, s: seq<Insn>, out: set<Flag>, g: Guest<W>, h: Guest<W>, n: nat, tmp: Temps)
    requires |s| == 1 && !s[0].dead && Fresh(s[0]) && s[0].op.Exit? && Alike(g, h, DeadFlags(s, out).1)
    ensures Like(Exec(t, s, g, n, tmp), Exec(t, DeadFlags(s, out).0, h, n, tmp), out)
  {
    assert DeadFlags(s[1..], out) == ([], out);
    assert out + {} == out;
    assert DeadFlags(s, out) == ([s[0]] + [], out);
    assert [s[0]] + [] == s;
  }

  /** One instruction in both runs, whatever it is. */
  lemma StepSim<W>(t: Target<W>, x: Insn, live: set<Flag>, g: Guest<W>, h: Guest<W>, n: nat, tmp: Temps)
    requires !x.dead && Fresh(x) && !x.op.Exit? && Alike(g, h, Kept(x, live).1)
    ensures var y := Kept(x, live).0;
            var p := Perform(t, x, g, n, tmp);
            && y.dst == x.dst
            && (y.dead ==> p.Next? && p.retired == n && x.op.SetF? && Alike(p.guest, h, live))
            && (!y.dead ==> InStep(p, Perform(t, y, h, n, tmp), live))
  {
    if ReadsFlags(x.op) == ALL {
      ReaderSim(t, x, live, g, h, n, tmp);
    } else if x.op.SetF? {
      SetFSim(t, x, live, g, h, n, tmp);
    } else {
      BlindSim(t, x, live, g, h, n, tmp);
    }
    hide Perform, Alike;
  }

  /**
   * From guests alike in the flags wanted at the start, the block and what the pass makes of it end alike
   * in everything but the flags nobody wants afterwards.
   */
  lemma {:induction false} DeadFlagsSim<W>(t: Target<W>, s: seq<Insn>, out: set<Flag>, defined: set<nat>, g: Guest<W>,
                                           h: Guest<W>, n: nat, tmp: Temps)
    requires AllFresh(s) && Built(s, defined) && Alike(g, h, DeadFlags(s, out).1)
    ensures Like(Exec(t, s, g, n, tmp), Exec(t, DeadFlags(s, out).0, h, n, tmp), out)
    decreases |s|
  {
    if s == [] {
    } else if !s[0].dead && s[0].op.Exit? {
      ExitSim(t, s, out, g, h, n, tmp);
    } else {
      var x, rest := s[0], DeadFlags(s[1..], out);
      var y := Kept(x, rest.1);
      assert s == [x] + s[1..];
      assert DeadFlags(s, out) == ([y.0] + rest.0, y.1);
      ExecCons(t, x, s[1..], g, n, tmp);
      ExecCons(t, y.0, rest.0, h, n, tmp);
      if x.dead {
        DeadFlagsSim(t, s[1..], out, defined + Defines(x), g, h, n, tmp);
      } else {
        StepSim(t, x, rest.1, g, h, n, tmp);
        assert x.op.SetF? ==> x.dst == NONE;
        hide Perform, Kept, Alike, Exec, DeadFlags, Fresh, InsnOk;
        var p := Perform(t, x, g, n, tmp);
        if p.Next? {
          hide Like;
          var next := if y.0.dead then h else Perform(t, y.0, h, n, tmp).guest;
          DeadFlagsSim(t, s[1..], out, defined + Defines(x), p.guest, next, p.retired, Bind(tmp, x, p.value));
        }
      }
    }
  }

  /** Two blocks mean the same to whatever reads only the flags of `live` after them. */
  ghost predicate SameFor<W(!new)>(t: Target<W>, s: seq<Insn>, r: seq<Insn>, live: set<Flag>) {
    forall g, n, tmp :: Like(Exec(t, s, g, n, tmp), Exec(t, r, g, n, tmp), live)
  }

  /** Which for all the flags is meaning the same. */
  lemma SameForAll<W(!new)>(t: Target<W>, s: seq<Insn>, r: seq<Insn>)
    ensures SameFor(t, s, r, ALL) <==> Same(t, s, r)
  {
    if SameFor(t, s, r, ALL) {
      forall g, n, tmp
        ensures Exec(t, s, g, n, tmp) == Exec(t, r, g, n, tmp)
      {
        var p, q := Exec(t, s, g, n, tmp), Exec(t, r, g, n, tmp);
        assert Like(p, q, ALL);
        Whole(p.guest.flags);
        Whole(q.guest.flags);
      }
    }
  }

  /** The pass preserves meaning, for whatever flags are wanted afterwards. */
  lemma DeadFlagsSame<W(!new)>(t: Target<W>, s: seq<Insn>, out: set<Flag>)
    requires AllFresh(s) && Built(s, {})
    ensures SameFor(t, s, DeadFlags(s, out).0, out)
    ensures out == ALL ==> Same(t, s, DeadFlags(s, out).0)
  {
    forall g, n, tmp
      ensures Like(Exec(t, s, g, n, tmp), Exec(t, DeadFlags(s, out).0, g, n, tmp), out)
    {
      DeadFlagsSim(t, s, out, {}, g, g, n, tmp);
    }
    SameForAll(t, s, DeadFlags(s, out).0);
  }

  lemma SameForTrans<W(!new)>(t: Target<W>, s: seq<Insn>, r: seq<Insn>, q: seq<Insn>, live: set<Flag>)
    requires SameFor(t, s, r, live) && Same(t, r, q)
    ensures SameFor(t, s, q, live)
  {
    hide Exec, Like;
    forall g, n, tmp
      ensures Like(Exec(t, s, g, n, tmp), Exec(t, q, g, n, tmp), live)
    {
      assert Exec(t, r, g, n, tmp) == Exec(t, q, g, n, tmp);
    }
  }

  /** And leaves a block as the builder makes them: only flag definitions went. */
  lemma {:induction false} DeadFlagsBuilt(s: seq<Insn>, live: set<Flag>, defined: set<nat>)
    requires Built(s, defined)
    ensures Built(DeadFlags(s, live).0, defined) && SameFrame(s, DeadFlags(s, live).0)
  {
    if s != [] {
      var x, rest := s[0], DeadFlags(s[1..], live);
      var y := Kept(x, rest.1).0;
      DeadFlagsBuilt(s[1..], live, defined + Defines(x));
      assert ([y] + rest.0)[1..] == rest.0;
      assert Defines(y) == Defines(x);
      SameFrameCons(x, y, s[1..], rest.0);
      assert s == [x] + s[1..];
    }
  }

  method PassDeadFlags(b: array<Insn>, liveOut: set<Flag>)
    modifies b
    ensures b[..] == DeadFlags(old(b[..]), liveOut).0
  {
    var live := liveOut;
    var i := b.Length;
    while i > 0
      invariant 0 <= i <= b.Length && b[..i] == old(b[..i])
      invariant (b[i..], live) == DeadFlags(old(b[i..]), liveOut)
    {
      i := i - 1;
      assert old(b[i..])[1..] == old(b[i + 1..]);
      var x := b[i];
      if !x.dead {
        if x.defs != {} {
          b[i] := x.(live := x.defs * live);
          if x.op.SetF? && b[i].live == {} {
            b[i] := b[i].(dead := true);
          } else {
            live := live - x.defs + ReadsFlags(x.op);
          }
        } else {
          live := live + ReadsFlags(x.op);
        }
      }
      assert b[i..] == [b[i]] + b[i + 1..];
    }
    assert b[0..] == b[..] && old(b[0..]) == old(b[..]);
  }

  // ---- exactly which definitions go ----

  /** No live instruction before `k` defines the flag. */
  predicate Untouched(s: seq<Insn>, k: nat, f: Flag) {
    forall j :: 0 <= j < k && j < |s| ==> s[j].dead || f !in s[j].defs
  }

  /** A flag whose value at the start of `s` is looked at: by an instruction of it, or after it if `out` says so. */
  ghost predicate Wanted(s: seq<Insn>, f: Flag, out: set<Flag>) {
    || (exists k :: 0 <= k < |s| && !s[k].dead && f in ReadsFlags(s[k].op) && Untouched(s, k, f))
    || (f in out && Untouched(s, |s|, f))
  }

  lemma UntouchedCons(x: Insn, rest: seq<Insn>, k: nat, f: Flag)
    requires k <= |rest|
    ensures Untouched([x] + rest, k + 1, f) <==> (x.dead || f !in x.defs) && Untouched(rest, k, f)
  {
    var s := [x] + rest;
    assert s[0] == x && forall j :: 0 <= j < |rest| ==> s[j + 1] == rest[j];
    if Untouched(s, k + 1, f) {
      forall j | 0 <= j < k && j < |rest|
        ensures rest[j].dead || f !in rest[j].defs
      {
        assert s[j + 1] == rest[j];
      }
    }
  }

  lemma WantedCons(x: Insn, rest: seq<Insn>, f: Flag, out: set<Flag>)
    ensures Wanted([x] + rest, f, out) <==>
            (!x.dead && f in ReadsFlags(x.op)) || ((x.dead || f !in x.defs) && Wanted(rest, f, out))
  {
    var s := [x] + rest;
    UntouchedCons(x, rest, |rest|, f);
    if !x.dead && f in ReadsFlags(x.op) {
      assert !s[0].dead && f in ReadsFlags(s[0].op) && Untouched(s, 0, f);
    }
    if (x.dead || f !in x.defs) && Wanted(rest, f, out) {
      if k :| 0 <= k < |rest| && !rest[k].dead && f in ReadsFlags(rest[k].op) && Untouched(rest, k, f) {
        UntouchedCons(x, rest, k, f);
        assert s[k + 1] == rest[k] && Untouched(s, k + 1, f);
      }
    }
    if k :| 0 < k < |s| && !s[k].dead && f in ReadsFlags(s[k].op) && Untouched(s, k, f) {
      UntouchedCons(x, rest, k - 1, f);
      assert s[k] == rest[k - 1];
    }
  }

  lemma {:induction false} LiveIsWanted(s: seq<Insn>, out: set<Flag>, f: Flag)
    ensures f in DeadFlags(s, out).1 <==> Wanted(s, f, out)
    decreases |s|
  {
    if s != [] {
      var x, rest := s[0], s[1..];
      assert s == [x] + rest;
      LiveIsWanted(rest, out, f);
      WantedCons(x, rest, f, out);
      var live := DeadFlags(rest, out).1;
      assert f in x.defs * live <==> f in x.defs && f in live;
      hide Wanted, DeadFlags;
    }
  }

  /** A flag definition dies exactly when nothing it defines is wanted, and otherwise keeps exactly what is. */
  lemma {:induction false} DeadFlagsExact(s: seq<Insn>, out: set<Flag>, i: nat)
    requires i < |s|
    ensures |DeadFlags(s, out).0| == |s|
    ensures var x, y := s[i], DeadFlags(s, out).0[i];
            && y == x.(live := y.live, dead := y.dead)
            && (y.dead <==> x.dead ||
                            (x.op.SetF? && x.defs != {} && forall f :: f in x.defs ==> !Wanted(s[i + 1..], f, out)))
            && (!y.dead && x.defs != {} ==> forall f :: f in y.live <==> f in x.defs && Wanted(s[i + 1..], f, out))
    decreases |s|
  {
    var x, rest := s[0], s[1..];
    var live := DeadFlags(rest, out).1;
    DeadFlagsLength(rest, out);
    if i == 0 {
      forall f
        ensures f in live <==> Wanted(rest, f, out)
      {
        LiveIsWanted(rest, out, f);
      }
      assert forall f :: f in x.defs * live <==> f in x.defs && f in live;
      hide Wanted;
    } else {
      DeadFlagsExact(rest, out, i - 1);
      assert rest[i - 1] == s[i] && rest[i..] == s[i + 1..];
      hide Wanted, Kept;
    }
  }

  lemma {:induction false} DeadFlagsLength(s: seq<Insn>, out: set<Flag>)
    ensures |DeadFlags(s, out).0| == |s|
    decreases |s|
  {
    if s != [] {
      DeadFlagsLength(s[1..], out);
    }
  }
}
