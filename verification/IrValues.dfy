/** Dead values: an operation that is nothing but its result goes when nothing reads the result. */
module IrValues {
  import opened Words
  import opened Ir

  function Temp(k: nat): set<nat> {
    if k == NONE then {} else {k}
  }

  function Operands(x: Insn): set<nat> {
    Temp(x.a) + Temp(x.b) + Temp(x.c)
  }

  predicate AgreeOn(p: Temps, q: Temps, ks: set<nat>) {
    forall k :: k in ks ==> Arg(p, k) == Arg(q, k)
  }

  /** An instruction does the same from temps that agree on its operands. */
  lemma PerformAgrees<W>(t: Target<W>, x: Insn, g: Guest<W>, n: nat, p: Temps, q: Temps)
    requires AgreeOn(p, q, Operands(x))
    ensures Perform(t, x, g, n, p) == Perform(t, x, g, n, q)
  {
    assert x.a != NONE ==> x.a in Operands(x);
    assert x.b != NONE ==> x.b in Operands(x);
    assert x.c != NONE ==> x.c in Operands(x);
    assert Arg(p, x.a) == Arg(q, x.a) && Arg(p, x.b) == Arg(q, x.b) && Arg(p, x.c) == Arg(q, x.c);
    hide Act;
  }

  lemma PerformPure<W>(t: Target<W>, x: Insn, g: Guest<W>, n: nat, tmp: Temps)
    requires IsPure(x.op)
    ensures var a, b, c := Arg(tmp, x.a), Arg(tmp, x.b), Arg(tmp, x.c);
            Perform(t, x, g, n, tmp) == Next(g, n, Value(t, x.op, x.aux, x.imm, a, b, c, g))
  {
    hide Value, Observe, Change, Arg;
  }

  lemma BindAgrees(p: Temps, q: Temps, x: Insn, v: u32, ks: set<nat>)
    requires AgreeOn(p, q, ks)
    ensures AgreeOn(Bind(p, x, v), Bind(q, x, v), ks)
    ensures x.dst !in ks ==> AgreeOn(Bind(p, x, v), q, ks)
  {
  }

  // ---- the pass ----

  /** One instruction of the backward walk, with the temps read after it. */
  function KeptValue(x: Insn, used: set<nat>): (Insn, set<nat>) {
    if x.dead then (x, used)
    else if IsPure(x.op) && x.dst != NONE && x.dst !in used then (x.(dead := true), used)
    else (x, used + Operands(x))
  }

  function DeadValues(s: seq<Insn>): (seq<Insn>, set<nat>) {
    if s == [] then ([], {}) else
      var rest := DeadValues(s[1..]);
      var x := KeptValue(s[0], rest.1);
      ([x.0] + rest.0, x.1)
  }

  lemma {:induction false} DeadValuesSim<W>(t: Target<W>, s: seq<Insn>, g: Guest<W>, n: nat, p: Temps, q: Temps)
    requires AgreeOn(p, q, DeadValues(s).1)
    ensures Exec(t, s, g, n, p) == Exec(t, DeadValues(s).0, g, n, q)
    decreases |s|
  {
    if s != [] {
      var x, rest := s[0], DeadValues(s[1..]);
      var y := KeptValue(x, rest.1);
      assert s == [x] + s[1..];
      assert DeadValues(s) == ([y.0] + rest.0, y.1);
      ExecCons(t, x, s[1..], g, n, p);
      ExecCons(t, y.0, rest.0, g, n, q);
      assert AgreeOn(p, q, rest.1);
      hide Perform, Exec, DeadValues;
      if x.dead {
        DeadValuesSim(t, s[1..], g, n, p, q);
      } else if y.0.dead {
        PerformPure(t, x, g, n, p);
        var out := Perform(t, x, g, n, p);
        BindAgrees(p, q, x, out.value, rest.1);
        DeadValuesSim(t, s[1..], g, n, Bind(p, x, out.value), q);
      } else {
        PerformAgrees(t, x, g, n, p, q);
        var out := Perform(t, x, g, n, p);
        if out.Next? {
          BindAgrees(p, q, x, out.value, rest.1);
          DeadValuesSim(t, s[1..], out.guest, out.retired, Bind(p, x, out.value), Bind(q, x, out.value));
        }
      }
    }
  }

  /** The pass preserves meaning. */
  lemma DeadValuesSame<W(!new)>(t: Target<W>, s: seq<Insn>)
    ensures Same(t, s, DeadValues(s).0)
  {
    forall g, n, tmp
      ensures Exec(t, s, g, n, tmp) == Exec(t, DeadValues(s).0, g, n, tmp)
    {
      DeadValuesSim(t, s, g, n, tmp, tmp);
    }
  }

  /** What is left is as the builder makes blocks: nothing reads a value that went. */
  lemma {:induction false} DeadValuesBuilt(s: seq<Insn>, defined: set<nat>, left: set<nat>)
    requires Built(s, defined) && left <= defined && DeadValues(s).1 * defined <= left
    ensures Built(DeadValues(s).0, left) && SameFrame(s, DeadValues(s).0)
    decreases |s|
  {
    if s != [] {
      var x, rest := s[0], DeadValues(s[1..]);
      var y := KeptValue(x, rest.1);
      assert s == [x] + s[1..] && DeadValues(s) == ([y.0] + rest.0, y.1) && ([y.0] + rest.0)[1..] == rest.0;
      assert rest.1 * (defined + Defines(x)) <= left + Defines(y.0);
      DeadValuesBuilt(s[1..], defined + Defines(x), left + Defines(y.0));
      SameFrameCons(x, y.0, s[1..], rest.0);
      if !y.0.dead {
        assert Operands(x) <= y.1;
        KnownLeft(x.a, x, y.1, defined, left);
        KnownLeft(x.b, x, y.1, defined, left);
        KnownLeft(x.c, x, y.1, defined, left);
      }
      hide KeptValue, DeadValues;
    }
  }

  lemma KnownLeft(k: nat, x: Insn, used: set<nat>, defined: set<nat>, left: set<nat>)
    requires Known(k, defined) && (k == x.a || k == x.b || k == x.c) && Operands(x) <= used && used * defined <= left
    ensures Known(k, left)
  {
    if k != NONE {
      assert k in Operands(x);
      assert k in used * defined;
    }
  }

  /** One instruction of the walk. */
  method KeepOrKill(x: Insn, used: set<nat>) returns (y: Insn, more: set<nat>)
    ensures (y, more) == KeptValue(x, used)
  {
    y, more := x, used;
    if !x.dead {
      if IsPure(x.op) && x.dst != NONE && x.dst !in used {
        y := x.(dead := true);
      } else {
        if x.a != NONE {
          more := more + {x.a};
        }
        if x.b != NONE {
          more := more + {x.b};
        }
        if x.c != NONE {
          more := more + {x.c};
        }
        assert more == used + Operands(x);
      }
    }
  }

  method PassDeadValues(b: array<Insn>)
    modifies b
    ensures b[..] == DeadValues(old(b[..])).0
  {
    var used: set<nat> := {};
    var i := b.Length;
    while i > 0
      invariant 0 <= i <= b.Length && b[..i] == old(b[..i])
      invariant (b[i..], used) == DeadValues(old(b[i..]))
    {
      hide KeptValue;
      i := i - 1;
      assert old(b[i..])[1..] == old(b[i + 1..]);
      var x;
      x, used := KeepOrKill(b[i], used);
      b[i] := x;
      assert b[i..] == [x] + b[i + 1..];
    }
    assert b[0..] == b[..] && old(b[0..]) == old(b[..]);
  }

  // ---- exactly which values go ----

  /** Some live instruction reads `k`. */
  ghost predicate ReadIn(s: seq<Insn>, k: nat) {
    exists j :: 0 <= j < |s| && !s[j].dead && k in Operands(s[j])
  }

  lemma ReadCons(x: Insn, rest: seq<Insn>, k: nat)
    ensures ReadIn([x] + rest, k) <==> (!x.dead && k in Operands(x)) || ReadIn(rest, k)
  {
    var s := [x] + rest;
    assert s[0] == x && forall j :: 0 <= j < |rest| ==> s[j + 1] == rest[j];
    if j :| 0 <= j < |rest| && !rest[j].dead && k in Operands(rest[j]) {
      assert s[j + 1] == rest[j];
    }
    if j :| 0 < j < |s| && !s[j].dead && k in Operands(s[j]) {
      assert s[j] == rest[j - 1];
    }
  }

  lemma {:induction false} UsedIsRead(s: seq<Insn>, k: nat)
    ensures k in DeadValues(s).1 <==> ReadIn(DeadValues(s).0, k)
    decreases |s|
  {
    if s != [] {
      var rest := DeadValues(s[1..]);
      var x := KeptValue(s[0], rest.1);
      UsedIsRead(s[1..], k);
      ReadCons(x.0, rest.0, k);
      hide ReadIn;
    }
  }

  /** A value dies exactly when it has no effect and nothing that is left reads it. */
  lemma {:induction false} DeadValuesExact(s: seq<Insn>, i: nat)
    requires i < |s|
    ensures |DeadValues(s).0| == |s|
    ensures var x, r := s[i], DeadValues(s).0;
            && r[i] == x.(dead := r[i].dead)
            && (r[i].dead <==> x.dead || (IsPure(x.op) && x.dst != NONE && !ReadIn(r[i + 1..], x.dst)))
    decreases |s|
  {
    var rest := DeadValues(s[1..]);
    DeadValuesLength(s[1..]);
    assert DeadValues(s).0[1..] == rest.0;
    if i == 0 {
      UsedIsRead(s[1..], s[0].dst);
      hide ReadIn;
    } else {
      DeadValuesExact(s[1..], i - 1);
      assert rest.0[i..] == DeadValues(s).0[i + 1..];
      hide ReadIn, KeptValue;
    }
  }

  lemma {:induction false} DeadValuesLength(s: seq<Insn>)
    ensures |DeadValues(s).0| == |s|
    decreases |s|
  {
    if s != [] {
      DeadValuesLength(s[1..]);
    }
  }
}
