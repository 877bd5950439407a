/**
 * Rewriting a block one instruction at a time: an instruction may be exchanged for one that gives the
 * same outcome wherever the values before it are what they were defined to be, and a value nobody
 * reads may go.
 */
module IrRewrite {
  import opened Words
  import opened Ir
  import opened IrValues

  // ---- blocks by position ----

  /** The temps defined before position `j`. */
  function Upto(s: seq<Insn>, j: nat): set<nat>
    requires j <= |s|
  {
    if j == 0 then {} else Upto(s, j - 1) + Defines(s[j - 1])
  }

  predicate PlaceOk(s: seq<Insn>, j: nat)
    requires j < |s|
  {
    !s[j].dead ==> InsnOk(s[j], Upto(s, j)) && (s[j].op.Exit? ==> j == |s| - 1)
  }

  predicate WellBuilt(s: seq<Insn>) {
    forall j :: 0 <= j < |s| ==> PlaceOk(s, j)
  }

  lemma {:induction false} BuiltFrom(s: seq<Insn>, j: nat)
    requires j <= |s| && WellBuilt(s)
    ensures Built(s[j..], Upto(s, j))
    decreases |s| - j
  {
    if j < |s| {
      BuiltFrom(s, j + 1);
      assert PlaceOk(s, j);
      assert s[j..][1..] == s[j + 1..];
    }
  }

  lemma {:induction false} BuiltAt(s: seq<Insn>, j: nat)
    requires j <= |s| && Built(s, {})
    ensures Built(s[j..], Upto(s, j))
  {
    if j == 0 {
      assert s[0..] == s;
    } else {
      BuiltAt(s, j - 1);
      assert s[j - 1..][1..] == s[j..];
    }
  }

  /** A block built from the front is well built at every place, and the other way round. */
  lemma BuiltIsWellBuilt(s: seq<Insn>)
    ensures Built(s, {}) <==> WellBuilt(s)
  {
    if Built(s, {}) {
      forall j | 0 <= j < |s|
        ensures PlaceOk(s, j)
      {
        BuiltAt(s, j);
      }
    }
    if WellBuilt(s) {
      BuiltFrom(s, 0);
      assert s[0..] == s;
    }
  }

  lemma {:induction false} UptoGrows(s: seq<Insn>, i: nat, j: nat)
    requires i <= j <= |s|
    ensures Upto(s, i) <= Upto(s, j)
    decreases j
  {
    if i < j {
      UptoGrows(s, i, j - 1);
    }
  }

  lemma UptoHas(s: seq<Insn>, d: nat, j: nat)
    requires d < j <= |s| && !s[d].dead && s[d].dst != NONE
    ensures s[d].dst in Upto(s, j)
  {
    assert Defines(s[d]) == {s[d].dst};
    UptoGrows(s, d + 1, j);
  }

  /** Each temp has one definition. */
  lemma OneDefinition(s: seq<Insn>, d: nat, e: nat)
    requires WellBuilt(s) && d < |s| && e < |s| && !s[d].dead && !s[e].dead && s[d].dst == s[e].dst != NONE
    ensures d == e
  {
    assert PlaceOk(s, d) && PlaceOk(s, e);
    if d < e {
      UptoHas(s, d, e);
    } else if e < d {
      UptoHas(s, e, d);
    }
  }

  // ---- readers ----

  function Is(k: nat, j: nat): nat {
    if k == j then 1 else 0
  }

  /** How many of an instruction's operands are `k`. */
  function Reads(x: Insn, k: nat): nat {
    if x.dead then 0 else Is(x.a, k) + Is(x.b, k) + Is(x.c, k)
  }

  function Count(s: seq<Insn>, k: nat): nat {
    if s == [] then 0 else Count(s[..|s| - 1], k) + Reads(s[|s| - 1], k)
  }

  lemma {:induction false} CountSet(s: seq<Insn>, i: nat, y: Insn, k: nat)
    requires i < |s|
    ensures Count(s[i := y], k) + Reads(s[i], k) == Count(s, k) + Reads(y, k)
  {
    var n := |s| - 1;
    if i < n {
      assert s[i := y][..n] == s[..n][i := y];
      CountSet(s[..n], i, y, k);
    } else {
      assert s[i := y][..n] == s[..n];
    }
  }

  lemma {:induction false} CountNone(s: seq<Insn>, k: nat, i: nat)
    requires Count(s, k) == 0 && i < |s|
    ensures Reads(s[i], k) == 0
  {
    if i < |s| - 1 {
      CountNone(s[..|s| - 1], k, i);
    }
  }

  // ---- removing a value nobody reads ----

  ghost predicate AgreeBut(p: Temps, q: Temps, k: nat) {
    forall j :: j != k ==> Arg(p, j) == Arg(q, j)
  }

  lemma BindBut(p: Temps, q: Temps, k: nat, x: Insn, v: u32)
    requires AgreeBut(p, q, k)
    ensures AgreeBut(Bind(p, x, v), Bind(q, x, v), k)
  {
    forall j | j != k
      ensures Arg(Bind(p, x, v), j) == Arg(Bind(q, x, v), j)
    {
      assert Arg(p, j) == Arg(q, j);
    }
  }

  lemma {:induction false} UnreadExec<W>(t: Target<W>, s: seq<Insn>, k: nat, g: Guest<W>, n: nat, p: Temps, q: Temps)
    requires k != NONE && (forall i :: 0 <= i < |s| ==> Reads(s[i], k) == 0)
    requires AgreeBut(p, q, k)
    ensures Exec(t, s, g, n, p) == Exec(t, s, g, n, q)
    decreases |s|
  {
    if s != [] {
      var x := s[0];
      assert s == [x] + s[1..];
      ExecCons(t, x, s[1..], g, n, p);
      ExecCons(t, x, s[1..], g, n, q);
      assert forall i :: 0 <= i < |s[1..]| ==> s[1..][i] == s[i + 1];
      hide Perform, Exec;
      if x.dead {
        UnreadExec(t, s[1..], k, g, n, p, q);
      } else {
        assert Reads(x, k) == 0;
        PerformAgrees(t, x, g, n, p, q);
        var out := Perform(t, x, g, n, p);
        if out.Next? {
          BindBut(p, q, k, x, out.value);
          UnreadExec(t, s[1..], k, out.guest, out.retired, Bind(p, x, out.value), Bind(q, x, out.value));
        }
      }
    }
  }

  lemma {:induction false} KillExec<W>(t: Target<W>, s: seq<Insn>, d: nat, g: Guest<W>, n: nat, tmp: Temps)
    requires d < |s| && !s[d].dead && IsPure(s[d].op) && s[d].dst != NONE
    requires forall i :: d < i < |s| ==> Reads(s[i], s[d].dst) == 0
    ensures Exec(t, s, g, n, tmp) == Exec(t, s[d := s[d].(dead := true)], g, n, tmp)
    decreases d
  {
    var x, r := s[0], s[d := s[d].(dead := true)];
    assert s == [x] + s[1..] && r == [r[0]] + r[1..];
    ExecCons(t, x, s[1..], g, n, tmp);
    ExecCons(t, r[0], r[1..], g, n, tmp);
    if d == 0 {
      PerformPure(t, x, g, n, tmp);
      var v := Perform(t, x, g, n, tmp).value;
      assert r[1..] == s[1..];
      forall i | 0 <= i < |s[1..]|
        ensures Reads(s[1..][i], x.dst) == 0
      {
        assert s[1..][i] == s[i + 1];
      }
      UnreadExec(t, s[1..], x.dst, g, n, Bind(tmp, x, v), tmp);
    } else {
      assert r[1..] == s[1..][d - 1 := s[d].(dead := true)];
      assert forall i :: 0 <= i < |s[1..]| ==> s[1..][i] == s[i + 1];
      hide Perform, Exec;
      if x.dead {
        KillExec(t, s[1..], d - 1, g, n, tmp);
      } else {
        var out := Perform(t, x, g, n, tmp);
        if out.Next? {
          KillExec(t, s[1..], d - 1, out.guest, out.retired, Bind(tmp, x, out.value));
        }
      }
    }
  }

  function Killed(s: seq<Insn>, d: nat): seq<Insn>
    requires d < |s|
  {
    s[d := s[d].(dead := true)]
  }

  lemma KillSame<W(!new)>(t: Target<W>, s: seq<Insn>, d: nat)
    requires d < |s| && !s[d].dead && IsPure(s[d].op) && s[d].dst != NONE && Count(s, s[d].dst) == 0
    ensures Same(t, s, Killed(s, d))
  {
    forall i | d < i < |s|
      ensures Reads(s[i], s[d].dst) == 0
    {
      CountNone(s, s[d].dst, i);
    }
    forall g, n, tmp
      ensures Exec(t, s, g, n, tmp) == Exec(t, Killed(s, d), g, n, tmp)
    {
      KillExec(t, s, d, g, n, tmp);
    }
  }

  /** Nothing else goes wrong: what is left is well built. */
  lemma KillWellBuilt(s: seq<Insn>, d: nat)
    requires WellBuilt(s) && d < |s| && !s[d].dead && s[d].dst != NONE && Count(s, s[d].dst) == 0
    ensures WellBuilt(Killed(s, d))
  {
    var r, k := Killed(s, d), s[d].dst;
    forall j | 0 <= j < |r|
      ensures PlaceOk(r, j)
    {
      assert PlaceOk(s, j);
      UptoKilled(s, d, j);
      CountNone(s, k, j);
      assert !r[j].dead ==> r[j] == s[j];
    }
  }

  lemma {:induction false} UptoKilled(s: seq<Insn>, d: nat, j: nat)
    requires d < |s| && j <= |s| && !s[d].dead
    ensures Upto(s, j) - {s[d].dst} <= Upto(Killed(s, d), j) <= Upto(s, j)
  {
    if j > 0 {
      UptoKilled(s, d, j - 1);
    }
  }

  // ---- exchanging an instruction ----

  function ArithOf<W>(t: Target<W>, x: Insn, tmp: Temps): u32
    requires IsArith(x.op)
  {
    Arith(t, x.op, x.aux, x.imm, Arg(tmp, x.a), Arg(tmp, x.b), Arg(tmp, x.c))
  }

  /** A temp still holds what its definition says. */
  predicate Holds<W>(t: Target<W>, x: Insn, tmp: Temps) {
    !x.dead && x.dst != NONE && IsArith(x.op) ==> Arg(tmp, x.dst) == ArithOf(t, x, tmp)
  }

  predicate Facts<W>(t: Target<W>, s: seq<Insn>, j: nat, tmp: Temps)
    requires j <= |s|
  {
    forall d :: 0 <= d < j ==> Holds(t, s[d], tmp)
  }

  lemma BindOther(tmp: Temps, x: Insn, v: u32, k: nat)
    requires k != x.dst
    ensures Arg(Bind(tmp, x, v), k) == Arg(tmp, k)
  {
  }

  lemma HoldsAfter<W>(t: Target<W>, y: Insn, tmp: Temps, x: Insn, v: u32)
    requires Holds(t, y, tmp) && (x.dst != NONE ==> x.dst != y.dst && x.dst != y.a && x.dst != y.b && x.dst != y.c)
    ensures Holds(t, y, Bind(tmp, x, v))
  {
    if x.dst != NONE {
      BindOther(tmp, x, v, y.dst);
      BindOther(tmp, x, v, y.a);
      BindOther(tmp, x, v, y.b);
      BindOther(tmp, x, v, y.c);
    }
    hide Arith, Arg, Bind;
  }

  /** A step keeps every fact and adds its own: temps are written once, and after what they are made of. */
  lemma FactsStep<W>(t: Target<W>, s: seq<Insn>, j: nat, tmp: Temps, v: u32)
    requires WellBuilt(s) && j < |s| && !s[j].dead && Facts(t, s, j, tmp)
    requires IsArith(s[j].op) ==> v == ArithOf(t, s[j], tmp)
    ensures Facts(t, s, j + 1, Bind(tmp, s[j], v))
  {
    var x := s[j];
    assert PlaceOk(s, j);
    forall d | 0 <= d < j + 1
      ensures Holds(t, s[d], Bind(tmp, x, v))
    {
      if d < j {
        if !s[d].dead && s[d].dst != NONE {
          assert PlaceOk(s, d);
          UptoHas(s, d, j);
          UptoGrows(s, d, j);
          hide Arith;
          HoldsAfter(t, s[d], tmp, x, v);
        }
      } else if x.dst != NONE {
        hide Arith;
        BindOther(tmp, x, v, x.a);
        BindOther(tmp, x, v, x.b);
        BindOther(tmp, x, v, x.c);
      }
    }
  }

  /** Wherever the values before it are what they were defined to be, `y` gives the outcome of instruction `i`. */
  ghost predicate Exchange<W(!new)>(t: Target<W>, s: seq<Insn>, i: nat, y: Insn)
    requires i < |s|
  {
    forall g, n, tmp :: Facts(t, s, i, tmp) ==> Perform(t, s[i], g, n, tmp) == Perform(t, y, g, n, tmp)
  }

  lemma {:induction false} ReplaceExec<W(!new)>(t: Target<W>, s: seq<Insn>, i: nat, y: Insn, j: nat, g: Guest<W>,
                                                n: nat, tmp: Temps)
    requires WellBuilt(s) && j <= i < |s| && !s[i].dead && !y.dead && y.dst == s[i].dst
    requires Exchange(t, s, i, y) && Facts(t, s, j, tmp)
    ensures Exec(t, s[j..], g, n, tmp) == Exec(t, s[i := y][j..], g, n, tmp)
    decreases i - j
  {
    var x, r := s[j], s[i := y];
    assert s[j..] == [x] + s[j + 1..] && r[j..] == [r[j]] + r[j + 1..];
    ExecCons(t, x, s[j + 1..], g, n, tmp);
    ExecCons(t, r[j], r[j + 1..], g, n, tmp);
    if j == i {
      assert r[j + 1..] == s[j + 1..];
      assert Perform(t, s[i], g, n, tmp) == Perform(t, y, g, n, tmp);
      hide Perform, Exec;
    } else if x.dead {
      assert Facts(t, s, j + 1, tmp);
      ReplaceExec(t, s, i, y, j + 1, g, n, tmp);
    } else {
      PerformArith(t, x, g, n, tmp);
      hide Perform, Exec, ArithOf;
      var out := Perform(t, x, g, n, tmp);
      if out.Next? {
        FactsStep(t, s, j, tmp, out.value);
        ReplaceExec(t, s, i, y, j + 1, out.guest, out.retired, Bind(tmp, x, out.value));
      }
    }
  }

  lemma PerformArith<W>(t: Target<W>, x: Insn, g: Guest<W>, n: nat, tmp: Temps)
    ensures IsArith(x.op) ==> Perform(t, x, g, n, tmp) == Next(g, n, ArithOf(t, x, tmp))
  {
    hide Arith, Observe, Change, Arg;
  }

  /** Such an exchange preserves meaning. */
  lemma ReplaceSame<W(!new)>(t: Target<W>, s: seq<Insn>, i: nat, y: Insn)
    requires WellBuilt(s) && i < |s| && !s[i].dead && !y.dead && y.dst == s[i].dst && Exchange(t, s, i, y)
    ensures Same(t, s, s[i := y])
  {
    forall g, n, tmp
      ensures Exec(t, s, g, n, tmp) == Exec(t, s[i := y], g, n, tmp)
    {
      ReplaceExec(t, s, i, y, 0, g, n, tmp);
      assert s[0..] == s && s[i := y][0..] == s[i := y];
    }
  }

  lemma {:induction false} UptoSet(s: seq<Insn>, i: nat, y: Insn, j: nat)
    requires i < |s| && j <= |s| && !s[i].dead && !y.dead && y.dst == s[i].dst
    ensures Upto(s[i := y], j) == Upto(s, j)
  {
    if j > 0 {
      UptoSet(s, i, y, j - 1);
    }
  }

  lemma ReplaceWellBuilt(s: seq<Insn>, i: nat, y: Insn)
    requires WellBuilt(s) && i < |s| && !s[i].dead && !y.dead && y.dst == s[i].dst
    requires InsnOk(y, Upto(s, i)) && (y.op.Exit? ==> s[i].op.Exit?)
    ensures WellBuilt(s[i := y])
  {
    var r := s[i := y];
    forall j | 0 <= j < |r|
      ensures PlaceOk(r, j)
    {
      assert PlaceOk(s, j);
      UptoSet(s, i, y, j);
    }
  }

  // ---- two instructions into one ----

  lemma {:induction false} ReadsCounted(s: seq<Insn>, i: nat, k: nat)
    requires i < |s|
    ensures Reads(s[i], k) <= Count(s, k)
  {
    if i < |s| - 1 {
      ReadsCounted(s[..|s| - 1], i, k);
    }
  }

  /** Instruction `i` as `y`, and the value at `d` it no longer needs gone. */
  function Absorbed(s: seq<Insn>, i: nat, y: Insn, d: nat): (r: seq<Insn>)
    requires d < |s| && i < |s|
    ensures |r| == |s|
  {
    Killed(s[i := y], d)
  }

  /**
   * What makes that right: `i` was the value's only reader, `y` does not read it and reads nothing
   * else that neither of them read.
   */
  predicate Absorbs(s: seq<Insn>, i: nat, y: Insn, d: nat) {
    && d < i < |s| && !s[i].dead && !y.dead && y.dst == s[i].dst && InsnOk(y, Upto(s, i)) && !y.op.Exit?
    && !s[d].dead && IsPure(s[d].op) && s[d].dst != NONE
    && Count(s, s[d].dst) <= 1 <= Reads(s[i], s[d].dst) && Reads(y, s[d].dst) == 0
  }

  ghost predicate NoNewReads(s: seq<Insn>, i: nat, y: Insn, d: nat)
    requires d < |s| && i < |s|
  {
    forall k :: k != NONE ==> Reads(y, k) <= Reads(s[i], k) + Reads(s[d], k)
  }

  lemma AbsorbedCount(s: seq<Insn>, i: nat, y: Insn, d: nat, k: nat)
    requires Absorbs(s, i, y, d) && NoNewReads(s, i, y, d) && k != NONE
    ensures Count(Absorbed(s, i, y, d), k) <= Count(s, k)
    ensures Count(s[i := y], s[d].dst) == 0 == Count(Absorbed(s, i, y, d), s[d].dst)
  {
    CountSet(s, i, y, k);
    CountSet(s[i := y], d, s[d].(dead := true), k);
    CountSet(s, i, y, s[d].dst);
    CountSet(s[i := y], d, s[d].(dead := true), s[d].dst);
    ReadsCounted(s, i, s[d].dst);
    ReadsCounted(s, i, k);
  }

  lemma AbsorbSame<W(!new)>(t: Target<W>, s: seq<Insn>, i: nat, y: Insn, d: nat)
    requires WellBuilt(s) && Absorbs(s, i, y, d) && NoNewReads(s, i, y, d) && Exchange(t, s, i, y)
    ensures Same(t, s, Absorbed(s, i, y, d)) && WellBuilt(Absorbed(s, i, y, d))
  {
    hide Exchange, InsnOk, Same, WellBuilt, IsPure;
    AbsorbedCount(s, i, y, d, 0);
    ReplaceSame(t, s, i, y);
    ReplaceWellBuilt(s, i, y);
    KillSame(t, s[i := y], d);
    KillWellBuilt(s[i := y], d);
    SameTrans(t, s, s[i := y], Absorbed(s, i, y, d));
  }

  lemma {:induction false} Definer(s: seq<Insn>, j: nat, k: nat) returns (d: nat)
    requires j <= |s| && k in Upto(s, j)
    ensures d < j && !s[d].dead && s[d].dst == k && k != NONE
  {
    if k in Upto(s, j - 1) {
      d := Definer(s, j - 1, k);
    } else {
      d := j - 1;
    }
  }

  // ---- what the host can lower ----

  /**
   * An instruction before some pass and after: not brought back to life, and if alive the operation it was,
   * a move, a constant, or one the host says it can lower.
   */
  predicate LowerOk(can: (Op, nat) -> bool, x: Insn, y: Insn) {
    && (x.dead ==> y.dead)
    && (y.dead || (y.op == x.op && y.aux == x.aux) || y.op.Mov? || y.op.Const? || can(y.op, y.aux))
  }

  ghost predicate Lowers(can: (Op, nat) -> bool, s: seq<Insn>, r: seq<Insn>) {
    |s| == |r| && forall i :: 0 <= i < |s| ==> LowerOk(can, s[i], r[i])
  }

  lemma LowersSelf(can: (Op, nat) -> bool, s: seq<Insn>)
    ensures Lowers(can, s, s)
  {
  }

  lemma LowersTrans(can: (Op, nat) -> bool, s: seq<Insn>, r: seq<Insn>, q: seq<Insn>)
    requires Lowers(can, s, r) && Lowers(can, r, q)
    ensures Lowers(can, s, q)
  {
    forall i | 0 <= i < |s|
      ensures LowerOk(can, s[i], q[i])
    {
      assert LowerOk(can, s[i], r[i]) && LowerOk(can, r[i], q[i]);
    }
  }
}
