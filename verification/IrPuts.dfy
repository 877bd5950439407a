/**
 * Dead register writes: of two writes to one register, or to the pc, the first goes if control stays
 * in the block from one to the other. That no read comes between is left to the forwarding pass.
 */
module IrPuts {
  import opened Words
  import opened Ir
  import opened IrValues
  import opened IrTraffic

  /** Looking back from a place: the registers written again, and whether the pc is, before anything observes them. */
  datatype Ahead = Ahead(seen: set<u32>, pc: bool)

  predicate IsPc<W>(t: Target<W>, n: u32) {
    t.pcReg == Some(n)
  }

  function AheadOf<W>(t: Target<W>, x: Insn, k: Ahead): Ahead {
    if x.dead then k
    else if x.op.Put? then if x.imm < TRACKED then k.(seen := k.seen + {x.imm}) else k
    else if x.op.SetPc? then k.(pc := true)
    else if x.op.Get? then if IsPc(t, x.imm) then k.(pc := false) else k
    else if x.op.Exit? then Ahead({}, true)
    else if x.op.ExitIf? then Ahead({}, k.pc)
    else if Observes(x.op) then Ahead({}, false)
    else k
  }

  function KeptPut(x: Insn, k: Ahead): Insn {
    if x.dead then x
    else if x.op.Put? && x.imm < TRACKED && x.imm in k.seen then x.(dead := true)
    else if x.op.SetPc? && k.pc then x.(dead := true)
    else x
  }

  function DeadPuts<W>(t: Target<W>, s: seq<Insn>): (seq<Insn>, Ahead) {
    if s == [] then ([], Ahead({}, false)) else
      var rest := DeadPuts(t, s[1..]);
      ([KeptPut(s[0], rest.1)] + rest.0, AheadOf(t, s[0], rest.1))
  }

  // ---- two runs, one of which has skipped some writes ----

  /** The registers, and whether the pc, whose last write was skipped. */
  datatype Debt = Debt(regs: set<u32>, pc: bool)

  function PcSet<W>(t: Target<W>): set<u32> {
    if t.pcReg.Some? then {t.pcReg.value} else {}
  }

  ghost predicate RegsAgree(p: map<u32, u32>, q: map<u32, u32>, but: set<u32>) {
    forall r: u32 :: r !in but ==> (r in p <==> r in q) && (r in p ==> p[r] == q[r])
  }

  predicate OwesPc<W>(t: Target<W>, d: Debt) {
    d.pc || (t.pcReg.Some? && t.pcReg.value in d.regs)
  }

  ghost predicate Agree<W>(t: Target<W>, g: Guest<W>, h: Guest<W>, d: Debt) {
    && h.flags == g.flags && h.rest == g.rest && RegsAgree(g.regs, h.regs, d.regs - PcSet(t))
    && (!OwesPc(t, d) ==> h.pc == g.pc)
  }

  /** A debt that will be paid: every register in it is written again first, and is not read before. */
  predicate Payable<W>(t: Target<W>, d: Debt, k: Ahead, puts: set<u32>) {
    && d.regs <= k.seen && d.regs <= puts && (d.pc ==> k.pc)
    && forall r :: r in d.regs ==> Tracked(t, r)
  }

  function DebtAfter<W>(t: Target<W>, x: Insn, skipped: bool, d: Debt): Debt {
    if x.op.Put? then
      if t.zero(x.imm) then d
      else if skipped then d.(regs := d.regs + {x.imm})
      else Debt(d.regs - {x.imm}, d.pc && !IsPc(t, x.imm))
    else if x.op.SetPc? then Debt(d.regs - PcSet(t), skipped)
    else d
  }

  lemma NoDebt<W>(t: Target<W>, g: Guest<W>, h: Guest<W>, d: Debt)
    requires Agree(t, g, h, d) && d.regs == {}
    ensures h == g.(pc := h.pc) && (!d.pc ==> h == g)
  {
    assert d.regs - PcSet(t) == {};
    assert forall r: u32 :: (r in h.regs <==> r in g.regs) && (r in h.regs ==> h.regs[r] == g.regs[r]);
    assert h.regs == g.regs;
  }

  lemma PayableStep<W>(t: Target<W>, x: Insn, k: Ahead, d: Debt, puts: set<u32>)
    requires !x.dead && !x.op.Exit? && Payable(t, d, AheadOf(t, x, k), puts)
    ensures Payable(t, DebtAfter(t, x, KeptPut(x, k).dead, d), k, PutsAfter(t, x, puts))
  {
  }

  /** The outcome of one instruction in both runs. */
  ghost predicate InStep<W>(t: Target<W>, p: Outcome<W>, q: Outcome<W>, d: Debt) {
    if p.Stop? then q == p
    else q.Next? && q.retired == p.retired && q.value == p.value && Agree(t, p.guest, q.guest, d)
  }

  lemma WriteAgrees<W>(t: Target<W>, g: Guest<W>, h: Guest<W>, d: Debt, x: Insn, v: u32, skipped: bool)
    requires Agree(t, g, h, d) && x.op.Put?
    ensures Agree(t, WriteReg(t, g, x.imm, v), if skipped then h else WriteReg(t, h, x.imm, v),
                  DebtAfter(t, x, skipped, d))
  {
  }

  lemma PutSim<W>(t: Target<W>, x: Insn, skipped: bool, g: Guest<W>, h: Guest<W>, d: Debt, n: nat, tmp: Temps)
    requires Agree(t, g, h, d) && (x.op.Put? || x.op.SetPc?)
    ensures var p := Perform(t, x, g, n, tmp);
            var after := DebtAfter(t, x, skipped, d);
            if skipped then p.Next? && p.retired == n && Agree(t, p.guest, h, after)
            else InStep(t, p, Perform(t, x, h, n, tmp), after)
  {
    PerformPut(t, x, g, n, tmp);
    PerformPut(t, x, h, n, tmp);
    hide Perform;
    if x.op.Put? {
      WriteAgrees(t, g, h, d, x, Arg(tmp, x.a), skipped);
      hide Agree, WriteReg, DebtAfter;
    }
  }

  lemma ReadAgrees<W>(t: Target<W>, g: Guest<W>, h: Guest<W>, d: Debt, m: u32)
    requires Agree(t, g, h, d) && m !in d.regs && (IsPc(t, m) ==> !d.pc)
    ensures ReadReg(t, h, m) == ReadReg(t, g, m)
  {
  }

  lemma PureSim<W>(t: Target<W>, x: Insn, g: Guest<W>, h: Guest<W>, d: Debt, n: nat, tmp: Temps)
    requires Agree(t, g, h, d) && IsPure(x.op)
    requires x.op.Get? ==> x.imm !in d.regs && (IsPc(t, x.imm) ==> !d.pc)
    ensures InStep(t, Perform(t, x, g, n, tmp), Perform(t, x, h, n, tmp), d)
  {
    PerformPure(t, x, g, n, tmp);
    PerformPure(t, x, h, n, tmp);
    if x.op.Get? {
      ReadAgrees(t, g, h, d, x.imm);
    }
    hide Perform, Arith, ReadReg, RegsAgree;
  }

  /** The other changes of guest state touch neither registers nor pc, nor look at them. */
  lemma ChangeSim<W>(t: Target<W>, x: Insn, g: Guest<W>, h: Guest<W>, d: Debt, n: nat, tmp: Temps)
    requires Agree(t, g, h, d) && !IsPure(x.op) && !Observes(x.op) && !x.op.Put? && !x.op.SetPc?
    ensures InStep(t, Perform(t, x, g, n, tmp), Perform(t, x, h, n, tmp), d)
  {
    hide Value, Observe, Arg, RegsAgree, SetFlags, RetireCount, IsPure;
  }

  lemma ObserverSim<W>(t: Target<W>, x: Insn, g: Guest<W>, h: Guest<W>, d: Debt, n: nat, tmp: Temps)
    requires Agree(t, g, h, d) && Observes(x.op) && d.regs == {} && (d.pc ==> x.op.Exit? || x.op.ExitIf?)
    ensures InStep(t, Perform(t, x, g, n, tmp), Perform(t, x, h, n, tmp), d)
  {
    NoDebt(t, g, h, d);
    if x.op.Exit? || x.op.ExitIf? {
      hide Value, Change, Arg;
    } else {
      assert g == h;
      AgreeSelf(t, Perform(t, x, g, n, tmp), d);
      hide Perform;
    }
  }

  lemma AgreeSelf<W>(t: Target<W>, p: Outcome<W>, d: Debt)
    ensures InStep(t, p, p, d)
  {
  }

  /** One instruction in both runs, whatever it is. */
  lemma StepSim<W>(t: Target<W>, x: Insn, k: Ahead, g: Guest<W>, h: Guest<W>, d: Debt, puts: set<u32>, n: nat,
                   tmp: Temps)
    requires !x.dead && Agree(t, g, h, d) && Payable(t, d, AheadOf(t, x, k), puts)
    requires x.op.Get? && Tracked(t, x.imm) ==> x.imm !in puts
    ensures var skipped := KeptPut(x, k).dead;
            var p := Perform(t, x, g, n, tmp);
            var after := DebtAfter(t, x, skipped, d);
            if skipped then p.Next? && p.retired == n && (x.op.Put? || x.op.SetPc?) && Agree(t, p.guest, h, after)
            else InStep(t, p, Perform(t, x, h, n, tmp), after)
  {
    hide Perform, Agree;
    if x.op.Put? || x.op.SetPc? {
      PutSim(t, x, KeptPut(x, k).dead, g, h, d, n, tmp);
    } else if IsPure(x.op) {
      PureSim(t, x, g, h, d, n, tmp);
    } else if Observes(x.op) {
      ObserverSim(t, x, g, h, d, n, tmp);
    } else {
      ChangeSim(t, x, g, h, d, n, tmp);
    }
  }

  /** With a payable debt between the guests, the block and what the walk makes of it end alike in everything. */
  lemma {:induction false} DeadPutsSim<W>(t: Target<W>, s: seq<Insn>, defined: set<nat>, g: Guest<W>, h: Guest<W>,
                                          d: Debt, puts: set<u32>, n: nat, tmp: Temps)
    requires Built(s, defined) && Forwarded(t, s, puts)
    requires Agree(t, g, h, d) && Payable(t, d, DeadPuts(t, s).1, puts)
    ensures Exec(t, s, g, n, tmp) == Exec(t, DeadPuts(t, s).0, h, n, tmp)
    decreases |s|
  {
    if s == [] {
      NoDebt(t, g, h, d);
    } else {
      var x, rest := s[0], DeadPuts(t, s[1..]);
      var y := KeptPut(x, rest.1);
      assert s == [x] + s[1..] && DeadPuts(t, s) == ([y] + rest.0, AheadOf(t, x, rest.1));
      assert !x.dead && !y.dead ==> y == x;
      ExecCons(t, x, s[1..], g, n, tmp);
      ExecCons(t, y, rest.0, h, n, tmp);
      hide Exec, Perform, DeadPuts, Agree;
      if x.dead {
        DeadPutsSim(t, s[1..], defined + Defines(x), g, h, d, puts, n, tmp);
      } else {
        StepSim(t, x, rest.1, g, h, d, puts, n, tmp);
        var p := Perform(t, x, g, n, tmp);
        if p.Next? {
          assert y.dead ==> x.dst == NONE;
          assert !x.op.Exit? by { ExitStops(t, x, g, n, tmp); }
          PayableStep(t, x, rest.1, d, puts);
          hide Payable, AheadOf, KeptPut, InsnOk, PutsAfter, DebtAfter;
          var next := if y.dead then h else Perform(t, x, h, n, tmp).guest;
          DeadPutsSim(t, s[1..], defined + Defines(x), p.guest, next, DebtAfter(t, x, y.dead, d),
                      PutsAfter(t, x, puts), p.retired, Bind(tmp, x, p.value));
        }
      }
    }
  }

  lemma ExitStops<W>(t: Target<W>, x: Insn, g: Guest<W>, n: nat, tmp: Temps)
    ensures x.op.Exit? ==> Perform(t, x, g, n, tmp).Stop?
  {
    hide Value, Change, Arg;
  }

  /** The pass preserves meaning in a block whose reads have been forwarded. */
  lemma DeadPutsSame<W(!new)>(t: Target<W>, s: seq<Insn>)
    requires Built(s, {}) && Forwarded(t, s, {})
    ensures Same(t, s, DeadPuts(t, s).0)
  {
    forall g, n, tmp
      ensures Exec(t, s, g, n, tmp) == Exec(t, DeadPuts(t, s).0, g, n, tmp)
    {
      DeadPutsSim(t, s, {}, g, g, Debt({}, false), {}, n, tmp);
    }
  }

  /** The block stays as the builder makes them: the writes that went define no temp. */
  lemma {:induction false} DeadPutsBuilt<W>(t: Target<W>, s: seq<Insn>, defined: set<nat>)
    requires Built(s, defined)
    ensures Built(DeadPuts(t, s).0, defined) && SameFrame(s, DeadPuts(t, s).0)
    decreases |s|
  {
    if s != [] {
      var x, rest := s[0], DeadPuts(t, s[1..]);
      var y := KeptPut(x, rest.1);
      DeadPutsBuilt(t, s[1..], defined + Defines(x));
      assert ([y] + rest.0)[1..] == rest.0;
      assert Defines(y) == Defines(x);
      SameFrameCons(x, y, s[1..], rest.0);
      assert s == [x] + s[1..];
    }
  }

  method PassDeadPuts<W>(b: array<Insn>, t: Target<W>)
    modifies b
    ensures b[..] == DeadPuts(t, old(b[..])).0
  {
    var seen: set<u32>, pcRewritten := {}, false;
    var i := b.Length;
    while i > 0
      invariant 0 <= i <= b.Length && b[..i] == old(b[..i])
      invariant (b[i..], Ahead(seen, pcRewritten)) == DeadPuts(t, old(b[i..]))
    {
      i := i - 1;
      assert old(b[i..])[1..] == old(b[i + 1..]);
      ghost var k := Ahead(seen, pcRewritten);
      var x := b[i];
      if !x.dead {
        if x.op.Put? {
          if x.imm < TRACKED {
            if x.imm in seen {
              x := x.(dead := true);
            } else {
              seen := seen + {x.imm};
            }
          }
        } else if x.op.SetPc? {
          if pcRewritten {
            x := x.(dead := true);
          } else {
            pcRewritten := true;
          }
        } else if x.op.Get? {
          if IsPc(t, x.imm) {
            pcRewritten := false;
          }
        } else if Observes(x.op) {
          seen := {};
          if x.op.Exit? {
            pcRewritten := true;
          } else if !x.op.ExitIf? {
            pcRewritten := false;
          }
        }
      }
      assert x == KeptPut(b[i], k);
      assert b[i].op.Put? && b[i].imm in k.seen ==> k.seen + {b[i].imm} == k.seen;
      assert Ahead(seen, pcRewritten) == AheadOf(t, b[i], k);
      b[i] := x;
      assert b[i..] == [x] + b[i + 1..];
    }
    assert b[0..] == b[..] && old(b[0..]) == old(b[..]);
  }

  // ---- why it has to come after the traffic pass ----

  function Plain(op: Op, dst: nat, a: nat, imm: u32): Insn {
    Insn(op, 0, dst, a, NONE, NONE, imm, {}, {}, 0, false)
  }

  const SEVEN := Plain(Const, 0, NONE, 7)
  const PUT_ONE := Plain(Put, NONE, 0, 1)
  const GET_ONE := Plain(Get, 1, NONE, 1)
  const PUT_TWO := Plain(Put, NONE, 1, 2)

  /** Register 1 is written, read back, and written again, and what was read goes to register 2. */
  function ReadBack(): seq<Insn> {
    [SEVEN] + ([PUT_ONE] + Rest())
  }

  function Rest(): seq<Insn> {
    [GET_ONE] + ([PUT_ONE] + ([PUT_TWO] + []))
  }

  /** Registers 1 and 2 are ordinary ones. */
  predicate Ordinary<W>(t: Target<W>) {
    !t.zero(1) && !t.zero(2) && !IsPc(t, 1) && !IsPc(t, 2)
  }

  lemma RestReads<W>(t: Target<W>, g: Guest<W>, tmp: Temps)
    requires Ordinary(t)
    ensures ReadReg(t, Exec(t, Rest(), g, 0, tmp).guest, 2) == ReadReg(t, g, 1)
  {
    var v := ReadReg(t, g, 1);
    ExecCons(t, GET_ONE, [PUT_ONE] + ([PUT_TWO] + []), g, 0, tmp);
    PerformPure(t, GET_ONE, g, 0, tmp);
    var held := Bind(tmp, GET_ONE, v);
    ExecCons(t, PUT_ONE, [PUT_TWO] + [], g, 0, held);
    PerformPut(t, PUT_ONE, g, 0, held);
    var h := WriteReg(t, g, 1, Arg(held, 0));
    assert Bind(held, PUT_ONE, 0) == held;
    ExecCons(t, PUT_TWO, [], h, 0, held);
    PerformPut(t, PUT_TWO, h, 0, held);
    assert Arg(held, 1) == v;
    WrittenReg(t, h, 2, v, 2);
    hide Perform;
  }

  lemma BuiltCons(x: Insn, rest: seq<Insn>, defined: set<nat>)
    requires !x.dead && InsnOk(x, defined) && !x.op.Exit? && Built(rest, defined + Defines(x))
    ensures Built([x] + rest, defined)
  {
    assert ([x] + rest)[1..] == rest;
  }

  lemma ReadBackBuilt()
    ensures Built(ReadBack(), {})
  {
    assert {0, 1} + Defines(PUT_TWO) == {0, 1} && {0, 1} + Defines(PUT_ONE) == {0, 1};
    assert {0} + Defines(GET_ONE) == {0, 1} && {0} + Defines(PUT_ONE) == {0} && {} + Defines(SEVEN) == {0};
    hide Built;
    assert Built([], {0, 1}) by { BuiltNothing({0, 1}); }
    BuiltCons(PUT_TWO, [], {0, 1});
    BuiltCons(PUT_ONE, [PUT_TWO] + [], {0, 1});
    BuiltCons(GET_ONE, [PUT_ONE] + ([PUT_TWO] + []), {0});
    BuiltCons(PUT_ONE, Rest(), {0});
    BuiltCons(SEVEN, [PUT_ONE] + Rest(), {});
  }

  lemma BuiltNothing(defined: set<nat>)
    ensures Built([], defined)
  {
  }

  lemma DeadPutsCons<W>(t: Target<W>, x: Insn, rest: seq<Insn>)
    ensures DeadPuts(t, [x] + rest) ==
            ([KeptPut(x, DeadPuts(t, rest).1)] + DeadPuts(t, rest).0, AheadOf(t, x, DeadPuts(t, rest).1))
  {
    assert ([x] + rest)[1..] == rest;
  }

  lemma ReadBackAfter<W>(t: Target<W>)
    requires Ordinary(t)
    ensures DeadPuts(t, ReadBack()).0 == [SEVEN] + ([PUT_ONE.(dead := true)] + Rest())
  {
    assert DeadPuts(t, []) == ([], Ahead({}, false));
    hide DeadPuts;
    DeadPutsCons(t, PUT_TWO, []);
    DeadPutsCons(t, PUT_ONE, [PUT_TWO] + []);
    DeadPutsCons(t, GET_ONE, [PUT_ONE] + ([PUT_TWO] + []));
    DeadPutsCons(t, PUT_ONE, Rest());
    DeadPutsCons(t, SEVEN, [PUT_ONE] + Rest());
  }

  /** On that block the pass by itself is wrong, whatever the frontend. */
  lemma NeedsForwarding<W(!new)>(t: Target<W>, g: Guest<W>)
    requires Ordinary(t) && ReadReg(t, g, 1) != 7
    ensures Built(ReadBack(), {}) && !Same(t, ReadBack(), DeadPuts(t, ReadBack()).0)
  {
    ReadBackBuilt();
    ReadBackAfter(t);
    hide Built, DeadPuts;
    var r := DeadPuts(t, ReadBack()).0;
    ExecCons(t, SEVEN, [PUT_ONE] + Rest(), g, 0, map[]);
    ExecCons(t, SEVEN, [PUT_ONE.(dead := true)] + Rest(), g, 0, map[]);
    PerformPure(t, SEVEN, g, 0, map[]);
    var tmp := Bind(map[], SEVEN, 7);
    ExecCons(t, PUT_ONE, Rest(), g, 0, tmp);
    ExecCons(t, PUT_ONE.(dead := true), Rest(), g, 0, tmp);
    PerformPut(t, PUT_ONE, g, 0, tmp);
    assert Bind(tmp, PUT_ONE, 0) == tmp && Arg(tmp, 0) == 7;
    var h := WriteReg(t, g, 1, 7);
    WrittenReg(t, g, 1, 7, 1);
    RestReads(t, h, tmp);
    RestReads(t, g, tmp);
    hide Perform, Exec, ReadReg, WriteReg;
    assert Exec(t, ReadBack(), g, 0, map[]) != Exec(t, r, g, 0, map[]);
  }

  // ---- exactly which writes go ----

  /** Nothing live before `k` may look at the registers. */
  predicate Unseen(s: seq<Insn>, k: nat) {
    forall j :: 0 <= j < k && j < |s| ==> s[j].dead || !Observes(s[j].op)
  }

  /** A later write of the register comes first. */
  ghost predicate Rewritten(s: seq<Insn>, n: u32) {
    exists k :: 0 <= k < |s| && !s[k].dead && s[k].op.Put? && s[k].imm == n && Unseen(s, k)
  }

  /** Nothing live before `k` may look at the pc: a conditional exit writes it if taken. */
  predicate PcUnseen<W>(t: Target<W>, s: seq<Insn>, k: nat) {
    forall j :: 0 <= j < k && j < |s| ==>
      s[j].dead || ((!Observes(s[j].op) || s[j].op.ExitIf?) && !(s[j].op.Get? && IsPc(t, s[j].imm)))
  }

  ghost predicate PcRewritten<W>(t: Target<W>, s: seq<Insn>) {
    exists k :: 0 <= k < |s| && !s[k].dead && (s[k].op.SetPc? || s[k].op.Exit?) && PcUnseen(t, s, k)
  }

  lemma UnseenCons(x: Insn, rest: seq<Insn>, k: nat)
    requires k <= |rest|
    ensures Unseen([x] + rest, k + 1) <==> (x.dead || !Observes(x.op)) && Unseen(rest, k)
  {
    var s := [x] + rest;
    assert s[0] == x && forall j :: 0 <= j < |rest| ==> s[j + 1] == rest[j];
    if Unseen(s, k + 1) {
      forall j | 0 <= j < k && j < |rest|
        ensures rest[j].dead || !Observes(rest[j].op)
      {
        assert s[j + 1] == rest[j];
      }
    }
  }

  lemma RewrittenCons(x: Insn, rest: seq<Insn>, n: u32)
    ensures Rewritten([x] + rest, n) <==>
            (!x.dead && x.op.Put? && x.imm == n) || ((x.dead || !Observes(x.op)) && Rewritten(rest, n))
  {
    var s := [x] + rest;
    if !x.dead && x.op.Put? && x.imm == n {
      assert s[0] == x && Unseen(s, 0);
    }
    if k :| 0 <= k < |rest| && !rest[k].dead && rest[k].op.Put? && rest[k].imm == n && Unseen(rest, k) {
      UnseenCons(x, rest, k);
      assert s[k + 1] == rest[k];
    }
    if k :| 0 < k < |s| && !s[k].dead && s[k].op.Put? && s[k].imm == n && Unseen(s, k) {
      UnseenCons(x, rest, k - 1);
      assert s[k] == rest[k - 1];
    }
  }

  predicate PcBlind<W>(t: Target<W>, x: Insn) {
    x.dead || ((!Observes(x.op) || x.op.ExitIf?) && !(x.op.Get? && IsPc(t, x.imm)))
  }

  lemma PcUnseenCons<W>(t: Target<W>, x: Insn, rest: seq<Insn>, k: nat)
    requires k <= |rest|
    ensures PcUnseen(t, [x] + rest, k + 1) <==> PcBlind(t, x) && PcUnseen(t, rest, k)
  {
    var s := [x] + rest;
    assert s[0] == x && forall j :: 0 <= j < |rest| ==> s[j + 1] == rest[j];
    if PcUnseen(t, s, k + 1) {
      forall j | 0 <= j < k && j < |rest|
        ensures rest[j].dead ||
                ((!Observes(rest[j].op) || rest[j].op.ExitIf?) && !(rest[j].op.Get? && IsPc(t, rest[j].imm)))
      {
        assert s[j + 1] == rest[j];
      }
    }
  }

  lemma PcRewrittenCons<W>(t: Target<W>, x: Insn, rest: seq<Insn>)
    ensures PcRewritten(t, [x] + rest) <==>
            (!x.dead && (x.op.SetPc? || x.op.Exit?)) || (PcBlind(t, x) && PcRewritten(t, rest))
  {
    var s := [x] + rest;
    if !x.dead && (x.op.SetPc? || x.op.Exit?) {
      assert s[0] == x && PcUnseen(t, s, 0);
    }
    if k :| 0 <= k < |rest| && !rest[k].dead && (rest[k].op.SetPc? || rest[k].op.Exit?) && PcUnseen(t, rest, k) {
      PcUnseenCons(t, x, rest, k);
      assert s[k + 1] == rest[k];
    }
    if k :| 0 < k < |s| && !s[k].dead && (s[k].op.SetPc? || s[k].op.Exit?) && PcUnseen(t, s, k) {
      PcUnseenCons(t, x, rest, k - 1);
      assert s[k] == rest[k - 1];
    }
  }

  lemma {:induction false} AheadIsRewritten<W>(t: Target<W>, s: seq<Insn>, n: u32)
    ensures n in DeadPuts(t, s).1.seen <==> n < TRACKED && Rewritten(s, n)
    ensures DeadPuts(t, s).1.pc <==> PcRewritten(t, s)
    decreases |s|
  {
    if s != [] {
      var x, rest := s[0], s[1..];
      assert s == [x] + rest;
      AheadIsRewritten(t, rest, n);
      RewrittenCons(x, rest, n);
      PcRewrittenCons(t, x, rest);
      hide Rewritten, PcRewritten, DeadPuts;
      DeadPutsCons(t, x, rest);
    }
  }

  /** A write dies exactly when a later one comes before anything that may look. */
  lemma {:induction false} DeadPutsExact<W>(t: Target<W>, s: seq<Insn>, i: nat)
    requires i < |s|
    ensures |DeadPuts(t, s).0| == |s|
    ensures var x, y := s[i], DeadPuts(t, s).0[i];
            && y == x.(dead := y.dead)
            && (y.dead <==> || x.dead || (x.op.Put? && x.imm < TRACKED && Rewritten(s[i + 1..], x.imm))
                            || (x.op.SetPc? && PcRewritten(t, s[i + 1..])))
    decreases |s|
  {
    var x, rest := s[0], s[1..];
    assert s == [x] + rest;
    DeadPutsLength(t, rest);
    DeadPutsCons(t, x, rest);
    if i == 0 {
      AheadIsRewritten(t, rest, x.imm);
      hide Rewritten, PcRewritten, DeadPuts;
    } else {
      DeadPutsExact(t, rest, i - 1);
      assert rest[i - 1] == s[i] && rest[i..] == s[i + 1..];
      hide Rewritten, PcRewritten, DeadPuts, KeptPut;
    }
  }

  lemma {:induction false} DeadPutsLength<W>(t: Target<W>, s: seq<Insn>)
    ensures |DeadPuts(t, s).0| == |s|
    decreases |s|
  {
    if s != [] {
      DeadPutsLength(t, s[1..]);
    }
  }
}
