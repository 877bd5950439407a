/**
 * Run control of the GDB stub: a set of armed addresses, and a guest driven in steps and blocks by a
 * backend that may chain blocks together.
 */
module GdbRun {
  import opened Words

  const MAX_BREAK: nat := 16
  const BREAK_WINDOW: int := 4096

  datatype Reason = Budget | Wfi | Halted | Breakpoint | Yield

  datatype Break = Break(addr: u32, len: u32, used: bool)

  /** What a call into the backend did: `ran` lists the pc of every instruction completed. */
  datatype Outcome<S> = Outcome(cpu: S, why: Reason, retired: nat, ran: seq<u32>, formed: bool)

  /**
   * A guest core behind its operations. `due` is where the exception entries and returns the guest
   * takes before it completes its next instruction lead, if it takes any, a fault of that instruction
   * included; one taken after the first instruction of a call is not among them. `run` is told whether
   * chained exits are in place, and says whether it formed any.
   */
  datatype Backend<!S(!new)> = Backend(
    pc: S -> u32,
    setPc: (S, u32) -> S,
    due: S -> Option<u32>,
    step: S -> Outcome<S>,
    run: (S, nat, bool) -> Outcome<S>)

  /** Where the guest's next instruction is: at the pc, or where the exceptions due lead. */
  function Start(pc: u32, due: Option<u32>): u32 {
    if due.Some? then due.value else pc
  }

  predicate StartsAt(at: u32, ran: seq<u32>) {
    ran == [] || ran[0] == at
  }

  /** A step takes any exceptions due and then runs the one instruction it has come to, or none. */
  ghost predicate StepsOne<S(!new)>(b: Backend<S>) {
    forall s :: |b.step(s).ran| <= 1 && StartsAt(Start(b.pc(s), b.due(s)), b.step(s).ran)
  }

  /** With no exit chained, a run of budget 1 is one block from there: it stays in the window and chains nothing. */
  ghost predicate RunsOneBlock<S(!new)>(b: Backend<S>) {
    forall s :: OneBlock(Start(b.pc(s), b.due(s)), b.run(s, 1, false))
  }

  predicate OneBlock<S>(at: u32, o: Outcome<S>) {
    !o.formed && StartsAt(at, o.ran) && InWindow(at, o.ran)
  }

  predicate InWindow(pc: u32, ran: seq<u32>) {
    forall i :: 0 <= i < |ran| ==> pc <= ran[i] < pc + BREAK_WINDOW
  }

  // ---- what a run to a breakpoint is ----

  predicate Near(armed: set<u32>, pc: u32) {
    exists a :: a in armed && pc <= a < pc + BREAK_WINDOW
  }

  /** An instruction at a breakpoint was executed, and not as the first at the pc the guest was given. */
  predicate Over(armed: set<u32>, pc: u32, ran: seq<u32>) {
    exists i :: 0 <= i < |ran| && ran[i] in armed && !(i == 0 && ran[i] == pc)
  }

  /**
   * The exceptions due lead away from the pc to a breakpoint, when the round is a step, or to where one
   * is near, when it is a block. The stub decides which by the pc alone.
   */
  predicate Exposed(armed: set<u32>, pc: u32, due: Option<u32>) {
    due.Some? && due.value != pc && if Near(armed, pc) then due.value in armed else Near(armed, due.value)
  }

  /**
   * `entered` and `exposed`: some round began with exceptions due, and with such as lead to a breakpoint.
   * `count` is what the call reports as retired, and `last` what its last round ran.
   */
  datatype Trip<S> = Trip(cpu: S, why: Reason, ran: seq<u32>, halted: bool, entered: bool, exposed: bool,
                          count: nat, last: seq<u32>)

  /** One round: a step where a breakpoint could be, a block elsewhere. */
  ghost function Round<S(!new)>(b: Backend<S>, armed: set<u32>, cpu: S, linked: bool): Outcome<S> {
    if Near(armed, b.pc(cpu)) then b.step(cpu).(retired := 1, formed := false) else b.run(cpu, 1, linked)
  }

  /** Nothing done. */
  ghost function Unmoved<S(!new)>(cpu: S): Trip<S> {
    Trip(cpu, Budget, [], false, false, false, 0, [])
  }

  ghost function Ended<S(!new)>(b: Backend<S>, armed: set<u32>, cpu: S, o: Outcome<S>, halted: bool): Trip<S> {
    Trip(o.cpu, o.why, o.ran, halted, b.due(cpu).Some?, Exposed(armed, b.pc(cpu), b.due(cpu)), o.retired, o.ran)
  }

  /** Rounds until the budget is spent, the guest stops, a breakpoint is reached or nothing retires. */
  ghost function Chase<S(!new)>(b: Backend<S>, armed: set<u32>, cpu: S, linked: bool, budget: int): Trip<S>
    decreases budget
  {
    if budget <= 0 then Unmoved(cpu)
    else
      var o := Round(b, armed, cpu, linked);
      if o.why != Budget || b.pc(o.cpu) in armed then Ended(b, armed, cpu, o, true)
      else if o.retired == 0 then Ended(b, armed, cpu, o, false)
      else
        var rest := Chase(b, armed, o.cpu, linked || o.formed, budget - o.retired);
        rest.(ran := o.ran + rest.ran, entered := b.due(cpu).Some? || rest.entered,
              exposed := Exposed(armed, b.pc(cpu), b.due(cpu)) || rest.exposed, count := o.retired + rest.count,
              last := if budget <= o.retired then o.ran else rest.last)
  }

  /** What has been done so far of a trip. */
  datatype Sofar = Sofar(ran: seq<u32>, entered: bool, exposed: bool, count: nat)

  /** `goal` is what has been done so far and then `rest`. */
  ghost predicate Continues<S>(goal: Trip<S>, done: Sofar, rest: Trip<S>) {
    && goal.cpu == rest.cpu && goal.why == rest.why && goal.halted == rest.halted && goal.ran == done.ran + rest.ran
    && goal.entered == (done.entered || rest.entered) && goal.exposed == (done.exposed || rest.exposed)
    && goal.count == done.count + rest.count
  }

  ghost function DoneAfter<S(!new)>(b: Backend<S>, armed: set<u32>, cpu: S, o: Outcome<S>, done: Sofar): Sofar {
    Sofar(done.ran + o.ran, done.entered || b.due(cpu).Some?,
          done.exposed || Exposed(armed, b.pc(cpu), b.due(cpu)), done.count + o.retired)
  }

  lemma ContinuesRound<S(!new)>(b: Backend<S>, armed: set<u32>, cpu: S, linked: bool, budget: int, goal: Trip<S>,
                                done: Sofar)
    requires budget > 0 && Continues(goal, done, Chase(b, armed, cpu, linked, budget))
    ensures var o := Round(b, armed, cpu, linked);
            Continues(goal, DoneAfter(b, armed, cpu, o, done),
                      if o.why != Budget || b.pc(o.cpu) in armed then Unmoved(o.cpu).(why := o.why, halted := true)
                      else if o.retired == 0 then Unmoved(o.cpu)
                      else Chase(b, armed, o.cpu, linked || o.formed, budget - o.retired))
  {
    hide Exposed, Round;
  }

  lemma ChaseSpent<S(!new)>(b: Backend<S>, armed: set<u32>, cpu: S, linked: bool, budget: int)
    requires budget <= 0
    ensures Chase(b, armed, cpu, linked, budget) == Unmoved(cpu)
  {
  }

  /**
   * With no exit chained, a round goes over a breakpoint only if the exceptions due expose it. A step
   * that runs its instruction then does, and so does a block when they lead to the breakpoint itself.
   */
  lemma RoundSafe<S(!new)>(b: Backend<S>, armed: set<u32>, cpu: S)
    requires StepsOne(b) && RunsOneBlock(b)
    ensures var o, pc, due := Round(b, armed, cpu, false), b.pc(cpu), b.due(cpu);
            && !o.formed && (Over(armed, pc, o.ran) ==> o.ran != [] && Exposed(armed, pc, due))
            && (Near(armed, pc) ==> (Over(armed, pc, o.ran) <==> o.ran != [] && Exposed(armed, pc, due)))
            && (Exposed(armed, pc, due) && o.ran != [] && due.value in armed ==> Over(armed, pc, o.ran))
  {
    var o, at := Round(b, armed, cpu, false), Start(b.pc(cpu), b.due(cpu));
    assert OneBlock(at, b.run(cpu, 1, false)) && StartsAt(at, b.step(cpu).ran);
    assert InWindow(at, o.ran);
  }

  /** Exceptions that lead to no place near a breakpoint expose none, and the round goes over none. */
  lemma FarEntry<S(!new)>(b: Backend<S>, armed: set<u32>, cpu: S)
    requires StepsOne(b) && RunsOneBlock(b) && !Near(armed, Start(b.pc(cpu), b.due(cpu)))
    ensures !Exposed(armed, b.pc(cpu), b.due(cpu)) && !Over(armed, b.pc(cpu), Round(b, armed, cpu, false).ran)
  {
    RoundSafe(b, armed, cpu);
  }

  /** A guest at `pc` with exceptions due that lead to `e`, from where its block goes on to `a`. */
  function Diverted(pc: u32, e: u32, a: u32): Backend<u32> {
    Backend(
      s => s,
      (s, at) => at,
      s => if s == pc then Some(e) else None,
      s => Outcome(s, Budget, 1, [if s == pc then e else s], false),
      (s, n, linked) => Outcome(s, Budget, 1, if s == pc then [e, a] else [s], false))
  }

  /** A trip begins with its first round. */
  lemma ChaseFirst<S(!new)>(b: Backend<S>, armed: set<u32>, cpu: S, linked: bool, budget: int)
    requires budget > 0
    ensures Round(b, armed, cpu, linked).ran <= Chase(b, armed, cpu, linked, budget).ran
    ensures Over(armed, b.pc(cpu), Round(b, armed, cpu, linked).ran) ==>
              Over(armed, b.pc(cpu), Chase(b, armed, cpu, linked, budget).ran)
  {
    var p, q := Round(b, armed, cpu, linked).ran, Chase(b, armed, cpu, linked, budget).ran;
    assert p <= q;
    if i :| 0 <= i < |p| && p[i] in armed && !(i == 0 && p[i] == b.pc(cpu)) {
      assert q[i] == p[i];
    }
  }

  lemma OverAppend(armed: set<u32>, pc: u32, p: seq<u32>, q: seq<u32>, mid: u32)
    requires !Over(armed, pc, p) && !Over(armed, mid, q) && mid !in armed
    ensures !Over(armed, pc, p + q)
  {
  }

  /**
   * With no exit chained, a whole trip goes over a breakpoint only if exceptions due at the start of a
   * round exposed it, and a trip that ends at one has halted.
   */
  lemma {:induction false} ChaseSafe<S(!new)>(b: Backend<S>, armed: set<u32>, cpu: S, budget: int)
    requires StepsOne(b) && RunsOneBlock(b)
    ensures var t := Chase(b, armed, cpu, false, budget);
            && (Over(armed, b.pc(cpu), t.ran) ==> t.exposed) && (t.exposed ==> t.entered)
            && (b.pc(t.cpu) in armed && (budget > 0 || b.pc(cpu) !in armed) ==> t.halted)
    decreases budget
  {
    if budget > 0 {
      RoundSafe(b, armed, cpu);
      var o := Round(b, armed, cpu, false);
      if o.why == Budget && b.pc(o.cpu) !in armed && o.retired != 0 {
        ChaseSafe(b, armed, o.cpu, budget - o.retired);
        var rest := Chase(b, armed, o.cpu, false, budget - o.retired);
        if !Over(armed, b.pc(cpu), o.ran) && !Over(armed, b.pc(o.cpu), rest.ran) {
          OverAppend(armed, b.pc(cpu), o.ran, rest.ran, b.pc(o.cpu));
        }
        hide Round;
      }
    }
  }

  lemma DivertedFacts(pc: u32, e: u32, a: u32)
    requires e <= a < e + BREAK_WINDOW
    ensures var b := Diverted(pc, e, a); StepsOne(b) && RunsOneBlock(b) && b.pc(pc) == pc && b.due(pc) == Some(e)
  {
  }

  lemma DivertedRound(armed: set<u32>, pc: u32, e: u32, a: u32)
    requires e != pc && a in armed && if Near(armed, pc) then a == e else true
    ensures Over(armed, pc, Round(Diverted(pc, e, a), armed, pc, false).ran)
  {
    var o := Round(Diverted(pc, e, a), armed, pc, false);
    assert o.ran[0] == e && o.ran[|o.ran| - 1] == a;
  }

  /** And may, wherever they do: some backend, at that pc with those due, goes over a breakpoint. */
  lemma ExposedMisses(armed: set<u32>, pc: u32, due: Option<u32>, budget: int) returns (b: Backend<u32>)
    requires Exposed(armed, pc, due) && budget > 0
    ensures StepsOne(b) && RunsOneBlock(b) && b.pc(pc) == pc && b.due(pc) == due
    ensures Over(armed, pc, Chase(b, armed, pc, false, budget).ran)
  {
    var e := due.value;
    var a := e;
    if !Near(armed, pc) {
      a :| a in armed && e <= a < e + BREAK_WINDOW;
    }
    b := Diverted(pc, e, a);
    DivertedFacts(pc, e, a);
    DivertedRound(armed, pc, e, a);
    hide StepsOne, RunsOneBlock, Chase, Round, Over, Near;
    ChaseFirst(b, armed, pc, false, budget);
  }

  // ---- a call spends its budget ----

  /** Where a guest goes on, a step runs an instruction and a run reports no more than it ran, */
  ghost predicate Reports<S(!new)>(b: Backend<S>) {
    && (forall s :: b.step(s).why == Budget ==> b.step(s).ran != [])
    && (forall s, linked :: b.run(s, 1, linked).why == Budget ==>
          b.run(s, 1, linked).retired <= |b.run(s, 1, linked).ran|)
  }

  /** or exactly what it ran. */
  ghost predicate Counts<S(!new)>(b: Backend<S>) {
    && (forall s :: b.step(s).why == Budget ==> |b.step(s).ran| == 1)
    && (forall s, linked :: b.run(s, 1, linked).why == Budget ==>
          b.run(s, 1, linked).retired == |b.run(s, 1, linked).ran|)
  }

  /**
   * A call that does not halt has run as many instructions as its budget, or stopped at a round that
   * reported none. Where the reports are exact, that round ran none, the call reports exactly what it
   * ran, and it had not run that many before its last round.
   */
  lemma {:induction false} ChaseSpends<S(!new)>(b: Backend<S>, armed: set<u32>, cpu: S, linked: bool, budget: int)
    requires Reports(b)
    ensures var t := Chase(b, armed, cpu, linked, budget);
            && (t.why == Budget ==> t.count <= |t.ran|)
            && (!t.halted ==> t.why == Budget && (|t.ran| >= budget || t.count < budget))
            && (Counts(b) && t.why == Budget ==> t.count == |t.ran|)
            && (Counts(b) && !t.halted ==> |t.ran| >= budget || t.last == [])
            && |t.last| <= |t.ran| && (Counts(b) && budget > 0 ==> |t.ran| - |t.last| < budget)
    decreases budget
  {
    if budget > 0 {
      var o := Round(b, armed, cpu, linked);
      RoundReports(b, armed, cpu, linked);
      hide Round, Reports, Counts, Exposed;
      if o.why == Budget && b.pc(o.cpu) !in armed && o.retired != 0 {
        ChaseSpends(b, armed, o.cpu, linked || o.formed, budget - o.retired);
      }
    }
  }

  lemma RoundReports<S(!new)>(b: Backend<S>, armed: set<u32>, cpu: S, linked: bool)
    requires Reports(b)
    ensures var o := Round(b, armed, cpu, linked);
            o.why == Budget ==> o.retired <= |o.ran| && (Counts(b) ==> o.retired == |o.ran|)
  {
  }

  // ---- links the stub does not know of ----

  /** A guest without exceptions that takes each instruction for a block, and when chained runs on to `a`. */
  function Chained(a: u32): Backend<u32> {
    Backend(
      s => s,
      (s, at) => at,
      s => None,
      s => Outcome(s, Budget, 1, [s], false),
      (s, n, linked) => Outcome(s, Budget, 1, if linked then [s, a] else [s], false))
  }

  lemma {:induction false} NeverDue<S(!new)>(b: Backend<S>, armed: set<u32>, cpu: S, linked: bool, budget: int)
    requires forall s :: b.due(s).None?
    ensures var t := Chase(b, armed, cpu, linked, budget); !t.entered && !t.exposed
    decreases budget
  {
    if budget > 0 {
      var o := Round(b, armed, cpu, linked);
      if o.retired > 0 {
        NeverDue(b, armed, o.cpu, linked || o.formed, budget - o.retired);
      }
    }
  }

  /**
   * With exits chained behind the stub, whatever is armed and wherever the guest is but near it, some
   * backend goes over any breakpoint, with no exception due.
   */
  lemma ChainedMisses(armed: set<u32>, a: u32, pc: u32, budget: int) returns (b: Backend<u32>)
    requires a in armed && !Near(armed, pc) && budget > 0
    ensures StepsOne(b) && RunsOneBlock(b) && b.pc(pc) == pc
    ensures var t := Chase(b, armed, pc, true, budget); Over(armed, pc, t.ran) && a in t.ran && !t.exposed
  {
    b := Chained(a);
    var o := Round(b, armed, pc, true);
    assert o.ran[1] == a;
    ChaseFirst(b, armed, pc, true, budget);
    NeverDue(b, armed, pc, true, budget);
  }

  /** The guest after `k` single steps, and the instructions they execute when no exception is due. */
  ghost function Stepped<S(!new)>(b: Backend<S>, cpu: S, k: nat): S {
    if k == 0 then cpu else Stepped(b, b.step(cpu).cpu, k - 1)
  }

  ghost function Pcs<S(!new)>(b: Backend<S>, cpu: S, k: nat): seq<u32> {
    if k == 0 then [] else [b.pc(cpu)] + Pcs(b, b.step(cpu).cpu, k - 1)
  }

  /** No exception falls due before any of the next `n` single steps. */
  ghost predicate Calm<S(!new)>(b: Backend<S>, cpu: S, n: nat) {
    forall j :: 0 <= j < n ==> b.due(Stepped(b, cpu, j)).None?
  }

  /**
   * Where no exception is due, a step that runs nothing, as of a guest that has stopped, changes nothing.
   * A block runs what single steps run, unless an exception falls due inside it: the stepper takes that
   * at the next instruction and the block only once it has ended.
   */
  ghost predicate BlocksAreSteps<S(!new)>(b: Backend<S>) {
    && (forall s :: b.due(s).None? && b.step(s).ran == [] ==> b.step(s).cpu == s)
    && (forall s :: b.due(s).None? && Calm(b, s, |b.run(s, 1, false).ran|) ==> IsStepping(b, s, b.run(s, 1, false)))
  }

  /** The instructions of single steps, and the guest they leave, but where the next faults and the call took that. */
  ghost predicate IsStepping<S(!new)>(b: Backend<S>, s: S, o: Outcome<S>) {
    var k := |o.ran|;
    o.ran == Pcs(b, s, k) && (b.due(Stepped(b, s, k)).None? ==> o.cpu == Stepped(b, s, k))
  }

  lemma {:induction false} SteppedMore<S(!new)>(b: Backend<S>, cpu: S, j: nat, k: nat)
    ensures Stepped(b, Stepped(b, cpu, j), k) == Stepped(b, cpu, j + k)
    ensures Pcs(b, cpu, j) + Pcs(b, Stepped(b, cpu, j), k) == Pcs(b, cpu, j + k)
    decreases j
  {
    if j > 0 {
      var next := b.step(cpu).cpu;
      SteppedMore(b, next, j - 1, k);
      assert Pcs(b, cpu, j) == [b.pc(cpu)] + Pcs(b, next, j - 1);
      assert Pcs(b, cpu, j + k) == [b.pc(cpu)] + Pcs(b, next, j - 1 + k);
      assert Stepped(b, cpu, j) == Stepped(b, next, j - 1) && Stepped(b, cpu, j + k) == Stepped(b, next, j - 1 + k);
      hide Pcs, Stepped;
    }
  }

  lemma {:induction false} PcsAt<S(!new)>(b: Backend<S>, cpu: S, k: nat, j: nat)
    requires j < k
    ensures |Pcs(b, cpu, k)| == k && Pcs(b, cpu, k)[j] == b.pc(Stepped(b, cpu, j))
    decreases k
  {
    if j > 0 {
      PcsAt(b, b.step(cpu).cpu, k - 1, j - 1);
    } else if k > 1 {
      PcsAt(b, b.step(cpu).cpu, k - 1, 0);
    }
  }

  /** One more round: what is left of a trip continues the steps, or ran nothing. */
  lemma StepsOn<S(!new)>(b: Backend<S>, cpu: S, o: Outcome<S>, rest: Trip<S>)
    requires IsStepping(b, cpu, o) && Calm(b, cpu, |o.ran + rest.ran|)
    requires b.due(Stepped(b, cpu, |o.ran|)).None? ==> TripSteps(b, o.cpu, rest)
    ensures TripSteps(b, cpu, rest.(ran := o.ran + rest.ran))
  {
    var k, more := |o.ran|, |rest.ran|;
    if b.due(Stepped(b, cpu, k)).None? {
      SteppedMore(b, cpu, k, more);
    } else {
      assert rest.ran == [];
      assert o.ran + [] == o.ran;
    }
    hide Stepped, Pcs;
  }

  /** The same of a whole trip. */
  ghost predicate TripSteps<S(!new)>(b: Backend<S>, s: S, t: Trip<S>) {
    var k := |t.ran|;
    t.ran == Pcs(b, s, k) && (b.due(Stepped(b, s, k)).None? ==> t.cpu == Stepped(b, s, k))
  }

  lemma {:induction false} ChaseSteps<S(!new)>(b: Backend<S>, armed: set<u32>, cpu: S, budget: int)
    requires StepsOne(b) && RunsOneBlock(b) && BlocksAreSteps(b) && !Chase(b, armed, cpu, false, budget).entered
    requires Calm(b, cpu, |Chase(b, armed, cpu, false, budget).ran|)
    ensures TripSteps(b, cpu, Chase(b, armed, cpu, false, budget))
    decreases budget
  {
    if budget > 0 {
      var t, o := Chase(b, armed, cpu, false, budget), Round(b, armed, cpu, false);
      RoundSafe(b, armed, cpu);
      ChaseFirst(b, armed, cpu, false, budget);
      RoundIsStepping(b, armed, cpu);
      hide Round, StepsOne, RunsOneBlock, BlocksAreSteps, Exposed, Over, Stepped, Pcs;
      if o.why == Budget && b.pc(o.cpu) !in armed && o.retired != 0 {
        var rest := Chase(b, armed, o.cpu, false, budget - o.retired);
        if b.due(Stepped(b, cpu, |o.ran|)).None? {
          CalmRest(b, cpu, |o.ran|, |t.ran|);
          ChaseSteps(b, armed, o.cpu, budget - o.retired);
        }
        StepsOn(b, cpu, o, rest);
      }
    }
  }

  /**
   * The block backend under breakpoints refines stepping: a trip in which no exception was due, at a
   * round or at an instruction it ran, is as many single steps as it ran instructions. Their states in
   * between are off every breakpoint, so it stops at the first one reached.
   */
  lemma ChaseIsStepping<S(!new)>(b: Backend<S>, armed: set<u32>, cpu: S, budget: int)
    requires StepsOne(b) && RunsOneBlock(b) && BlocksAreSteps(b) && !Chase(b, armed, cpu, false, budget).entered
    requires Calm(b, cpu, |Chase(b, armed, cpu, false, budget).ran|)
    ensures var t := Chase(b, armed, cpu, false, budget);
            var k := |t.ran|;
            && t.ran == Pcs(b, cpu, k) && (b.due(Stepped(b, cpu, k)).None? ==> t.cpu == Stepped(b, cpu, k))
            && (forall j :: 1 <= j < k ==> b.pc(Stepped(b, cpu, j)) !in armed)
            && (t.halted && t.why == Budget ==> b.pc(t.cpu) in armed)
  {
    ChaseSteps(b, armed, cpu, budget);
    ChaseSafe(b, armed, cpu, budget);
    HaltedAt(b, armed, cpu, false, budget);
    hide Chase, Stepped, Pcs, StepsOne, RunsOneBlock, BlocksAreSteps, Calm, Over;
    OffBreakpoints(b, armed, cpu, |Chase(b, armed, cpu, false, budget).ran|);
  }

  /** A trip that halts of itself is at a breakpoint. */
  lemma {:induction false} HaltedAt<S(!new)>(b: Backend<S>, armed: set<u32>, cpu: S, linked: bool, budget: int)
    ensures var t := Chase(b, armed, cpu, linked, budget); t.halted && t.why == Budget ==> b.pc(t.cpu) in armed
    decreases budget
  {
    hide Round, Exposed;
    if budget > 0 {
      var o := Round(b, armed, cpu, linked);
      if o.retired > 0 {
        HaltedAt(b, armed, o.cpu, linked || o.formed, budget - o.retired);
      }
    }
  }

  lemma CalmRest<S(!new)>(b: Backend<S>, cpu: S, k: nat, n: nat)
    requires k <= n && Calm(b, cpu, n)
    ensures Calm(b, Stepped(b, cpu, k), n - k)
  {
    forall j | 0 <= j < n - k
      ensures b.due(Stepped(b, Stepped(b, cpu, k), j)).None?
    {
      SteppedMore(b, cpu, k, j);
    }
  }

  lemma OffBreakpoints<S(!new)>(b: Backend<S>, armed: set<u32>, cpu: S, k: nat)
    requires !Over(armed, b.pc(cpu), Pcs(b, cpu, k))
    ensures forall j :: 1 <= j < k ==> b.pc(Stepped(b, cpu, j)) !in armed
  {
    forall j | 1 <= j < k
      ensures b.pc(Stepped(b, cpu, j)) !in armed
    {
      PcsAt(b, cpu, k, j);
    }
  }

  lemma RoundIsStepping<S(!new)>(b: Backend<S>, armed: set<u32>, cpu: S)
    requires StepsOne(b) && BlocksAreSteps(b) && b.due(cpu).None?
    requires Calm(b, cpu, |Round(b, armed, cpu, false).ran|)
    ensures IsStepping(b, cpu, Round(b, armed, cpu, false))
  {
    assert Stepped(b, b.step(cpu).cpu, 0) == b.step(cpu).cpu;
    assert Pcs(b, cpu, 1) == [b.pc(cpu)] + Pcs(b, b.step(cpu).cpu, 0);
  }

  // ---- the breakpoint table ----

  predicate Distinct(t: seq<Break>) {
    forall i, j :: 0 <= i < j < |t| && t[i].used && t[j].used ==> t[i].addr != t[j].addr
  }

  /** The set a table stands for. */
  function ArmedIn(t: seq<Break>): set<u32> {
    set i | 0 <= i < |t| && t[i].used :: t[i].addr
  }

  function UsedCount(t: seq<Break>): nat {
    if t == [] then 0 else UsedCount(t[..|t| - 1]) + if t[|t| - 1].used then 1 else 0
  }

  /** Without duplicates the used slots are as many as the addresses. */
  lemma {:induction false} CountIsCard(t: seq<Break>)
    requires Distinct(t)
    ensures |ArmedIn(t)| == UsedCount(t)
    decreases |t|
  {
    if t != [] {
      var n := |t| - 1;
      var p := t[..n];
      CountIsCard(p);
      assert forall i :: 0 <= i < n ==> p[i] == t[i];
      if t[n].used {
        assert ArmedIn(t) == ArmedIn(p) + {t[n].addr};
        assert t[n].addr !in ArmedIn(p);
      } else {
        assert ArmedIn(t) == ArmedIn(p);
      }
    }
  }

  lemma {:induction false} AllUsed(t: seq<Break>)
    requires forall i :: 0 <= i < |t| ==> t[i].used
    ensures UsedCount(t) == |t|
    decreases |t|
  {
    if t != [] {
      AllUsed(t[..|t| - 1]);
    }
  }

  lemma {:induction false} SomeFree(t: seq<Break>, k: nat)
    requires k < |t| && !t[k].used
    ensures UsedCount(t) < |t|
    decreases |t|
  {
    if k < |t| - 1 {
      SomeFree(t[..|t| - 1], k);
    } else {
      CountBound(t[..k]);
    }
  }

  lemma {:induction false} CountBound(t: seq<Break>)
    ensures UsedCount(t) <= |t|
    decreases |t|
  {
    if t != [] {
      CountBound(t[..|t| - 1]);
    }
  }

  function Holds(b: Break): set<u32> {
    if b.used then {b.addr} else {}
  }

  /** Replacing one slot: the set loses what was there and gains what is put there. */
  lemma SlotSet(t: seq<Break>, k: nat, b: Break)
    requires k < |t| && Distinct(t) && (b.used ==> b.addr !in ArmedIn(t))
    ensures Distinct(t[k := b])
    ensures ArmedIn(t[k := b]) == ArmedIn(t) - Holds(t[k]) + Holds(b)
  {
    var u := t[k := b];
    forall a
      ensures a in ArmedIn(u) <==> a in ArmedIn(t) - Holds(t[k]) + Holds(b)
    {
      if a in ArmedIn(t) && !(t[k].used && a == t[k].addr) {
        var i :| 0 <= i < |t| && t[i].used && t[i].addr == a;
        assert u[i] == t[i];
      }
      if a in ArmedIn(u) {
        var i :| 0 <= i < |u| && u[i].used && u[i].addr == a;
      }
      if b.used && a == b.addr {
        assert u[k] == b;
      }
    }
  }

  /** A table with no free slot holds sixteen addresses, and one with a free slot fewer. */
  lemma FullIff(t: seq<Break>, k: nat)
    requires Distinct(t) && k <= |t| && (if k < |t| then !t[k].used else forall i :: 0 <= i < |t| ==> t[i].used)
    ensures k == |t| <==> |ArmedIn(t)| == |t|
    ensures |ArmedIn(t)| <= |t|
  {
    CountIsCard(t);
    if k < |t| {
      SomeFree(t, k);
    } else {
      AllUsed(t);
    }
  }

  lemma TakeSlot(t: seq<Break>, k: nat, b: Break)
    requires k < |t| && Distinct(t) && !t[k].used && b.used && b.addr !in ArmedIn(t)
    ensures Distinct(t[k := b]) && ArmedIn(t[k := b]) == ArmedIn(t) + {b.addr}
  {
    SlotSet(t, k, b);
    hide ArmedIn, Distinct;
  }

  // ---- the stub ----

  class Stub<S(!new)> {
    const b: Backend<S>
    const brk: array<Break>
    var cpu: S
    var links: bool            // chained exits are in place
    var unchainAsked: bool     // the backend drops them at its next run
    var attached: bool
    var halted: bool
    var stepping: bool
    var unchained: bool
    ghost var from: u32        // where the guest was at the last packet
    ghost var ran: seq<u32>    // instructions executed since
    ghost var exposed: bool    // exceptions due at a call since exposed a breakpoint
    ghost var replies: nat     // stop replies sent

    ghost predicate Valid()
      reads this, brk
    {
      && StepsOne(b) && RunsOneBlock(b)
      && brk.Length == MAX_BREAK && Distinct(brk[..])
    }

    ghost function Armed(): set<u32>
      reads brk
    {
      ArmedIn(brk[..])
    }

    /** The stub believes exits are unchained, and they are not. */
    ghost predicate Stale()
      reads this
    {
      unchained && links && !unchainAsked
    }

    /**
     * Since the last packet no instruction at a breakpoint has run, but for the first if it was
     * where the guest was put, and a guest that has come to one is stopped. Only exceptions due at a
     * call can have led over one.
     */
    ghost predicate Kept()
      reads this, brk
    {
      && (Over(Armed(), from, ran) ==> exposed)
      && (b.pc(cpu) in Armed() ==> halted || (ran == [] && b.pc(cpu) == from))
    }

    constructor (b: Backend<S>, cpu: S)
      requires StepsOne(b) && RunsOneBlock(b)
      ensures Valid() && Kept() && !Stale() && fresh(brk)
      ensures this.b == b && this.cpu == cpu && Armed() == {} && !halted && !stepping && !unchained && !links &&
              ran == []
      ensures !exposed && replies == 0
    {
      this.b, this.cpu := b, cpu;
      brk := new Break[MAX_BREAK](i => Break(0, 0, false));
      links, unchainAsked, attached, halted, stepping, unchained := false, false, false, false, false, false;
      from, ran, exposed, replies := b.pc(cpu), [], false, 0;
    }

    // ---- breakpoints ----

    method BreakFind(addr: u32) returns (found: bool, k: nat)
      requires brk.Length == MAX_BREAK
      ensures found <==> addr in Armed()
      ensures found ==> k < MAX_BREAK && brk[k].used && brk[k].addr == addr
    {
      for i := 0 to MAX_BREAK
        invariant forall j :: 0 <= j < i ==> !(brk[j].used && brk[j].addr == addr)
      {
        if brk[i].used && brk[i].addr == addr {
          assert brk[..][i].addr == addr;
          return true, i;
        }
      }
      return false, 0;
    }

    method FreeSlot() returns (k: nat)
      requires brk.Length == MAX_BREAK
      ensures k <= MAX_BREAK && (k < MAX_BREAK ==> !brk[k].used)
      ensures k == MAX_BREAK ==> forall i :: 0 <= i < MAX_BREAK ==> brk[..][i].used
    {
      for i := 0 to MAX_BREAK
        invariant forall j :: 0 <= j < i ==> brk[..][j].used
      {
        if !brk[i].used {
          return i;
        }
      }
      return MAX_BREAK;
    }

    /** Adds an address to the set; refuses only a new one when sixteen are armed. */
    method BreakAdd(addr: u32, kind: u32) returns (ok: bool)
      requires Valid()
      modifies brk
      ensures Valid() && Armed() == if ok then old(Armed()) + {addr} else old(Armed())
      ensures ok <==> addr in old(Armed()) || |old(Armed())| < MAX_BREAK
    {
      hide ArmedIn, UsedCount, Distinct, StepsOne, RunsOneBlock;
      ghost var t := brk[..];
      var found, at := BreakFind(addr);
      if found {
        return true;
      }
      var k := FreeSlot();
      assert brk[..] == t;
      FullIff(t, k);
      if k == MAX_BREAK {
        return false;
      }
      TakeSlot(t, k, Break(addr, kind, true));
      brk[k] := Break(addr, kind, true);
      assert brk[..] == t[k := Break(addr, kind, true)];
      return true;
    }

    method BreakDel(addr: u32)
      requires Valid()
      modifies brk
      ensures Valid() && Armed() == old(Armed()) - {addr}
    {
      var found, k := BreakFind(addr);
      if found {
        var off := brk[k].(used := false);
        SlotSet(brk[..], k, off);
        brk[k] := off;
        assert brk[..] == old(brk[..])[k := off];
      }
    }

    /** Whether a block from `pc` has an armed address in reach. */
    method BreakNear(pc: u32) returns (near: bool)
      requires brk.Length == MAX_BREAK
      ensures near <==> Near(Armed(), pc)
    {
      for i := 0 to MAX_BREAK
        invariant forall j :: 0 <= j < i ==> !(brk[j].used && pc <= brk[j].addr < pc + BREAK_WINDOW)
      {
        if brk[i].used && brk[i].addr >= pc && brk[i].addr - pc < BREAK_WINDOW {
          assert brk[..][i].addr in Armed();
          return true;
        }
      }
      return false;
    }

    method BreakAny() returns (any: bool)
      requires brk.Length == MAX_BREAK
      ensures any <==> Armed() != {}
    {
      for i := 0 to MAX_BREAK
        invariant forall j :: 0 <= j < i ==> !brk[j].used
      {
        if brk[i].used {
          assert brk[..][i].addr in Armed();
          return true;
        }
      }
      assert Armed() == {};
      return false;
    }

    // ---- the backend ----

    /** What a call at `at` did, noted. */
    ghost method Note(at: S, o: Outcome<S>)
      modifies this`ran, this`exposed
      ensures ran == old(ran) + o.ran && exposed == (old(exposed) || Exposed(Armed(), b.pc(at), b.due(at)))
    {
      ran, exposed := ran + o.ran, exposed || Exposed(Armed(), b.pc(at), b.due(at));
    }

    method OpsStep() returns (why: Reason)
      modifies this`cpu, this`ran, this`exposed
      ensures var o := b.step(old(cpu));
              && why == o.why && cpu == o.cpu && ran == old(ran) + o.ran
              && exposed == (old(exposed) || Exposed(Armed(), b.pc(old(cpu)), b.due(old(cpu))))
    {
      var o := b.step(cpu);
      Note(cpu, o);
      cpu, why := o.cpu, o.why;
    }

    /** A run first drops the chained exits if it was asked to. */
    method OpsRun(budget: nat) returns (why: Reason, n: nat)
      modifies this`cpu, this`ran, this`exposed, this`links, this`unchainAsked
      ensures var o := b.run(old(cpu), budget, old(links && !unchainAsked));
              && why == o.why && n == o.retired && cpu == o.cpu && ran == old(ran) + o.ran
              && exposed == (old(exposed) || Exposed(Armed(), b.pc(old(cpu)), b.due(old(cpu))))
              && links == (old(links && !unchainAsked) || o.formed)
      ensures !unchainAsked
    {
      if unchainAsked {
        unchainAsked, links := false, false;
      }
      var o := b.run(cpu, budget, links);
      Note(cpu, o);
      cpu, why, n, links := o.cpu, o.why, o.retired, links || o.formed;
    }

    /** Stops a running guest and tells the client, once. */
    method StopAndTell()
      modifies this`halted, this`replies
      ensures halted && replies == old(replies) + 1
    {
      halted := true;
      replies := replies + 1;
    }

    /** The exits as the next run will find them. */
    ghost predicate Linked()
      reads this
    {
      links && !unchainAsked
    }

    /** One round of the breakpoint loop; the first one asks for the links to be undone. */
    method Advance() returns (why: Reason, n: nat)
      requires Valid()
      modifies this`cpu, this`ran, this`exposed, this`links, this`unchainAsked, this`unchained
      ensures unchained && (Stale() ==> old(Stale()))
      ensures var o := Round(b, Armed(), old(cpu), old(Stale()));
              && cpu == o.cpu && why == o.why && n == o.retired && ran == old(ran) + o.ran
              && exposed == (old(exposed) || Exposed(Armed(), b.pc(old(cpu)), b.due(old(cpu))))
              && Stale() == (old(Stale()) || o.formed)
    {
      var pc := b.pc(cpu);
      if !unchained {
        unchainAsked := true;
        unchained := true;
      }
      var near := BreakNear(pc);
      if near {
        why := OpsStep();
        n := 1;
      } else {
        why, n := OpsRun(1);
      }
    }

    /** The breakpoint loop makes exactly the trip, and tells the client once if it stopped. */
    method RunToBreak(budget: nat) returns (why: Reason, retired: nat)
      requires Valid() && !halted
      modifies this`cpu, this`ran, this`exposed, this`links, this`unchainAsked, this`unchained
      modifies this`halted, this`replies
      ensures Valid() && (Stale() ==> old(Stale()))
      ensures var t := Chase(b, Armed(), old(cpu), old(Stale()), budget);
              && cpu == t.cpu && why == t.why && ran == old(ran) + t.ran && halted == t.halted
              && exposed == (old(exposed) || t.exposed) && retired == t.count
      ensures budget > 0 ==> unchained
      ensures replies == old(replies) + (if halted then 1 else 0)
    {
      hide ArmedIn, Distinct, StepsOne, RunsOneBlock, Round, Chase, Exposed;
      retired := 0;
      ghost var armed, before, already := Armed(), ran, exposed;
      ghost var goal := Chase(b, armed, cpu, Stale(), budget);
      ghost var done := Sofar([], false, false, 0);
      while retired < budget
        invariant Valid() && !halted && replies == old(replies)
        invariant (retired > 0 ==> unchained) && Armed() == armed && (Stale() ==> old(Stale()))
        invariant ran == before + done.ran && exposed == (already || done.exposed) && retired == done.count
        invariant Continues(goal, done, Chase(b, armed, cpu, Stale(), budget - retired))
      {
        ghost var o := Round(b, armed, cpu, Stale());
        ContinuesRound(b, armed, cpu, Stale(), budget - retired, goal, done);
        done := DoneAfter(b, armed, cpu, o, done);
        var n;
        why, n := Advance();
        assert ran == before + done.ran;
        retired := retired + n;
        if why != Budget {
          StopAndTell();
          return;
        }
        var at, k := BreakFind(b.pc(cpu));
        if at {
          StopAndTell();
          return Budget, retired;
        }
        if n == 0 {
          return Budget, retired;
        }
      }
      ChaseSpent(b, armed, cpu, Stale(), budget - retired);
      return Budget, retired;
    }

    /** A trip with the links undone keeps what the client was promised. */
    lemma TripKeeps(cpu0: S, ran0: seq<u32>, exposed0: bool, budget: nat)
      requires StepsOne(b) && RunsOneBlock(b)
      requires Over(Armed(), from, ran0) ==> exposed0
      requires b.pc(cpu0) in Armed() ==> ran0 == [] && b.pc(cpu0) == from
      requires var t := Chase(b, Armed(), cpu0, false, budget);
               cpu == t.cpu && ran == ran0 + t.ran && halted == t.halted && exposed == (exposed0 || t.exposed)
      ensures Kept()
    {
      ChaseSafe(b, Armed(), cpu0, budget);
      var t := Chase(b, Armed(), cpu0, false, budget);
      if budget == 0 {
        ChaseSpent(b, Armed(), cpu0, false, budget);
        assert ran0 + [] == ran0;
      }
      hide Chase, StepsOne, RunsOneBlock, ArmedIn;
      if !exposed {
        if b.pc(cpu0) in Armed() {
          assert [] + t.ran == t.ran;
        } else {
          OverAppend(Armed(), from, ran0, t.ran, b.pc(cpu0));
        }
      }
    }

    /** A single step likewise. */
    lemma StepKeeps(cpu0: S, ran0: seq<u32>, exposed0: bool)
      requires StepsOne(b) && halted
      requires Over(Armed(), from, ran0) ==> exposed0
      requires b.pc(cpu0) in Armed() ==> ran0 == [] && b.pc(cpu0) == from
      requires ran == ran0 + b.step(cpu0).ran && exposed == (exposed0 || Exposed(Armed(), b.pc(cpu0), b.due(cpu0)))
      ensures Kept()
    {
      var o := b.step(cpu0);
      assert !Exposed(Armed(), b.pc(cpu0), b.due(cpu0)) ==> !Over(Armed(), b.pc(cpu0), o.ran);
      hide ArmedIn, StepsOne;
      if !exposed {
        if b.pc(cpu0) in Armed() {
          assert [] + o.ran == o.ran;
        } else {
          OverAppend(Armed(), from, ran0, o.ran, b.pc(cpu0));
        }
      }
    }

    /** Runs one budget's worth: nothing while halted, one instruction for a step, else to a breakpoint. */
    method Run(budget: nat) returns (why: Reason, retired: nat)
      requires Valid()
      modifies this
      ensures Valid() && (Stale() ==> old(Stale())) && attached == old(attached) && from == old(from)
      ensures old(halted) ==>
                && halted && cpu == old(cpu) && ran == old(ran)
                && replies == old(replies) && exposed == old(exposed) && retired == 0
      ensures replies == old(replies) + (if halted && !old(halted) then 1 else 0)
      ensures old(!halted && stepping) ==>
                var o := b.step(old(cpu));
                && halted && cpu == o.cpu && ran == old(ran) + o.ran && why == o.why && retired == 1
                && exposed == (old(exposed) || Exposed(Armed(), b.pc(old(cpu)), b.due(old(cpu))))
      ensures old(!halted && !stepping) && Armed() == {} ==>
                var o := b.run(old(cpu), budget, old(Linked()));
                && cpu == o.cpu && why == o.why && ran == old(ran) + o.ran && (halted <==> o.why != Budget)
                && retired == o.retired
      ensures old(!halted && !stepping) && Armed() != {} ==>
                var t := Chase(b, Armed(), old(cpu), old(Stale()), budget);
                && cpu == t.cpu && why == t.why && ran == old(ran) + t.ran && halted == t.halted
                && exposed == (old(exposed) || t.exposed) && retired == t.count
      ensures old(!halted && !stepping) && Armed() != {} && budget > 0 ==> unchained
      ensures old(!Stale() && Kept()) ==> Kept()
    {
      hide StepsOne, RunsOneBlock, Chase, Distinct, Over, ArmedIn, Exposed;
      if halted {
        return Budget, 0;
      }
      if stepping {
        why := OpsStep();
        retired := 1;
        stepping := false;
        StopAndTell();
        if old(Kept()) {
          StepKeeps(old(cpu), old(ran), old(exposed));
        }
        return;
      }
      var any := BreakAny();
      if !any {
        unchained := false;
        why, retired := OpsRun(budget);
        if why != Budget {
          StopAndTell();
        }
        NothingArmed();
        return;
      }
      why, retired := RunToBreak(budget);
      if old(!Stale() && Kept()) {
        TripKeeps(old(cpu), old(ran), old(exposed), budget);
      }
    }

    lemma NothingArmed()
      ensures Armed() == {} ==> Kept()
    {
    }

    // ---- what a client and the platform do between runs ----

    /** A resume packet: `c`, `s` or vCont, with the address `c` and `s` may carry. It sends nothing. */
    method Resume(step: bool, at: Option<u32>)
      requires Valid()
      modifies this`cpu, this`stepping, this`halted, this`from, this`ran, this`exposed
      ensures Valid() && Kept() && !halted && stepping == step && from == b.pc(cpu) && ran == [] && !exposed
      ensures cpu == if at.Some? then b.setPc(old(cpu), at.value) else old(cpu)
      ensures Stale() <==> old(Stale())
    {
      if at.Some? {
        cpu := b.setPc(cpu, at.value);
      }
      stepping, halted := step, false;
      from, ran, exposed := b.pc(cpu), [], false;
    }

    /** Ctrl-C stops the guest and always answers. */
    method Interrupt()
      requires Valid()
      modifies this`halted, this`stepping, this`replies
      ensures Valid() && halted && !stepping && replies == old(replies) + 1
      ensures old(Kept()) ==> Kept()
    {
      halted, stepping := true, false;
      replies := replies + 1;
    }

    /** A breakpoint packet starts a new epoch, like any packet. */
    method SetBreak(addr: u32, kind: u32, insert: bool) returns (ok: bool)
      requires Valid()
      modifies this`from, this`ran, this`exposed, brk
      ensures Valid() && Kept() && from == b.pc(cpu) && ran == [] && !exposed
      ensures Armed() == if !insert then old(Armed()) - {addr} else if ok then old(Armed()) + {addr} else old(Armed())
      ensures ok <==> !insert || addr in old(Armed()) || |old(Armed())| < MAX_BREAK
    {
      from, ran, exposed := b.pc(cpu), [], false;
      ok := true;
      if insert {
        ok := BreakAdd(addr, kind);
      } else {
        BreakDel(addr);
      }
    }

    method Attach()
      requires Valid()
      modifies this`attached, this`halted, this`stepping
      ensures Valid() && attached && halted && !stepping
      ensures old(Kept()) ==> Kept()
    {
      attached, halted, stepping := true, true, false;
    }

    /** Detaching resumes the guest and forgets the breakpoints; `unchained` stays as it was. */
    method Detach()
      requires Valid()
      modifies this`attached, this`halted, this`stepping, brk
      ensures Valid() && Kept() && Armed() == {} && !attached && !halted && !stepping
    {
      attached, halted, stepping := false, false, false;
      forall i | 0 <= i < MAX_BREAK {
        brk[i] := brk[i].(used := false);
      }
      assert Armed() == {};
    }

    /** With no client the platform runs the backend itself, past the stub. */
    method RunOutside(budget: nat)
      requires Valid() && !attached
      modifies this`cpu, this`ran, this`exposed, this`links, this`unchainAsked
      ensures Valid()
      ensures Armed() == {} ==> Kept()
      ensures var o := b.run(old(cpu), budget, old(Linked())); cpu == o.cpu && links == (old(Linked()) || o.formed)
      ensures !unchainAsked && unchained == old(unchained)
    {
      var why, n := OpsRun(budget);
    }
  }

  // ---- sessions ----

  datatype Command =
    | RunCall(budget: nat)
    | ResumePacket(step: bool, at: Option<u32>)
    | CtrlC
    | BreakPacket(addr: u32, kind: u32, insert: bool)
    | AttachCall
    | DetachCall
    | OutsideRun(budget: nat)

  /** One command of a session: whether the guest was stopped before it and after, and the stop replies it sent. */
  datatype Entry = Entry(cmd: Command, before: bool, after: bool, sent: nat)

  /**
   * What each command does to the guest and says: a run that stops it sends one reply and any other
   * none, a run while stopped leaves it so, Ctrl-C stops it and sends one, and nothing else replies.
   */
  predicate Answers(e: Entry) {
    match e.cmd
    case RunCall(_) => (e.before ==> e.after) && e.sent == if !e.before && e.after then 1 else 0
    case ResumePacket(_, _) => !e.after && e.sent == 0
    case CtrlC => e.after && e.sent == 1
    case BreakPacket(_, _, _) => e.after == e.before && e.sent == 0
    case AttachCall => e.after && e.sent == 0
    case DetachCall => !e.after && e.sent == 0
    case OutsideRun(_) => e.after == e.before && e.sent == 0
  }

  /** The commands in order, each starting where the last left the guest and answered as it should be. */
  predicate Answered(cmds: seq<Command>, trace: seq<Entry>, first: bool, last: bool) {
    && |trace| == |cmds| && (forall i :: 0 <= i < |trace| ==> trace[i].cmd == cmds[i] && Answers(trace[i]))
    && (forall i :: 1 <= i < |trace| ==> trace[i].before == trace[i - 1].after)
    && (if trace == [] then first == last else trace[0].before == first && trace[|trace| - 1].after == last)
  }

  function Sent(trace: seq<Entry>): nat {
    if trace == [] then 0 else Sent(trace[..|trace| - 1]) + trace[|trace| - 1].sent
  }

  lemma AnsweredMore(cmds: seq<Command>, trace: seq<Entry>, first: bool, e: Entry)
    requires Answered(cmds, trace, first, e.before) && Answers(e)
    ensures Answered(cmds + [e.cmd], trace + [e], first, e.after) && Sent(trace + [e]) == Sent(trace) + e.sent
  {
    assert (trace + [e])[..|trace|] == trace;
  }

  /** One command, and whether a run past the stub has spoiled the links for a client. */
  method Obey<S(!new)>(stub: Stub<S>, cmd: Command) returns (clean: bool)
    requires stub.Valid()
    modifies stub, stub.brk
    ensures stub.Valid() && stub.replies >= old(stub.replies)
    ensures Answers(Entry(cmd, old(stub.halted), stub.halted, stub.replies - old(stub.replies)))
    ensures old(!stub.Stale() && stub.Kept()) && clean ==> stub.Kept() && !stub.Stale()
    ensures !cmd.OutsideRun? ==> clean
  {
    hide ArmedIn, Distinct, StepsOne, RunsOneBlock, Chase, Over, Exposed;
    clean := true;
    match cmd {
      case RunCall(budget) =>
        var why, n := stub.Run(budget);
      case ResumePacket(step, at) =>
        stub.Resume(step, at);
      case CtrlC =>
        stub.Interrupt();
      case BreakPacket(addr, kind, insert) =>
        var ok := stub.SetBreak(addr, kind, insert);
      case AttachCall =>
        stub.Attach();
      case DetachCall =>
        stub.Detach();
      case OutsideRun(budget) =>
        if !stub.attached {
          var any := stub.BreakAny();
          clean := !any && !stub.unchained;
          stub.RunOutside(budget);
        }
    }
  }

  /**
   * Any interleaving of packets, run calls and runs past the stub. Every stop by run control or
   * Ctrl-C is answered once, and nothing else is. Breakpoints are kept while `clean`: no run past
   * the stub came while a breakpoint was set or the stub took the links for undone.
   */
  method Session<S(!new)>(stub: Stub<S>, cmds: seq<Command>) returns (clean: bool, ghost trace: seq<Entry>)
    requires stub.Valid()
    modifies stub, stub.brk
    ensures stub.Valid()
    ensures old(!stub.Stale() && stub.Kept()) && clean ==> stub.Kept() && !stub.Stale()
    ensures (forall i :: 0 <= i < |cmds| ==> !cmds[i].OutsideRun?) ==> clean
    ensures Answered(cmds, trace, old(stub.halted), stub.halted) && stub.replies == old(stub.replies) + Sent(trace)
  {
    hide ArmedIn, Distinct, StepsOne, RunsOneBlock, Chase, Answers;
    clean, trace := true, [];
    for i := 0 to |cmds|
      invariant stub.Valid()
      invariant old(!stub.Stale() && stub.Kept()) && clean ==> stub.Kept() && !stub.Stale()
      invariant (forall j :: 0 <= j < i ==> !cmds[j].OutsideRun?) ==> clean
      invariant Answered(cmds[..i], trace, old(stub.halted), stub.halted)
      invariant stub.replies == old(stub.replies) + Sent(trace)
    {
      hide Answered, Sent;
      hide Stub.Kept;
      ghost var was, sent := stub.halted, stub.replies;
      var ok := Obey(stub, cmds[i]);
      ghost var e := Entry(cmds[i], was, stub.halted, stub.replies - sent);
      AnsweredMore(cmds[..i], trace, old(stub.halted), e);
      assert cmds[..i + 1] == cmds[..i] + [cmds[i]];
      trace := trace + [e];
      clean := clean && ok;
    }
    assert cmds[..|cmds|] == cmds;
  }

  /** A guest that loops at 0x100, and whose chained block goes on through `far`. */
  function Looping(far: u32): Backend<u32> {
    Backend(
      s => s,
      (s, pc) => pc,
      s => None,
      s => Outcome(0x100, Budget, 1, [s], false),
      (s, n, linked) =>
        if linked then Outcome(0x100, Budget, 2, [s, far], false) else Outcome(0x100, Budget, 1, [s], n != 1))
  }

  lemma LoopingFacts(far: u32)
    requires far >= 0x100 + BREAK_WINDOW
    ensures StepsOne(Looping(far)) && RunsOneBlock(Looping(far))
    ensures Looping(far).run(0x100, 100, false) == Outcome(0x100, Budget, 1, [0x100], true)
    ensures Chase(Looping(far), {far}, 0x100, false, 1) == Trip(0x100, Budget, [0x100], false, false, false, 1, [0x100])
    ensures Chase(Looping(far), {far}, 0x100, true, 1) ==
            Trip(0x100, Budget, [0x100, far], false, false, false, 2, [0x100, far])
  {
    var b := Looping(far);
    assert !Near({far}, 0x100);
    assert Chase(b, {far}, 0x100, false, 0) == Unmoved(0x100);
    assert Chase(b, {far}, 0x100, true, -1) == Unmoved(0x100);
  }

  /** A client attaches, sets its first breakpoint and continues. */
  method Arm<S(!new)>(stub: Stub<S>, at: u32)
    requires stub.Valid() && stub.Armed() == {}
    modifies stub, stub.brk
    ensures stub.Valid() && stub.Armed() == {at} && stub.attached && !stub.halted && !stub.stepping
    ensures stub.cpu == old(stub.cpu) && stub.from == stub.b.pc(stub.cpu) && stub.ran == [] && !stub.exposed
    ensures stub.Stale() == old(stub.Stale())
  {
    hide ArmedIn, Distinct, StepsOne, RunsOneBlock, Over;
    hide Stub.Kept;
    stub.Attach();
    assert stub.Armed() == {};
    var ok := stub.SetBreak(at, 4, true);
    stub.Resume(false, None);
  }

  /** And is given one round. */
  method OneClient(stub: Stub<u32>, far: u32)
    requires stub.Valid() && stub.b == Looping(far) && stub.cpu == 0x100 && stub.Armed() == {} &&
             far >= 0x100 + BREAK_WINDOW
    modifies stub, stub.brk
    ensures stub.Valid() && stub.cpu == 0x100 && stub.Armed() == {far} && stub.attached && !stub.halted &&
            stub.unchained
    ensures stub.Stale() ==> old(stub.Stale())
    ensures !stub.exposed && stub.ran == if old(stub.Stale()) then [0x100, far] else [0x100]
  {
    LoopingFacts(far);
    hide ArmedIn, Distinct, StepsOne, RunsOneBlock, Chase, Looping, Over, Exposed;
    hide Stub.Kept;
    Arm(stub, far);
    var why, n := stub.Run(1);
  }

  /**
   * The clean condition is needed: detaching leaves `unchained` set, so links formed while no client
   * is there are not undone for the next one, and its guest runs straight over the breakpoint.
   */
  method StaleLinksMissBreakpoint(far: u32) returns (stub: Stub<u32>)
    requires far >= 0x100 + BREAK_WINDOW
    ensures stub.Valid() && stub.attached && !stub.halted
    ensures far in stub.Armed() && stub.ran == [0x100, far] && !stub.exposed && !stub.Kept()
  {
    LoopingFacts(far);
    hide ArmedIn, Distinct, StepsOne, RunsOneBlock, Chase, Looping;
    stub := new Stub(Looping(far), 0x100);
    OneClient(stub, far);
    stub.Detach();
    stub.RunOutside(100);
    OneClient(stub, far);
    assert stub.ran[1] == far;
  }

  /** A guest at 0x100 with an exception due, whose handler's first instruction is at `handler`. */
  function Interrupted(handler: u32): Backend<u32> {
    Backend(
      s => s,
      (s, pc) => pc,
      s => if s == 0x100 then Some(handler) else None,
      s => if s == 0x100 then Outcome(0x200, Budget, 1, [handler], false) else Outcome(s, Budget, 1, [s], false),
      (s, n, linked) =>
        if s == 0x100 then Outcome(0x200, Budget, 1, [handler], false) else Outcome(s, Budget, 1, [s], false))
  }

  lemma InterruptedFacts(handler: u32)
    requires handler >= 0x100 + BREAK_WINDOW
    ensures StepsOne(Interrupted(handler)) && RunsOneBlock(Interrupted(handler))
    ensures Interrupted(handler).pc(0x100) == 0x100
    ensures Chase(Interrupted(handler), {handler}, 0x100, false, 1) ==
            Trip(0x200, Budget, [handler], false, true, true, 1, [handler])
  {
    var b := Interrupted(handler);
    assert !Near({handler}, 0x100);
    var o := b.run(0x100, 1, false);
    assert o.ran[0] in {handler};
    assert Chase(b, {handler}, 0x200, false, 0) == Unmoved(0x200);
  }

  /**
   * A breakpoint on a handler's first instruction is run over when the exception is taken inside a
   * call: the call goes on at the handler, and the stub looks at the pc only once it is back.
   */
  method HandlerMissesBreakpoint(handler: u32) returns (stub: Stub<u32>)
    requires handler >= 0x100 + BREAK_WINDOW
    ensures stub.Valid() && stub.attached && !stub.halted && !stub.Stale()
    ensures handler in stub.Armed() && stub.ran == [handler] && stub.from != handler && stub.exposed
  {
    InterruptedFacts(handler);
    hide ArmedIn, Distinct, StepsOne, RunsOneBlock, Chase, Interrupted, Over, Exposed;
    hide Stub.Kept;
    stub := new Stub(Interrupted(handler), 0x100);
    Arm(stub, handler);
    var why, n := stub.Run(1);
  }
}
