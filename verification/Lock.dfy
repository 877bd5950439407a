/**
 * The recursive owner spinlock as the steps its threads interleave: each step reads or writes the
 * shared owner word or the shared depth at most once, and any thread may go next.
 */
module Lock {
  import opened Words

  /** Where a thread stands inside emu_lock or emu_unlock. */
  datatype Pc =
    | Idle
    | LoadOwner
    | BumpRead | BumpWrite(bumped: nat)
    | Swap
    | SetOne
    | DropRead | DropWrite(dropped: nat)
    | Release

  /** `nest` counts the locks a thread has taken and not begun to give back. */
  datatype Thread = Thread(pc: Pc, nest: nat)

  datatype State = State(owner: Option<nat>, depth: nat, threads: seq<Thread>)

  /** A call, or the next step of the one in progress; a weak compare-exchange may fail for no reason. */
  datatype Action = CallLock | CallUnlock | Go(spurious: bool)

  datatype Move = Move(who: nat, what: Action)

  datatype Event = Entered(who: nat) | Left(who: nat)

  /** Calls come between calls, and an unlock only where there is a lock to give back. */
  predicate Enabled(s: State, m: Move) {
    m.who < |s.threads| &&
    var t := s.threads[m.who];
    match m.what
    case CallLock => t.pc.Idle?
    case CallUnlock => t.pc.Idle? && t.nest > 0
    case Go(_) => !t.pc.Idle?
  }

  function With(s: State, who: nat, t: Thread): State
    requires who < |s.threads|
  {
    s.(threads := s.threads[who := t])
  }

  function Advance(s: State, who: nat, spurious: bool): State
    requires who < |s.threads| && !s.threads[who].pc.Idle?
  {
    var t := s.threads[who];
    match t.pc
    case LoadOwner => With(s, who, t.(pc := if s.owner == Some(who) then BumpRead else Swap))
    case BumpRead => With(s, who, t.(pc := BumpWrite((s.depth + 1) % TOP)))
    case BumpWrite(v) => With(s, who, Thread(Idle, t.nest + 1)).(depth := v)
    case Swap =>
      if s.owner.None? && !spurious then With(s, who, t.(pc := SetOne)).(owner := Some(who)) else s
    case SetOne => With(s, who, Thread(Idle, t.nest + 1)).(depth := 1)
    case DropRead => With(s, who, t.(pc := DropWrite((s.depth + TOP - 1) % TOP)))
    case DropWrite(v) => With(s, who, t.(pc := if v == 0 then Release else Idle)).(depth := v)
    case Release => With(s, who, t.(pc := Idle)).(owner := None)
  }

  function Step(s: State, m: Move): State
    requires Enabled(s, m)
  {
    var t := s.threads[m.who];
    match m.what
    case CallLock => With(s, m.who, t.(pc := LoadOwner))
    case CallUnlock => With(s, m.who, Thread(DropRead, t.nest - 1))
    case Go(spurious) => Advance(s, m.who, spurious)
  }

  /** A lock is entered when emu_lock returns and left when emu_unlock is called. */
  function Emits(s: State, m: Move): seq<Event>
    requires Enabled(s, m)
  {
    if m.what.CallUnlock? then [Left(m.who)]
    else if m.what.Go? && (s.threads[m.who].pc.SetOne? || s.threads[m.who].pc.BumpWrite?) then [Entered(m.who)]
    else []
  }

  function Start(n: nat): State {
    State(None, 0, seq(n, i => Thread(Idle, 0)))
  }

  // ---- runs ----

  /** Every move can be made when its turn comes. */
  predicate Possible(n: nat, run: seq<Move>)
    decreases |run|, 0
  {
    run == [] || (Possible(n, run[..|run| - 1]) && Enabled(Reached(n, run[..|run| - 1]), run[|run| - 1]))
  }

  function Reached(n: nat, run: seq<Move>): State
    requires Possible(n, run)
    decreases |run|, 1
  {
    if run == [] then Start(n) else Step(Reached(n, run[..|run| - 1]), run[|run| - 1])
  }

  function Log(n: nat, run: seq<Move>): seq<Event>
    requires Possible(n, run)
    decreases |run|
  {
    if run == [] then [] else
      Log(n, run[..|run| - 1]) + Emits(Reached(n, run[..|run| - 1]), run[|run| - 1])
  }

  // ---- what every step keeps ----

  /** The thread has the lock, or is about to give it up for good. */
  predicate Has(t: Thread) {
    match t.pc
    case Idle => t.nest > 0
    case LoadOwner => t.nest > 0
    case Swap => t.nest > 0
    case _ => true
  }

  /** A nesting the 32-bit counter tells from unlocked. */
  predicate Told(nest: nat) {
    nest == 0 || nest % TOP != 0
  }

  /** An unlock to a nesting the counter does not tell from unlocked. */
  predicate Slips(s: State, m: Move)
    requires Enabled(s, m)
  {
    m.what.CallUnlock? && s.threads[m.who].nest > 1 && s.threads[m.who].nest % TOP == 1
  }

  /** What the holder's place says of the depth. */
  predicate DepthFits(t: Thread, depth: nat) {
    match t.pc
    case BumpWrite(v) => t.nest > 0 && depth == t.nest % TOP && v == (t.nest + 1) % TOP
    case SetOne => t.nest == 0 && depth == 0
    case DropRead => Told(t.nest) && depth == (t.nest + 1) % TOP
    case DropWrite(v) => Told(t.nest) && depth == (t.nest + 1) % TOP && v == t.nest % TOP
    case Release => t.nest == 0 && depth == 0
    case BumpRead => t.nest > 0 && depth == t.nest % TOP
    case Swap => false
    case _ => depth == t.nest % TOP
  }

  predicate DepthOk(s: State) {
    if s.owner.Some? then s.owner.value < |s.threads| && DepthFits(s.threads[s.owner.value], s.depth)
    else s.depth == 0
  }

  ghost predicate Inv(s: State) {
    (forall i :: 0 <= i < |s.threads| ==> (Has(s.threads[i]) <==> s.owner == Some(i))) && DepthOk(s)
  }

  lemma ModFacts(k: nat)
    ensures (k % TOP + 1) % TOP == (k + 1) % TOP
    ensures ((k + 1) % TOP + TOP - 1) % TOP == k % TOP
    ensures k > 0 ==> (k % TOP == 1 <==> (k - 1) % TOP == 0)
  {
  }

  lemma StepKeepsDepth(s: State, m: Move)
    requires Inv(s) && Enabled(s, m) && !Slips(s, m)
    ensures DepthOk(Step(s, m))
    ensures Has(Step(s, m).threads[m.who]) <==> Step(s, m).owner == Some(m.who)
  {
    var t := s.threads[m.who];
    assert Has(t) <==> s.owner == Some(m.who);
    if t.pc.BumpRead? || t.pc.DropRead? || t.pc.DropWrite? || m.what.CallUnlock? {
      ModFacts(t.nest);
    }
  }

  lemma StepKeeps(s: State, m: Move)
    requires Inv(s) && Enabled(s, m) && !Slips(s, m)
    ensures Inv(Step(s, m))
  {
    StepKeepsDepth(s, m);
    var s' := Step(s, m);
    assert Has(s.threads[m.who]) <==> s.owner == Some(m.who);
    forall i | 0 <= i < |s'.threads| && i != m.who
      ensures Has(s'.threads[i]) <==> s'.owner == Some(i)
    {
      assert s'.threads[i] == s.threads[i];
      hide Has, DepthOk;
    }
  }

  // ---- what that means for one step ----

  predicate Inside(s: State, i: nat)
    requires i < |s.threads|
  {
    s.threads[i].nest > 0
  }

  lemma OneInside(s: State, i: nat, j: nat)
    requires Inv(s) && i < |s.threads| && j < |s.threads| && Inside(s, i) && Inside(s, j)
    ensures i == j && s.owner == Some(i)
  {
    assert Has(s.threads[i]) && Has(s.threads[j]);
  }

  /** The steps that read or write the depth. */
  predicate Touches(s: State, m: Move)
    requires Enabled(s, m)
  {
    m.what.Go? && var pc := s.threads[m.who].pc; !pc.LoadOwner? && !pc.Swap? && !pc.Release?
  }

  lemma OwnerTouches(s: State, m: Move)
    requires Inv(s) && Enabled(s, m)
    ensures Touches(s, m) ==> s.owner == Some(m.who)
    ensures !Touches(s, m) ==> Step(s, m).depth == s.depth
  {
    assert Has(s.threads[m.who]) <==> s.owner == Some(m.who);
  }

  /** Outside the windows where it is being changed, the depth is the owner's nesting, as far as 32 bits tell. */
  lemma DepthIsNesting(s: State, i: nat)
    requires Inv(s) && i < |s.threads| && s.owner == Some(i)
    requires s.threads[i].pc.Idle? || s.threads[i].pc.LoadOwner?
    ensures s.threads[i].nest > 0 && s.depth == s.threads[i].nest % TOP
  {
    assert Has(s.threads[i]);
  }

  /** The lock is freed by its owner's last step of the outermost unlock, and by nothing else. */
  lemma FreedAtOutermost(s: State, m: Move)
    requires Inv(s) && Enabled(s, m)
    ensures s.owner.Some? && Step(s, m).owner.None? <==> m.what.Go? && s.threads[m.who].pc.Release?
    ensures m.what.Go? && s.threads[m.who].pc.Release? ==> s.owner == Some(m.who) && s.threads[m.who].nest == 0
    ensures m.what.Go? && s.threads[m.who].pc.DropWrite? ==>
              Step(s, m).threads[m.who].pc == if s.threads[m.who].nest == 0 then Release else Idle
  {
    assert Has(s.threads[m.who]) <==> s.owner == Some(m.who);
    ModFacts(s.threads[m.who].nest);
  }

  // ---- every run ----

  /** No unlock is to a nesting the counter does not tell from unlocked. */
  predicate NeverSlips(n: nat, run: seq<Move>)
    requires Possible(n, run)
    decreases |run|
  {
    run == [] || (NeverSlips(n, run[..|run| - 1]) && !Slips(Reached(n, run[..|run| - 1]), run[|run| - 1]))
  }

  /** No thread is nested deeper than 2^32 when it unlocks. */
  predicate NeverDeep(n: nat, run: seq<Move>)
    requires Possible(n, run)
    decreases |run|
  {
    run == [] || (NeverDeep(n, run[..|run| - 1]) &&
    var s, m := Reached(n, run[..|run| - 1]), run[|run| - 1]; m.what.CallUnlock? ==> s.threads[m.who].nest <= TOP)
  }

  /** Which is enough. */
  lemma {:induction false} NeverDeepNeverSlips(n: nat, run: seq<Move>)
    requires Possible(n, run) && NeverDeep(n, run)
    ensures NeverSlips(n, run)
    decreases |run|
  {
    if run != [] {
      NeverDeepNeverSlips(n, run[..|run| - 1]);
    }
  }

  /** What a recursive mutex is: held by one, as many times as it was entered. */
  datatype Mutex = Free | Held(who: nat, count: nat)

  function Apply(m: Mutex, e: Event): Option<Mutex> {
    match e
    case Entered(t) =>
      if m.Free? then Some(Held(t, 1)) else if m.who == t then Some(Held(t, m.count + 1)) else None
    case Left(t) =>
      if m.Free? || m.who != t then None else if m.count <= 1 then Some(Free) else Some(Held(t, m.count - 1))
  }

  /** The events in order, or None where one is not allowed. */
  function Replay(log: seq<Event>): Option<Mutex> {
    if log == [] then Some(Free) else
      var before := Replay(log[..|log| - 1]);
      if before.None? then None else Apply(before.value, log[|log| - 1])
  }

  ghost predicate Matches(s: State, m: Mutex) {
    && (m.Held? ==> m.who < |s.threads| && m.count > 0)
    && forall i :: 0 <= i < |s.threads| ==> s.threads[i].nest == if m.Held? && m.who == i then m.count else 0
  }

  /** Each step is a step of the mutex, or nothing to it. */
  lemma StepMatches(s: State, m: Move, before: Mutex)
    requires Inv(s) && Enabled(s, m) && Matches(s, before)
    ensures Emits(s, m) == [] ==> Matches(Step(s, m), before)
    ensures Emits(s, m) != [] ==>
              |Emits(s, m)| == 1 && Apply(before, Emits(s, m)[0]).Some? &&
              Matches(Step(s, m), Apply(before, Emits(s, m)[0]).value)
  {
    assert Has(s.threads[m.who]) <==> s.owner == Some(m.who);
    if before.Held? {
      assert Has(s.threads[before.who]) <==> s.owner == Some(before.who);
    }
  }

  lemma ReplayOne(log: seq<Event>, e: Event)
    requires Replay(log).Some?
    ensures Replay(log + [e]) == Apply(Replay(log).value, e)
  {
    assert (log + [e])[..|log|] == log;
  }

  /** Over every interleaving the lock is a recursive mutex, and its fields keep their meaning. */
  lemma {:induction false} EveryRun(n: nat, run: seq<Move>)
    requires Possible(n, run) && NeverSlips(n, run)
    ensures Inv(Reached(n, run))
    ensures Replay(Log(n, run)).Some? && Matches(Reached(n, run), Replay(Log(n, run)).value)
    decreases |run|
  {
    if run != [] {
      var before, last := run[..|run| - 1], run[|run| - 1];
      EveryRun(n, before);
      var s := Reached(n, before);
      StepKeeps(s, last);
      StepMatches(s, last, Replay(Log(n, before)).value);
      if Emits(s, last) != [] {
        ReplayOne(Log(n, before), Emits(s, last)[0]);
        assert Log(n, run) == Log(n, before) + [Emits(s, last)[0]];
      } else {
        assert Log(n, run) == Log(n, before);
      }
    }
  }

  /** At most one thread is inside, in every state any interleaving reaches. */
  lemma MutualExclusion(n: nat, run: seq<Move>, i: nat, j: nat)
    requires Possible(n, run) && NeverSlips(n, run)
    requires i < |Reached(n, run).threads| && j < |Reached(n, run).threads|
    requires Inside(Reached(n, run), i) && Inside(Reached(n, run), j)
    ensures i == j
  {
    EveryRun(n, run);
    OneInside(Reached(n, run), i, j);
  }

  // ---- a thread left alone ----

  /** Inside emu_lock, and how many steps from its return unless a compare-exchange fails. */
  predicate Locking(pc: Pc) {
    pc.LoadOwner? || pc.BumpRead? || pc.BumpWrite? || pc.Swap? || pc.SetOne?
  }

  function Remaining(pc: Pc): nat {
    match pc
    case LoadOwner => 3
    case BumpRead => 2
    case Swap => 2
    case BumpWrite(_) => 1
    case SetOne => 1
    case _ => 0
  }

  /** The thread's own steps, one for each flag, until its call returns; a flag says if an exchange fails unasked. */
  function Solo(s: State, i: nat, flags: seq<bool>): (r: State)
    requires i < |s.threads|
    ensures |r.threads| == |s.threads|
    decreases |flags|
  {
    if flags == [] || s.threads[i].pc.Idle? then s else Solo(Advance(s, i, flags[0]), i, flags[1..])
  }

  /** How many of the steps may not fail. */
  function Firm(flags: seq<bool>): nat {
    if flags == [] then 0 else (if flags[0] then 0 else 1) + Firm(flags[1..])
  }

  /** A step of emu_lock where the lock is free or the thread's own: one nearer to its return, or a failed exchange. */
  lemma SoloStep(s: State, i: nat, spurious: bool)
    requires Inv(s) && i < |s.threads| && Locking(s.threads[i].pc) && (s.owner.None? || s.owner == Some(i))
    ensures var r := Advance(s, i, spurious);
            && Inv(r) && (r.owner.None? || r.owner == Some(i))
            && r.threads == s.threads[i := r.threads[i]]
            && ((r == s && spurious) || Remaining(r.threads[i].pc) == Remaining(s.threads[i].pc) - 1)
            && (Remaining(r.threads[i].pc) > 0 ==> Locking(r.threads[i].pc) && r.threads[i].nest == s.threads[i].nest)
            && (Remaining(r.threads[i].pc) == 0 ==>
                  r.threads[i] == Thread(Idle, s.threads[i].nest + 1) && r.owner == Some(i))
  {
    var m := Move(i, Go(spurious));
    assert Step(s, m) == Advance(s, i, spurious);
    StepKeeps(s, m);
    assert Has(s.threads[i]) <==> s.owner == Some(i);
  }

  /** Left alone with the lock free or its own, a thread in emu_lock returns with it, and nobody else has moved. */
  lemma {:induction false} LockReturns(s: State, i: nat, flags: seq<bool>)
    requires Inv(s) && i < |s.threads| && Locking(s.threads[i].pc) && (s.owner.None? || s.owner == Some(i))
    requires Firm(flags) >= Remaining(s.threads[i].pc)
    ensures var r := Solo(s, i, flags);
            r.owner == Some(i) && r.threads == s.threads[i := Thread(Idle, s.threads[i].nest + 1)]
    decreases |flags|
  {
    SoloStep(s, i, flags[0]);
    var next := Advance(s, i, flags[0]);
    assert Solo(s, i, flags) == Solo(next, i, flags[1..]);
    hide Inv, Advance;
    if Remaining(next.threads[i].pc) > 0 {
      LockReturns(next, i, flags[1..]);
    } else {
      assert Solo(next, i, flags[1..]) == next;
    }
  }

  /** With the lock another's it spins for ever. */
  lemma {:induction false} LockSpins(s: State, i: nat, flags: seq<bool>)
    requires i < |s.threads| && s.threads[i].pc == Swap && s.owner.Some?
    ensures Solo(s, i, flags) == s
    decreases |flags|
  {
    if flags != [] {
      LockSpins(s, i, flags[1..]);
    }
  }

  /**
   * From every state any interleaving reaches, a thread that calls emu_lock and is left alone returns if
   * and only if the lock is free or its own, whichever exchanges fail unasked as long as three steps do not.
   */
  lemma LockReturnsIff(n: nat, run: seq<Move>, i: nat, flags: seq<bool>)
    requires Possible(n, run) && NeverSlips(n, run) && Enabled(Reached(n, run), Move(i, CallLock)) && Firm(flags) >= 3
    ensures var s := Reached(n, run);
            var r := Solo(Step(s, Move(i, CallLock)), i, flags);
            && (r.threads[i].pc.Idle? <==> s.owner.None? || s.owner == Some(i))
            && (r.threads[i].pc.Idle? ==>
                  r.owner == Some(i) && r.threads == s.threads[i := Thread(Idle, s.threads[i].nest + 1)])
  {
    hide Possible, Reached, NeverSlips, Inv, Solo, Log, Replay, Matches;
    EveryRun(n, run);
    CallReturnsIff(Reached(n, run), i, flags);
  }

  lemma CallReturnsIff(s: State, i: nat, flags: seq<bool>)
    requires Inv(s) && Enabled(s, Move(i, CallLock)) && Firm(flags) >= 3
    ensures var r := Solo(Step(s, Move(i, CallLock)), i, flags);
            && (r.threads[i].pc.Idle? <==> s.owner.None? || s.owner == Some(i))
            && (r.threads[i].pc.Idle? ==>
                  r.owner == Some(i) && r.threads == s.threads[i := Thread(Idle, s.threads[i].nest + 1)])
  {
    hide Inv, Solo;
    StepKeeps(s, Move(i, CallLock));
    var called := Step(s, Move(i, CallLock));
    assert called == With(s, i, s.threads[i].(pc := LoadOwner));
    if s.owner.None? || s.owner == Some(i) {
      LockReturns(called, i, flags);
      assert called.threads[i := Thread(Idle, s.threads[i].nest + 1)] ==
             s.threads[i := Thread(Idle, s.threads[i].nest + 1)];
    } else {
      CallSpins(called, i, flags);
    }
  }

  lemma CallSpins(s: State, i: nat, flags: seq<bool>)
    requires i < |s.threads| && s.threads[i].pc == LoadOwner && s.owner.Some? && s.owner != Some(i) && flags != []
    ensures Solo(s, i, flags).threads[i].pc == Swap
  {
    LockSpins(Advance(s, i, flags[0]), i, flags[1..]);
  }

  /** An unlock made without a pause: the call, the two halves of the decrement, and what it does next. */
  function Unlocked(s: State, i: nat): (r: State)
    requires Enabled(s, Move(i, CallUnlock))
    ensures |r.threads| == |s.threads| && r.threads[i].nest == s.threads[i].nest - 1
  {
    var s3 := Step(Step(Step(s, Move(i, CallUnlock)), Move(i, Go(false))), Move(i, Go(false)));
    if s3.threads[i].pc.Idle? then s3 else Step(s3, Move(i, Go(false)))
  }

  /**
   * An unlock frees the lock if and only if the nesting is 1 modulo 2^32. So it frees one still to be
   * given back if and only if it slips.
   */
  lemma FreesIffOne(s: State, i: nat)
    requires Inv(s) && Enabled(s, Move(i, CallUnlock))
    ensures Unlocked(s, i).owner.None? <==> s.threads[i].nest % TOP == 1
    ensures Unlocked(s, i).owner.None? && Inside(Unlocked(s, i), i) <==> Slips(s, Move(i, CallUnlock))
  {
    assert Has(s.threads[i]) && s.owner == Some(i);
    var k := s.threads[i].nest;
    ModFacts(k);
    ModFacts(k - 1);
    assert s.depth == k % TOP;
  }

  /** One lock deeper than 2^32 and the next unlock frees it with 2^32 still to give back. */
  lemma TooDeep(s: State, i: nat)
    requires Inv(s) && i < |s.threads| && s.threads[i] == Thread(Idle, TOP + 1)
    ensures var go := Move(i, Go(false));
            var s1 := Step(s, Move(i, CallUnlock));
            var s2 := Step(s1, go);
            var s3 := Step(s2, go);
            Enabled(s3, go) && Step(s3, go).owner.None? && Inside(Step(s3, go), i)
  {
    assert Has(s.threads[i]);
    assert s.depth == 1;
  }

  // ---- and a run that gets there ----

  lemma OneMove(n: nat, run: seq<Move>, m: Move)
    requires Possible(n, run) && Enabled(Reached(n, run), m)
    ensures Possible(n, run + [m]) && Reached(n, run + [m]) == Step(Reached(n, run), m)
  {
    assert (run + [m])[..|run|] == run;
  }

  const GO := Move(0, Go(false))

  /** A lone thread that takes the lock `k` times and is then called no more. */
  function Locks(k: nat): seq<Move> {
    if k == 0 then [] else Locks(k - 1) + [Move(0, CallLock)] + [GO] + [GO] + [GO]
  }

  function Alone(k: nat): State {
    State(if k == 0 then None else Some(0), k % TOP, [Thread(Idle, k)])
  }

  /** The lone thread `i` steps into its next emu_lock, having taken the lock `k` times. */
  function Taking(k: nat, i: nat): State
    requires i <= 4
  {
    if i == 0 then Alone(k)
    else if i == 1 then Alone(k).(threads := [Thread(LoadOwner, k)])
    else if i == 4 then Alone(k + 1)
    else if k == 0 then
      if i == 2 then Alone(0).(threads := [Thread(Swap, 0)]) else State(Some(0), 0, [Thread(SetOne, 0)])
    else Alone(k).(threads := [Thread(if i == 2 then BumpRead else BumpWrite((k + 1) % TOP), k)])
  }

  lemma TakingStep(k: nat, i: nat)
    requires i < 4
    ensures var m := if i == 0 then Move(0, CallLock) else GO;
            Enabled(Taking(k, i), m) && Step(Taking(k, i), m) == Taking(k, i + 1)
  {
    ModFacts(k);
  }

  lemma LockOnce(run: seq<Move>, k: nat)
    requires Possible(1, run) && Reached(1, run) == Alone(k)
    ensures var more := run + [Move(0, CallLock)] + [GO] + [GO] + [GO];
            Possible(1, more) && Reached(1, more) == Alone(k + 1)
  {
    TakingStep(k, 0);
    TakingStep(k, 1);
    TakingStep(k, 2);
    TakingStep(k, 3);
    assert Taking(k, 0) == Alone(k) && Taking(k, 4) == Alone(k + 1);
    hide Possible, Reached, Step, Enabled, Taking, Alone;
    var one := run + [Move(0, CallLock)];
    OneMove(1, run, Move(0, CallLock));
    OneMove(1, one, GO);
    OneMove(1, one + [GO], GO);
    OneMove(1, one + [GO] + [GO], GO);
  }

  lemma NoLocks()
    ensures Locks(0) == [] && Possible(1, []) && Reached(1, []) == Alone(0)
  {
    assert Start(1).threads == [Thread(Idle, 0)];
  }

  lemma {:induction false} LocksReach(k: nat)
    ensures Possible(1, Locks(k)) && Reached(1, Locks(k)) == Alone(k)
  {
    hide Possible, Reached, Alone;
    if k == 0 {
      NoLocks();
    } else {
      LocksReach(k - 1);
      LockOnce(Locks(k - 1), k - 1);
      assert Locks(k) == Locks(k - 1) + [Move(0, CallLock)] + [GO] + [GO] + [GO];
      hide Locks;
    }
  }

  /** The lone thread `i` steps into its next emu_unlock, one lock too deep. */
  function Giving(i: nat): State
    requires i <= 4
  {
    State(if i == 4 then None else Some(0), if i < 3 then 1 else 0,
          [Thread(if i == 1 then DropRead else if i == 2 then DropWrite(0) else if i == 3 then Release else Idle,
                  if i == 0 then TOP + 1 else TOP)])
  }

  lemma GivingStep(i: nat)
    requires i < 4
    ensures var m := if i == 0 then Move(0, CallUnlock) else GO;
            Enabled(Giving(i), m) && Step(Giving(i), m) == Giving(i + 1)
  {
  }

  lemma AloneDeep(k: nat)
    requires k == TOP + 1
    ensures Alone(k) == Giving(0)
  {
  }

  lemma UnlockDeep(run: seq<Move>, k: nat) returns (more: seq<Move>)
    requires Possible(1, run) && Reached(1, run) == Alone(k) && k == TOP + 1
    ensures Possible(1, more) && Reached(1, more) == Giving(4)
  {
    hide Possible, Reached, Step, Enabled, Alone;
    AloneDeep(k);
    var last := Giving(4);
    GivingStep(0);
    GivingStep(1);
    GivingStep(2);
    GivingStep(3);
    hide Giving;
    var one := run + [Move(0, CallUnlock)];
    OneMove(1, run, Move(0, CallUnlock));
    OneMove(1, one, GO);
    OneMove(1, one + [GO], GO);
    OneMove(1, one + [GO] + [GO], GO);
    more := one + [GO] + [GO] + [GO];
  }

  /** So some run frees the lock with 2^32 unlocks still to come, once nesting passes 2^32. */
  lemma TooDeepIsReached() returns (run: seq<Move>)
    ensures Possible(1, run) && Reached(1, run).owner.None?
    ensures |Reached(1, run).threads| == 1 && Inside(Reached(1, run), 0)
  {
    hide Locks, Possible, Reached;
    var k: nat :| k == TOP + 1;
    LocksReach(k);
    run := UnlockDeep(Locks(k), k);
  }
}
