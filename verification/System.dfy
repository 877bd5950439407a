/**
 * The round-robin over cores. What a core does in its slice is the frontend's business and may reach
 * every other core, so it is any function of the whole system's state.
 */
module System {
  import opened Words

  datatype CoreState = Running | Wfi | Halted | Held

  datatype Status = Status(state: CoreState, wakeable: bool)

  /** The frontends: a core's status, and a slice of at most `quantum` instructions with how many it retired. */
  datatype Cores<!S> = Cores(count: nat, status: (S, nat) -> Status, run: (S, nat, u32) -> (S, u32))

  predicate Runnable<S>(cs: Cores<S>, s: S, i: nat) {
    var st := cs.status(s, i);
    st.state != Halted && st.state != Held && !(st.state == Wfi && !st.wakeable)
  }

  /** A round as far as core `n`: the state, the slices given in order, and the instructions retired. */
  datatype Progress<S> = Progress(state: S, ran: seq<nat>, retired: nat)

  function Round<S>(cs: Cores<S>, s: S, quantum: u32, n: nat): Progress<S> {
    if n == 0 then Progress(s, [], 0) else
      var p := Round(cs, s, quantum, n - 1);
      if !Runnable(cs, p.state, n - 1) then p else
        var r := cs.run(p.state, n - 1, quantum);
        Progress(r.0, p.ran + [n - 1], p.retired + r.1)
  }

  class Machine<S> {
    const cores: Cores<S>
    var state: S

    constructor (cores: Cores<S>, state: S)
      ensures this.cores == cores && this.state == state
    {
      this.cores, this.state := cores, state;
    }

    /** A core's turn: a slice exactly when it is runnable. */
    method Slice(i: nat, quantum: u32) returns (did: u32, live: bool)
      modifies this
      ensures live <==> Runnable(cores, old(state), i)
      ensures cores.status(old(state), i).state == Halted || cores.status(old(state), i).state == Held ==> !live
      ensures cores.status(old(state), i).state == Running ==> live
      ensures cores.status(old(state), i).state == Wfi ==> live == cores.status(old(state), i).wakeable
      ensures (state, did) == if live then cores.run(old(state), i, quantum) else (old(state), 0)
    {
      live := false;
      var st := cores.status(state, i);
      if st.state == Halted {
        return 0, false;
      }
      if st.state == Held {
        return 0, false;
      }
      if st.state == Wfi && !st.wakeable {
        return 0, false;
      }
      live := true;
      var r := cores.run(state, i, quantum);
      state, did := r.0, r.1;
    }

    /** One round: every core's turn in order, the total in 32 bits, idle when no core had a slice. */
    method Step(quantum: u32) returns (total: u32, idle: bool)
      modifies this
      ensures var p := Round(cores, old(state), quantum, cores.count);
              && state == p.state && total == p.retired % TOP
              && (idle <==> p.ran == [])
    {
      total, idle := 0, true;
      for i := 0 to cores.count
        invariant var p := Round(cores, old(state), quantum, i);
                  && state == p.state && total == p.retired % TOP
                  && (idle <==> p.ran == [])
      {
        ghost var p := Round(cores, old(state), quantum, i);
        var did, live := Slice(i, quantum);
        ModAdds(p.retired, did);
        total := Add32(total, did);
        idle := idle && !live;
      }
    }

    /** Rounds until one is idle or `limit` have been made; an idle one leaves a state no round leaves. */
    method RunUntilIdle(quantum: u32, limit: nat) returns (rounds: nat, idle: bool)
      modifies this
      ensures rounds <= limit && state == After(cores, old(state), quantum, rounds)
      ensures idle ==> forall later :: later >= rounds ==> After(cores, old(state), quantum, later) == state
      ensures !idle ==> rounds == limit
    {
      rounds, idle := 0, false;
      while rounds < limit && !idle
        invariant rounds <= limit && state == After(cores, old(state), quantum, rounds)
        invariant idle ==> forall i :: 0 <= i < cores.count ==> !Runnable(cores, state, i)
      {
        ghost var before := state;
        var total;
        total, idle := Step(quantum);
        IdleIff(cores, before, quantum, cores.count);
        if idle {
          RoundOfNone(cores, before, quantum, cores.count);
        }
        rounds := rounds + 1;
      }
      if idle {
        forall later | later >= rounds
          ensures After(cores, old(state), quantum, later) == state
        {
          StaysIdle(cores, old(state), quantum, rounds, later - rounds);
        }
      }
    }
  }

  lemma ModAdds(a: nat, b: u32)
    ensures Add32(a % TOP, b) == (a + b) % TOP
  {
    var q := a / TOP;
    if a % TOP + b >= TOP {
      assert a + b == (a % TOP + b - TOP) + (q + 1) * TOP;
    } else {
      assert a + b == (a % TOP + b) + q * TOP;
    }
  }

  // ---- what a round is ----

  /**
   * A core's slice in a round goes by its status at its turn alone: a halted or held core has none, a
   * parked one has one exactly when it can be woken, and a running one always has. No core has two.
   */
  lemma {:induction false} RanIffRunnable<S>(cs: Cores<S>, s: S, quantum: u32, n: nat, i: nat)
    requires i < n
    ensures i in Round(cs, s, quantum, n).ran <==> Runnable(cs, Round(cs, s, quantum, i).state, i)
    ensures var st, ran := cs.status(Round(cs, s, quantum, i).state, i), Round(cs, s, quantum, n).ran;
            && (st.state == Halted || st.state == Held ==> i !in ran)
            && (st.state == Wfi ==> (i in ran <==> st.wakeable))
            && (st.state == Running ==> i in ran)
  {
    RanBelow(cs, s, quantum, n - 1);
    if i < n - 1 {
      RanIffRunnable(cs, s, quantum, n - 1, i);
    }
  }

  predicate Rising(ran: seq<nat>) {
    forall j, k :: 0 <= j < k < |ran| ==> ran[j] < ran[k]
  }

  lemma {:induction false} RanBelow<S>(cs: Cores<S>, s: S, quantum: u32, n: nat)
    ensures Rising(Round(cs, s, quantum, n).ran)
    ensures forall i :: i in Round(cs, s, quantum, n).ran ==> i < n
  {
    if n > 0 {
      RanBelow(cs, s, quantum, n - 1);
      var before := Round(cs, s, quantum, n - 1).ran;
      forall j | 0 <= j < |before|
        ensures before[j] < n - 1
      {
        assert before[j] in before;
      }
    }
  }

  /** A round over cores none of which is runnable does nothing. */
  lemma {:induction false} RoundOfNone<S>(cs: Cores<S>, s: S, quantum: u32, n: nat)
    requires forall i :: 0 <= i < n ==> !Runnable(cs, s, i)
    ensures Round(cs, s, quantum, n) == Progress(s, [], 0)
  {
    if n > 0 {
      RoundOfNone(cs, s, quantum, n - 1);
    }
  }

  /** A round is idle exactly when no core was runnable as it began, wakes and releases notwithstanding. */
  lemma {:induction false} IdleIff<S>(cs: Cores<S>, s: S, quantum: u32, n: nat)
    ensures Round(cs, s, quantum, n).ran == [] <==> forall i :: 0 <= i < n ==> !Runnable(cs, s, i)
  {
    if n > 0 {
      IdleIff(cs, s, quantum, n - 1);
      if Round(cs, s, quantum, n - 1).ran == [] {
        RoundOfNone(cs, s, quantum, n - 1);
      }
    }
  }

  // ---- rounds ----

  function After<S>(cs: Cores<S>, s: S, quantum: u32, rounds: nat): S {
    if rounds == 0 then s else Round(cs, After(cs, s, quantum, rounds - 1), quantum, cs.count).state
  }

  /** Once a round is idle every later one retires nothing, runs no core and changes nothing. */
  lemma {:induction false} StaysIdle<S>(cs: Cores<S>, s: S, quantum: u32, rounds: nat, more: nat)
    requires forall i :: 0 <= i < cs.count ==> !Runnable(cs, After(cs, s, quantum, rounds), i)
    ensures After(cs, s, quantum, rounds + more) == After(cs, s, quantum, rounds)
    ensures Round(cs, After(cs, s, quantum, rounds + more), quantum, cs.count) ==
            Progress(After(cs, s, quantum, rounds), [], 0)
  {
    if more > 0 {
      StaysIdle(cs, s, quantum, rounds, more - 1);
    }
    RoundOfNone(cs, After(cs, s, quantum, rounds), quantum, cs.count);
  }
}
