/**
 * Linear-scan register allocation: which host register holds each temp, if any, and why running the
 * block out of those registers and the frame slots behind them gives what running it out of temps does.
 */
module IrAlloc {
  import opened Words
  import opened Ir
  import opened IrFlags
  import opened IrOpt
  import opened IrRewrite

  const NO_REG: nat := 0xFF
  const MAX_HOST_REGS: nat := 8
  const NO_POS: nat := 0xFFFF

  // ---- live intervals ----

  /** Where each temp is defined and last read; `last` is 0 for one never read. */
  ghost predicate Intervals(s: seq<Insn>, nt: nat, def: seq<nat>, last: seq<nat>) {
    && |def| == nt == |last|
    && (forall k :: 0 <= k < nt ==> def[k] == NO_POS || (def[k] < |s| && !s[def[k]].dead && s[def[k]].dst == k))
    && (forall d :: 0 <= d < |s| && !s[d].dead && s[d].dst < nt ==> def[s[d].dst] == d)
    && (forall k, j :: 0 <= k < nt && 0 <= j < |s| && Reads(s[j], k) > 0 ==> j <= last[k])
  }

  /** No interval is longer than it has to be: it ends at a reader. */
  ghost predicate Tight(s: seq<Insn>, last: seq<nat>) {
    forall k :: 0 <= k < |last| ==> last[k] == 0 || (last[k] < |s| && Reads(s[last[k]], k) > 0)
  }

  function Reached(last: seq<nat>, k: nat, i: nat): (r: seq<nat>)
    ensures |r| == |last| && forall j :: 0 <= j < |last| ==> r[j] == if j == k then i else last[j]
  {
    if k < |last| then last[k := i] else last
  }

  ghost predicate IntervalsUpto(s: seq<Insn>, i: nat, nt: nat, def: seq<nat>, last: seq<nat>)
    requires i <= |s|
  {
    && |def| == nt == |last|
    && (forall k :: 0 <= k < nt ==> def[k] == NO_POS || (def[k] < i && !s[def[k]].dead && s[def[k]].dst == k))
    && (forall d :: 0 <= d < i && !s[d].dead && s[d].dst < nt ==> def[s[d].dst] == d)
    && (forall k, j :: 0 <= k < nt && 0 <= j < i && Reads(s[j], k) > 0 ==> j <= last[k] < i)
    && (forall k :: 0 <= k < nt ==> last[k] <= i)
  }

  lemma IntervalsStep(s: seq<Insn>, i: nat, nt: nat, def: seq<nat>, last: seq<nat>)
    requires WellBuilt(s) && nt <= NONE && i < |s| && !s[i].dead && IntervalsUpto(s, i, nt, def, last)
    ensures var x := s[i];
            IntervalsUpto(s, i + 1, nt, Reached(def, x.dst, i), Reached(Reached(Reached(last, x.a, i), x.b, i), x.c, i))
  {
    forall d | 0 <= d < i && !s[d].dead && s[d].dst < nt
      ensures s[d].dst != s[i].dst
    {
      if s[d].dst == s[i].dst {
        OneDefinition(s, d, i);
      }
    }
  }

  lemma TightStep(s: seq<Insn>, i: nat, last: seq<nat>)
    requires i < |s| && !s[i].dead && |last| <= NONE && Tight(s, last)
    ensures var x := s[i]; Tight(s, Reached(Reached(Reached(last, x.a, i), x.b, i), x.c, i))
  {
  }

  method FindIntervals(b: array<Insn>, nt: nat) returns (def: seq<nat>, last: seq<nat>)
    requires WellBuilt(b[..]) && nt <= MAX_TEMPS
    ensures Intervals(b[..], nt, def, last) && Tight(b[..], last)
  {
    ghost var s := b[..];
    def, last := seq(nt, i => NO_POS), seq(nt, i => 0);
    for i := 0 to b.Length
      invariant IntervalsUpto(s, i, nt, def, last) && Tight(s, last)
    {
      hide WellBuilt;
      var x := b[i];
      if !x.dead {
        IntervalsStep(s, i, nt, def, last);
        TightStep(s, i, last);
        last := Reached(Reached(Reached(last, x.a, i), x.b, i), x.c, i);
        def := Reached(def, x.dst, i);
      }
    }
  }

  // ---- the scan ----

  predicate Defined(def: seq<nat>, k: nat) {
    k < |def| && def[k] != NO_POS
  }

  /** Temps in order of number are in order of where they are defined. */
  ghost predicate Rising(def: seq<nat>) {
    forall u, v :: 0 <= u < v < |def| && Defined(def, u) && Defined(def, v) ==> def[u] < def[v]
  }

  lemma OrderedRises(s: seq<Insn>, nt: nat, def: seq<nat>, last: seq<nat>)
    requires Intervals(s, nt, def, last) && Ordered(s) && nt <= NONE
    ensures Rising(def)
  {
    forall u, v | 0 <= u < v < |def| && Defined(def, u) && Defined(def, v)
      ensures def[u] < def[v]
    {
      assert s[def[u]].dst == u && s[def[v]].dst == v;
    }
  }

  /** No two temps of one register are live at once: the one ends before the other begins. */
  ghost predicate Apart(def: seq<nat>, last: seq<nat>, assign: seq<nat>)
    requires |def| == |last| == |assign|
  {
    forall u, v :: 0 <= u < v < |assign| && assign[u] == assign[v] != NO_REG ==> last[u] < def[v]
  }

  /** An interval that ends before any still to come begins. */
  ghost predicate Past(def: seq<nat>, last: seq<nat>, u: nat, from: nat)
    requires |def| == |last| && u < |last|
  {
    forall v :: from <= v < |def| && Defined(def, v) ==> last[u] < def[v]
  }

  ghost predicate Scanned(def: seq<nat>, last: seq<nat>, assign: seq<nat>, inreg: seq<nat>, tmp: nat) {
    && |def| == |last| == |assign| <= MAX_TEMPS && |inreg| <= MAX_HOST_REGS
    && (forall k :: 0 <= k < |assign| && assign[k] != NO_REG ==>
          assign[k] < |inreg| && k < tmp && Defined(def, k) && def[k] < last[k])
    && Apart(def, last, assign)
    && (forall r :: 0 <= r < |inreg| && inreg[r] != NONE ==> inreg[r] < |assign| && assign[inreg[r]] == r)
    && (forall u :: 0 <= u < |assign| && assign[u] != NO_REG && inreg[assign[u]] != u ==> Past(def, last, u, tmp))
  }

  /** Registers whose interval ended before `d` are free. */
  method Expire(inreg: seq<nat>, last: seq<nat>, d: nat) returns (left: seq<nat>)
    requires forall r :: 0 <= r < |inreg| && inreg[r] != NONE ==> inreg[r] < |last|
    ensures |left| == |inreg|
    ensures forall r :: 0 <= r < |inreg| ==>
              left[r] == if inreg[r] != NONE && last[inreg[r]] < d then NONE else inreg[r]
  {
    left := inreg;
    for r := 0 to |inreg|
      invariant |left| == |inreg|
      invariant forall j :: 0 <= j < r ==> left[j] == if inreg[j] != NONE && last[inreg[j]] < d then NONE else inreg[j]
      invariant forall j :: r <= j < |inreg| ==> left[j] == inreg[j]
    {
      if left[r] != NONE && last[left[r]] < d {
        left := left[r := NONE];
      }
    }
  }

  lemma ExpireKeeps(def: seq<nat>, last: seq<nat>, assign: seq<nat>, inreg: seq<nat>, left: seq<nat>, tmp: nat)
    requires Scanned(def, last, assign, inreg, tmp) && Rising(def) && Defined(def, tmp) && |left| == |inreg|
    requires forall r :: 0 <= r < |inreg| ==>
               left[r] == if inreg[r] != NONE && last[inreg[r]] < def[tmp] then NONE else inreg[r]
    ensures Scanned(def, last, assign, left, tmp)
  {
    forall u | 0 <= u < |assign| && assign[u] != NO_REG && left[assign[u]] != u
      ensures Past(def, last, u, tmp)
    {
      if inreg[assign[u]] == u {
        assert last[u] < def[tmp];
      }
    }
  }

  /** The first free register, or the number of registers. */
  method FirstFree(inreg: seq<nat>) returns (pick: nat)
    ensures pick <= |inreg| && (pick < |inreg| ==> inreg[pick] == NONE)
    ensures pick == |inreg| ==> forall r :: 0 <= r < |inreg| ==> inreg[r] != NONE
  {
    pick := 0;
    while pick < |inreg| && inreg[pick] != NONE
      invariant pick <= |inreg| && forall r :: 0 <= r < pick ==> inreg[r] != NONE
    {
      pick := pick + 1;
    }
  }

  /** The register whose interval runs furthest. */
  method Furthest(inreg: seq<nat>, last: seq<nat>) returns (worst: nat)
    requires |inreg| > 0 && forall r :: 0 <= r < |inreg| ==> inreg[r] < |last|
    ensures worst < |inreg| && forall r :: 0 <= r < |inreg| ==> last[inreg[r]] <= last[inreg[worst]]
  {
    worst := 0;
    for r := 1 to |inreg|
      invariant worst < r && forall j :: 0 <= j < r ==> last[inreg[j]] <= last[inreg[worst]]
    {
      if last[inreg[r]] > last[inreg[worst]] {
        worst := r;
      }
    }
  }

  /** Giving `tmp` a free register keeps the intervals apart. */
  lemma TakeKeeps(def: seq<nat>, last: seq<nat>, assign: seq<nat>, inreg: seq<nat>, tmp: nat, pick: nat)
    requires Scanned(def, last, assign, inreg, tmp) && Rising(def) && Defined(def, tmp) && def[tmp] < last[tmp]
    requires pick < |inreg| && inreg[pick] == NONE
    ensures Scanned(def, last, assign[tmp := pick], inreg[pick := tmp], tmp + 1)
  {
    var after, held := assign[tmp := pick], inreg[pick := tmp];
    assert assign[tmp] == NO_REG;
    forall u, v | 0 <= u < v < |after| && after[u] == after[v] != NO_REG
      ensures last[u] < def[v]
    {
      if v == tmp {
        assert assign[u] == pick && inreg[pick] != u;
        assert Past(def, last, u, tmp);
      }
    }
    forall u | 0 <= u < |after| && after[u] != NO_REG && held[after[u]] != u
      ensures Past(def, last, u, tmp + 1)
    {
      assert inreg[assign[u]] != u;
      assert Past(def, last, u, tmp);
    }
  }

  /** Taking a register back from a temp, for its whole life, does too. */
  lemma EvictKeeps(def: seq<nat>, last: seq<nat>, assign: seq<nat>, inreg: seq<nat>, tmp: nat, r: nat)
    requires Scanned(def, last, assign, inreg, tmp) && r < |inreg| && inreg[r] != NONE
    ensures Scanned(def, last, assign[inreg[r] := NO_REG], inreg[r := NONE], tmp)
  {
    var after, held := assign[inreg[r] := NO_REG], inreg[r := NONE];
    forall u | 0 <= u < |after| && after[u] != NO_REG && held[after[u]] != u
      ensures Past(def, last, u, tmp)
    {
      assert u != inreg[r] && assign[u] == after[u];
      assert inreg[assign[u]] != u;
    }
  }

  lemma SkipKeeps(def: seq<nat>, last: seq<nat>, assign: seq<nat>, inreg: seq<nat>, tmp: nat)
    requires Scanned(def, last, assign, inreg, tmp)
    ensures Scanned(def, last, assign, inreg, tmp + 1)
  {
    forall u | 0 <= u < |assign| && assign[u] != NO_REG && inreg[assign[u]] != u
      ensures Past(def, last, u, tmp + 1)
    {
      assert Past(def, last, u, tmp);
    }
  }

  /** A value read once, by the next live instruction. The backend carries those for nothing. */
  predicate Carried(s: seq<Insn>, d: nat, lastRead: nat)
    requires d < |s|
  {
    && s[d].uses == 1 && d < lastRead <= |s| && (forall j :: d < j < lastRead ==> s[j].dead)
    && (lastRead < |s| ==> !s[lastRead].dead)
  }

  method ReadNext(b: array<Insn>, d: nat, lastRead: nat) returns (yes: bool)
    requires d < b.Length
    ensures yes <==> Carried(b[..], d, lastRead)
  {
    yes := false;
    if b[d].uses == 1 {
      var j := d + 1;
      while j < b.Length && b[j].dead
        invariant d < j <= b.Length && forall i :: d < i < j ==> b[i].dead
      {
        j := j + 1;
      }
      yes := j == lastRead;
    }
  }

  lemma DefInside(s: seq<Insn>, nt: nat, def: seq<nat>, last: seq<nat>, k: nat)
    requires Intervals(s, nt, def, last) && k < nt && def[k] != NO_POS
    ensures def[k] < |s|
  {
  }

  lemma ScannedApart(def: seq<nat>, last: seq<nat>, assign: seq<nat>, inreg: seq<nat>, tmp: nat)
    requires Scanned(def, last, assign, inreg, tmp)
    ensures |def| == |last| == |assign| && Apart(def, last, assign)
    ensures forall r :: 0 <= r < |inreg| && inreg[r] != NONE ==> inreg[r] < |assign|
  {
  }

  // ---- who goes without ----

  /** A temp that wants a register: read after it is written, and not just carried to the next instruction. */
  predicate Wants(s: seq<Insn>, def: seq<nat>, last: seq<nat>, k: nat)
    requires |def| == |last|
  {
    Defined(def, k) && def[k] < |s| && def[k] < last[k] && !Carried(s, def[k], last[k])
  }

  function Wanting(s: seq<Insn>, def: seq<nat>, last: seq<nat>): set<nat>
    requires |def| == |last|
  {
    set k: nat | k < |def| && Wants(s, def, last, k)
  }

  /** Where `t` begins `k` is live, and with it all of `others`, each done no later than `k`. */
  ghost predicate CrowdedAt(def: seq<nat>, last: seq<nat>, wants: set<nat>, k: nat, t: nat, others: set<nat>)
    requires |def| == |last|
  {
    && k < |def| && t < |def| && k !in others && others <= wants && def[k] <= def[t] <= last[k]
    && forall u :: u in others ==> u < |def| && def[u] <= def[t] <= last[u] <= last[k]
  }

  /** At some point as many others as there are registers want one, and `k` would keep one longest. */
  ghost predicate Crowded(def: seq<nat>, last: seq<nat>, wants: set<nat>, k: nat, nregs: nat)
    requires |def| == |last|
  {
    exists t: nat, others: set<nat> :: CrowdedAt(def, last, wants, k, t, others) && |others| == nregs
  }

  /** The registers' temps want them, and of those below `tmp` that want one only the crowded out have none. */
  ghost predicate Fair(def: seq<nat>, last: seq<nat>, wants: set<nat>, assign: seq<nat>, inreg: seq<nat>, tmp: nat)
    requires |def| == |last| == |assign|
  {
    && (forall r :: 0 <= r < |inreg| && inreg[r] != NONE ==> inreg[r] in wants)
    && (forall k :: 0 <= k < |assign| && assign[k] != NO_REG ==> k in wants)
    && forall k :: 0 <= k < tmp && k < |assign| && k in wants && assign[k] == NO_REG ==>
         Crowded(def, last, wants, k, |inreg|)
  }

  function Held(inreg: seq<nat>): set<nat> {
    set r | 0 <= r < |inreg| :: inreg[r]
  }

  lemma {:induction false} HeldCount(inreg: seq<nat>)
    requires forall q, r :: 0 <= q < r < |inreg| ==> inreg[q] != inreg[r]
    ensures |Held(inreg)| == |inreg|
  {
    if inreg != [] {
      var init, r := inreg[..|inreg| - 1], inreg[|inreg| - 1];
      HeldCount(init);
      assert Held(inreg) == Held(init) + {r};
      assert r !in Held(init);
    }
  }

  /** Every register is held where `tmp` begins. */
  ghost predicate Full(def: seq<nat>, last: seq<nat>, wants: set<nat>, assign: seq<nat>, inreg: seq<nat>, tmp: nat) {
    && Scanned(def, last, assign, inreg, tmp) && Rising(def) && Defined(def, tmp) && def[tmp] < last[tmp]
    && tmp in wants && forall r :: 0 <= r < |inreg| ==>
         inreg[r] < |last| && inreg[r] != NONE && inreg[r] in wants && def[tmp] <= last[inreg[r]]
  }

  lemma FullHeld(def: seq<nat>, last: seq<nat>, wants: set<nat>, assign: seq<nat>, inreg: seq<nat>, tmp: nat)
    requires Full(def, last, wants, assign, inreg, tmp)
    ensures |Held(inreg)| == |inreg| && tmp !in Held(inreg) && Held(inreg) <= wants
    ensures forall u :: u in Held(inreg) ==> u < |def| && def[u] <= def[tmp] <= last[u]
  {
    HeldCount(inreg);
    forall u | u in Held(inreg)
      ensures u < |def| && u != tmp && u in wants && def[u] <= def[tmp] <= last[u]
    {
      var r :| 0 <= r < |inreg| && inreg[r] == u;
      assert assign[u] == r;
    }
  }

  lemma SkipCrowded(def: seq<nat>, last: seq<nat>, wants: set<nat>, assign: seq<nat>, inreg: seq<nat>, tmp: nat)
    requires Full(def, last, wants, assign, inreg, tmp)
    requires forall r :: 0 <= r < |inreg| ==> last[inreg[r]] <= last[tmp]
    ensures Crowded(def, last, wants, tmp, |inreg|)
  {
    FullHeld(def, last, wants, assign, inreg, tmp);
    assert CrowdedAt(def, last, wants, tmp, tmp, Held(inreg));
  }

  lemma EvictCrowded(def: seq<nat>, last: seq<nat>, wants: set<nat>, assign: seq<nat>, inreg: seq<nat>, tmp: nat,
                     r: nat)
    requires Full(def, last, wants, assign, inreg, tmp) && r < |inreg| && last[tmp] < last[inreg[r]]
    requires forall q :: 0 <= q < |inreg| ==> last[inreg[q]] <= last[inreg[r]]
    ensures Crowded(def, last, wants, inreg[r], |inreg|)
  {
    FullHeld(def, last, wants, assign, inreg, tmp);
    var worst := inreg[r];
    assert worst in Held(inreg);
    assert CrowdedAt(def, last, wants, worst, tmp, Held(inreg) - {worst} + {tmp});
  }

  /** One interval: a free register, or that of the interval running furthest past it, or none. */
  method AssignOne(def: seq<nat>, last: seq<nat>, assign: seq<nat>, inreg: seq<nat>, tmp: nat, used: nat,
                   ghost wants: set<nat>)
    returns (after: seq<nat>, held: seq<nat>, top: nat)
    requires Scanned(def, last, assign, inreg, tmp) && Rising(def) && Defined(def, tmp) && def[tmp] < last[tmp]
    requires 0 < |inreg| && used <= |inreg| && forall k :: 0 <= k < |assign| ==> assign[k] == NO_REG || assign[k] < used
    requires Fair(def, last, wants, assign, inreg, tmp) && tmp in wants
    ensures |after| == |assign| && |held| == |inreg| && Scanned(def, last, after, held, tmp + 1)
    ensures Fair(def, last, wants, after, held, tmp + 1)
    ensures used <= top <= |inreg| && forall k :: 0 <= k < |after| ==> after[k] == NO_REG || after[k] < top
  {
    hide Scanned, Rising, Crowded;
    ScannedApart(def, last, assign, inreg, tmp);
    held := Expire(inreg, last, def[tmp]);
    ExpireKeeps(def, last, assign, inreg, held, tmp);
    ScannedAbove(def, last, assign, inreg, tmp);
    after, top := assign, used;
    var pick := FirstFree(held);
    if pick == |held| {
      ScannedApart(def, last, after, held, tmp);
      var worst := Furthest(held, last);
      if last[held[worst]] <= last[tmp] {
        SkipKeeps(def, last, after, held, tmp);
        SkipCrowded(def, last, wants, after, held, tmp);
        return;
      }
      EvictKeeps(def, last, after, held, tmp, worst);
      EvictCrowded(def, last, wants, after, held, tmp, worst);
      after := after[held[worst] := NO_REG];
      held := held[worst := NONE];
      pick := worst;
    }
    TakeKeeps(def, last, after, held, tmp, pick);
    held := held[pick := tmp];
    after := after[tmp := pick];
    if pick + 1 > top {
      top := pick + 1;
    }
  }

  /** One temp: left without a register unless it wants one. */
  method Consider(b: array<Insn>, def: seq<nat>, last: seq<nat>, assign: seq<nat>, inreg: seq<nat>, tmp: nat, used: nat,
                  ghost wants: set<nat>)
    returns (after: seq<nat>, held: seq<nat>, top: nat)
    requires Intervals(b[..], |def|, def, last) && Scanned(def, last, assign, inreg, tmp) && Rising(def) && tmp < |def|
    requires 0 < |inreg| && used <= |inreg| && forall k :: 0 <= k < |assign| ==> assign[k] == NO_REG || assign[k] < used
    requires |def| == |last| == |assign| && Fair(def, last, wants, assign, inreg, tmp)
    requires wants == Wanting(b[..], def, last)
    ensures |after| == |assign| && |held| == |inreg| && Scanned(def, last, after, held, tmp + 1)
    ensures used <= top <= |inreg| && forall k :: 0 <= k < |after| ==> after[k] == NO_REG || after[k] < top
    ensures Fair(def, last, wants, after, held, tmp + 1)
  {
    hide Scanned, Rising, Intervals, Crowded, Carried;
    after, held, top := assign, inreg, used;
    SkipKeeps(def, last, assign, inreg, tmp);
    var d := def[tmp];
    if d != NO_POS && last[tmp] > d {
      DefInside(b[..], |def|, def, last, tmp);
      var next := ReadNext(b, d, last[tmp]);
      if !next {
        after, held, top := AssignOne(def, last, assign, inreg, tmp, used, wants);
      }
    }
  }

  lemma ScannedAbove(def: seq<nat>, last: seq<nat>, assign: seq<nat>, inreg: seq<nat>, tmp: nat)
    requires Scanned(def, last, assign, inreg, tmp)
    ensures |def| == |last| == |assign| && forall k :: tmp <= k < |assign| ==> assign[k] == NO_REG
  {
  }

  /**
   * A register for each temp, or none: no two temps of a register are ever live at once, only temps that
   * want one have one, and one that wants it goes without only where more want one than there are.
   */
  method RegAlloc(b: array<Insn>, nt: nat, nregs: nat, overflow: bool)
    returns (used: nat, assign: seq<nat>, ghost def: seq<nat>, ghost last: seq<nat>)
    requires WellBuilt(b[..]) && Ordered(b[..]) && nt <= MAX_TEMPS
    ensures Intervals(b[..], nt, def, last) && Tight(b[..], last) && Rising(def)
    ensures |assign| == nt && Apart(def, last, assign)
    ensures used <= nregs && forall k :: 0 <= k < nt ==> assign[k] == NO_REG || assign[k] < used
    ensures |def| == |last| == nt && forall k :: 0 <= k < nt && assign[k] != NO_REG ==> Wants(b[..], def, last, k)
    ensures 0 < nregs <= MAX_HOST_REGS && !overflow ==>
              forall k :: 0 <= k < nt && Wants(b[..], def, last, k) && assign[k] == NO_REG ==>
                Crowded(def, last, Wanting(b[..], def, last), k, nregs)
  {
    assign := seq(nt, i => NO_REG);
    used := 0;
    var starts, ends := FindIntervals(b, nt);
    def, last := starts, ends;
    OrderedRises(b[..], nt, def, last);
    if nregs == 0 || nregs > MAX_HOST_REGS || overflow {
      return;
    }
    var inreg: seq<nat> := seq(nregs, i => NONE);
    ghost var wants := Wanting(b[..], def, last);
    for tmp := 0 to nt
      invariant |inreg| == nregs && |def| == |last| == |assign| == nt && Scanned(def, last, assign, inreg, tmp)
      invariant Fair(def, last, wants, assign, inreg, tmp)
      invariant used <= nregs && forall k :: 0 <= k < nt ==> assign[k] == NO_REG || assign[k] < used
    {
      hide Scanned, Rising, Intervals, Tight, Fair, Wanting;
      assign, inreg, used := Consider(b, starts, ends, assign, inreg, tmp, used, wants);
    }
    ScannedApart(def, last, assign, inreg, nt);
  }

  // ---- running out of registers and slots ----

  datatype Place = Reg(r: nat) | Slot(k: nat)

  type Frame = map<Place, u32>

  function PlaceOf(assign: seq<nat>, k: nat): Place {
    if k < |assign| && assign[k] != NO_REG then Reg(assign[k]) else Slot(k)
  }

  function Fetched(assign: seq<nat>, st: Frame, k: nat): u32 {
    if k != NONE && PlaceOf(assign, k) in st then st[PlaceOf(assign, k)] else 0
  }

  function PerformIn<W>(t: Target<W>, x: Insn, assign: seq<nat>, g: Guest<W>, n: nat, st: Frame): Outcome<W> {
    Act(t, x.op, x.aux, x.imm, x.live, x.a != NONE, x.c != NONE,
        Fetched(assign, st, x.a), Fetched(assign, st, x.b), Fetched(assign, st, x.c), g, n)
  }

  function BindIn(assign: seq<nat>, st: Frame, x: Insn, v: u32): Frame {
    if x.dst != NONE then st[PlaceOf(assign, x.dst) := v] else st
  }

  /** The block with each temp in its register, or else its slot. */
  function ExecIn<W>(t: Target<W>, s: seq<Insn>, assign: seq<nat>, g: Guest<W>, n: nat, st: Frame): Result<W>
    decreases |s|
  {
    if s == [] then Result(g, n, false)
    else if s[0].dead then ExecIn(t, s[1..], assign, g, n, st)
    else
      match PerformIn(t, s[0], assign, g, n, st)
      case Stop(r) => r
      case Next(h, m, v) => ExecIn(t, s[1..], assign, h, m, BindIn(assign, st, s[0], v))
  }

  /** A temp with a value some instruction from `j` on reads. */
  predicate Live(def: seq<nat>, last: seq<nat>, k: nat, j: nat)
    requires k < |def| == |last|
  {
    Defined(def, k) && def[k] < j <= last[k]
  }

  /** Every such temp's value is in its place. */
  ghost predicate Kept(def: seq<nat>, last: seq<nat>, assign: seq<nat>, j: nat, tmp: Temps, st: Frame)
    requires |def| == |last|
  {
    forall k :: 0 <= k < |def| && Live(def, last, k, j) ==> Arg(tmp, k) == Fetched(assign, st, k)
  }

  /** What the allocation has to be for that. */
  ghost predicate Allocated(s: seq<Insn>, nt: nat, def: seq<nat>, last: seq<nat>, assign: seq<nat>) {
    && WellBuilt(s) && |s| <= MAX_INSNS && nt <= MAX_TEMPS && Intervals(s, nt, def, last) && Rising(def)
    && |assign| == nt && Apart(def, last, assign)
    && forall d :: 0 <= d < |s| && !s[d].dead && s[d].dst != NONE ==> s[d].dst < nt
  }

  lemma OperandKept(s: seq<Insn>, nt: nat, def: seq<nat>, last: seq<nat>, assign: seq<nat>, j: nat, k: nat, tmp: Temps,
                    st: Frame)
    requires Allocated(s, nt, def, last, assign) && j < |s| && !s[j].dead && Kept(def, last, assign, j, tmp, st)
    requires k == s[j].a || k == s[j].b || k == s[j].c
    ensures Arg(tmp, k) == Fetched(assign, st, k)
  {
    if k != NONE {
      assert PlaceOk(s, j);
      var d := Definer(s, j, k);
      assert def[k] == d && Reads(s[j], k) > 0;
      assert Live(def, last, k, j);
    }
  }

  lemma StepKept(s: seq<Insn>, nt: nat, def: seq<nat>, last: seq<nat>, assign: seq<nat>, j: nat, tmp: Temps, st: Frame,
                 v: u32)
    requires Allocated(s, nt, def, last, assign) && j < |s| && !s[j].dead && Kept(def, last, assign, j, tmp, st)
    ensures Kept(def, last, assign, j + 1, Bind(tmp, s[j], v), BindIn(assign, st, s[j], v))
  {
    var x := s[j];
    forall k | 0 <= k < |def| && Live(def, last, k, j + 1)
      ensures Arg(Bind(tmp, x, v), k) == Fetched(assign, BindIn(assign, st, x, v), k)
    {
      if x.dst != NONE && k != x.dst {
        assert def[x.dst] == j;
        assert def[k] < j;
        assert Live(def, last, k, j);
        assert Defined(def, x.dst);
        assert k < x.dst && assign[k] == assign[x.dst] ==> assign[k] == NO_REG;
        assert !(k > x.dst);
      } else if x.dst == NONE {
        assert s[def[k]].dst == k;
        assert Live(def, last, k, j);
      }
    }
  }

  lemma {:induction false} AllocExec<W>(t: Target<W>, s: seq<Insn>, nt: nat, def: seq<nat>, last: seq<nat>,
                                        assign: seq<nat>, j: nat, g: Guest<W>, n: nat, tmp: Temps, st: Frame)
    requires Allocated(s, nt, def, last, assign) && j <= |s| && Kept(def, last, assign, j, tmp, st)
    ensures Exec(t, s[j..], g, n, tmp) == ExecIn(t, s[j..], assign, g, n, st)
    decreases |s| - j
  {
    if j < |s| {
      var x := s[j];
      assert s[j..][0] == x && s[j..][1..] == s[j + 1..];
      if x.dead {
        assert Kept(def, last, assign, j + 1, tmp, st) by { DeadKept(s, nt, def, last, assign, j, tmp, st); }
        hide Allocated, Kept;
        AllocExec(t, s, nt, def, last, assign, j + 1, g, n, tmp, st);
      } else {
        OperandKept(s, nt, def, last, assign, j, x.a, tmp, st);
        OperandKept(s, nt, def, last, assign, j, x.b, tmp, st);
        OperandKept(s, nt, def, last, assign, j, x.c, tmp, st);
        assert Perform(t, x, g, n, tmp) == PerformIn(t, x, assign, g, n, st) by { hide Act; }
        hide Perform, PerformIn, Allocated, Kept;
        var p := Perform(t, x, g, n, tmp);
        if p.Next? {
          StepKept(s, nt, def, last, assign, j, tmp, st, p.value);
          AllocExec(t, s, nt, def, last, assign, j + 1, p.guest, p.retired, Bind(tmp, x, p.value),
                    BindIn(assign, st, x, p.value));
        }
      }
    }
  }

  lemma DeadKept(s: seq<Insn>, nt: nat, def: seq<nat>, last: seq<nat>, assign: seq<nat>, j: nat, tmp: Temps, st: Frame)
    requires Allocated(s, nt, def, last, assign) && j < |s| && s[j].dead && Kept(def, last, assign, j, tmp, st)
    ensures Kept(def, last, assign, j + 1, tmp, st)
  {
    forall k | 0 <= k < |def| && Live(def, last, k, j + 1)
      ensures Arg(tmp, k) == Fetched(assign, st, k)
    {
      assert def[k] != j;
      assert Live(def, last, k, j);
    }
  }

  /** Two blocks mean the same, the second run out of registers and slots, whatever either finds in its temps. */
  ghost predicate SameIn<W(!new)>(t: Target<W>, s: seq<Insn>, r: seq<Insn>, assign: seq<nat>) {
    forall g, n, tmp, st :: Exec(t, s, g, n, tmp) == ExecIn(t, r, assign, g, n, st)
  }

  /** Registers preserve meaning. */
  lemma AllocSame<W(!new)>(t: Target<W>, s: seq<Insn>, nt: nat, def: seq<nat>, last: seq<nat>, assign: seq<nat>)
    requires Allocated(s, nt, def, last, assign)
    ensures SameIn(t, s, s, assign)
  {
    forall g, n, tmp, st
      ensures Exec(t, s, g, n, tmp) == ExecIn(t, s, assign, g, n, st)
    {
      AllocExec(t, s, nt, def, last, assign, 0, g, n, tmp, st);
      assert s[0..] == s;
    }
  }

  // ---- from a frontend's block to host registers ----

  lemma SameInTrans<W(!new)>(t: Target<W>, s: seq<Insn>, r: seq<Insn>, assign: seq<nat>)
    requires Same(t, s, r) && SameIn(t, r, r, assign)
    ensures SameIn(t, s, r, assign)
  {
    hide Exec, ExecIn;
    forall g, n, tmp, st
      ensures Exec(t, s, g, n, tmp) == ExecIn(t, r, assign, g, n, st)
    {
      assert Exec(t, s, g, n, tmp) == Exec(t, r, g, n, tmp);
    }
  }

  /** Every temp the block writes is below `nt`. */
  predicate Below(s: seq<Insn>, nt: nat) {
    forall i :: 0 <= i < |s| && s[i].dst != NONE ==> s[i].dst < nt
  }

  /**
   * Optimised, and run out of the registers it is then given: from every guest, what the frontend's
   * block does.
   */
  method Compile<W(!new)>(b: array<Insn>, nt: nat, nregs: nat, t: Target<W>, canLower: (Op, nat) -> bool)
    returns (used: nat, assign: seq<nat>, ghost at: Stages)
    requires Ready(b[..]) && Ordered(b[..]) && Below(b[..], nt) && b.Length <= MAX_INSNS && nt <= MAX_TEMPS
    modifies b
    ensures SameIn(t, old(b[..]), b[..], assign) && Lowers(canLower, old(b[..]), b[..])
    ensures Staged(t, ALL, canLower, at) && at.start == old(b[..]) && at.end == b[..]
    ensures used <= nregs && |assign| == nt && forall k :: 0 <= k < nt ==> assign[k] == NO_REG || assign[k] < used
  {
    hide Same, SameFor, Built, WellBuilt, SameIn, Staged, Lowers, Count, Intervals, Rising, Apart, Ordered;
    ghost var start := b[..];
    at := Optimise(b, false, t, ALL, canLower);
    BuiltIsWellBuilt(b[..]);
    ghost var def, last;
    used, assign, def, last := RegAlloc(b, nt, nregs, false);
    AllocSame(t, b[..], nt, def, last, assign);
    SameInTrans(t, start, b[..], assign);
  }
}
