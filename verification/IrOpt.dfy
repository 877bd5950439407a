/** The optimiser: the passes in the order they run, and what a block means however often it loops. */
module IrOpt {
  import opened Words
  import opened Ir
  import opened IrFlags
  import opened IrTraffic
  import opened IrFuse
  import opened IrPuts
  import opened IrValues
  import opened IrRetire
  import opened IrRewrite

  // ---- readers counted ----

  /** Alike but for the count of readers, which nothing executes. */
  predicate ButUses(s: seq<Insn>, r: seq<Insn>) {
    |s| == |r| && forall i :: 0 <= i < |s| ==> r[i] == s[i].(uses := r[i].uses)
  }

  lemma {:induction false} ButUsesExec<W>(t: Target<W>, s: seq<Insn>, r: seq<Insn>, g: Guest<W>, n: nat, tmp: Temps)
    requires ButUses(s, r)
    ensures Exec(t, s, g, n, tmp) == Exec(t, r, g, n, tmp)
    decreases |s|
  {
    if s != [] {
      var x, y := s[0], r[0];
      assert s == [x] + s[1..] && r == [y] + r[1..];
      ExecCons(t, x, s[1..], g, n, tmp);
      ExecCons(t, y, r[1..], g, n, tmp);
      assert Perform(t, x, g, n, tmp) == Perform(t, y, g, n, tmp) by { hide Act; }
      hide Perform, Exec;
      if x.dead {
        ButUsesExec(t, s[1..], r[1..], g, n, tmp);
      } else {
        var p := Perform(t, x, g, n, tmp);
        if p.Next? {
          ButUsesExec(t, s[1..], r[1..], p.guest, p.retired, Bind(tmp, x, p.value));
        }
      }
    }
  }

  /** How many live instructions read each value, up to 255. */
  method PassCountUses<W(!new)>(b: array<Insn>, ghost t: Target<W>)
    requires WellBuilt(b[..])
    modifies b
    ensures ButUses(old(b[..]), b[..]) && Same(t, old(b[..]), b[..]) && WellBuilt(b[..])
    ensures forall i :: 0 <= i < b.Length ==>
              b[i].uses == if !b[i].dead && b[i].dst != NONE then AtMost255(Count(old(b[..]), b[i].dst)) else 0
  {
    var uses, def := Tabulate(b);
    ghost var s := b[..];
    assert s[..|s|] == s;
    for i := 0 to b.Length
      invariant ButUses(s, b[..]) && b[i..] == s[i..]
      invariant forall j :: 0 <= j < i ==>
                  b[j].uses == if !b[j].dead && b[j].dst != NONE then AtMost255(Count(s, b[j].dst)) else 0
    {
      assert b[i] == s[i] by { assert b[i..][0] == s[i..][0]; }
      assert PlaceOk(s, i);
      hide WellBuilt, Count;
      b[i] := b[i].(uses := if !b[i].dead && b[i].dst != NONE then uses[b[i].dst] else 0);
    }
    forall g, n, tmp
      ensures Exec(t, s, g, n, tmp) == Exec(t, b[..], g, n, tmp)
    {
      ButUsesExec(t, s, b[..], g, n, tmp);
    }
    ButUsesWellBuilt(s, b[..]);
  }

  lemma {:induction false} ButUsesUpto(s: seq<Insn>, r: seq<Insn>, j: nat)
    requires ButUses(s, r) && j <= |s|
    ensures Upto(s, j) == Upto(r, j)
  {
    if j > 0 {
      ButUsesUpto(s, r, j - 1);
    }
  }

  lemma ButUsesWellBuilt(s: seq<Insn>, r: seq<Insn>)
    requires ButUses(s, r) && WellBuilt(s)
    ensures WellBuilt(r)
  {
    forall j | 0 <= j < |r|
      ensures PlaceOk(r, j)
    {
      assert PlaceOk(s, j);
      ButUsesUpto(s, r, j);
    }
  }

  // ---- fusion leaves the traffic alone ----

  lemma {:induction false} KinForwarded<W>(t: Target<W>, s: seq<Insn>, r: seq<Insn>, puts: set<u32>)
    requires Kin(s, r) && Forwarded(t, s, puts)
    ensures Forwarded(t, r, puts)
    decreases |s|
  {
    if s != [] {
      assert KinInsn(s[0], r[0]);
      assert PutsAfter(t, s[0], puts) == PutsAfter(t, r[0], puts);
      assert Kin(s[1..], r[1..]) by {
        forall i | 0 <= i < |s[1..]|
          ensures KinInsn(s[1..][i], r[1..][i])
        {
          assert KinInsn(s[i + 1], r[i + 1]);
        }
      }
      hide KinInsn, PutsAfter, Kin;
      KinForwarded(t, s[1..], r[1..], PutsAfter(t, s[0], puts));
    }
  }

  lemma KinFrame(s: seq<Insn>, r: seq<Insn>)
    requires Kin(s, r)
    ensures SameFrame(s, r)
  {
    forall i | 0 <= i < |s|
      ensures Amount(s[i]) == Amount(r[i]) && s[i].dst == r[i].dst
    {
      assert KinInsn(s[i], r[i]);
    }
  }

  // ---- the optimiser ----

  /** A block as a frontend hands it over. */
  predicate Ready(s: seq<Insn>) {
    Built(s, {}) && AllFresh(s) && Total(s) < TOP
  }

  /** Up to a pass: what the block meant, as the builder makes them, with the retirements and temps it had. */
  ghost predicate Still<W(!new)>(t: Target<W>, start: seq<Insn>, s: seq<Insn>, out: set<Flag>) {
    && SameFor(t, start, s, out) && Built(s, {}) && Total(s) == Total(start)
    && |s| == |start| && forall i :: 0 <= i < |s| ==> s[i].dst == start[i].dst
  }

  lemma StillMore<W(!new)>(t: Target<W>, start: seq<Insn>, s: seq<Insn>, r: seq<Insn>, out: set<Flag>)
    requires Still(t, start, s, out) && Same(t, s, r) && Built(r, {}) && SameFrame(s, r)
    ensures Still(t, start, r, out)
  {
    SameForTrans(t, start, s, r, out);
    TotalAlike(s, r);
    hide Same, SameFor, Built;
  }

  lemma FlagsStill<W(!new)>(t: Target<W>, s: seq<Insn>, out: set<Flag>)
    requires Built(s, {}) && AllFresh(s)
    ensures Still(t, s, DeadFlags(s, out).0, out)
  {
    DeadFlagsSame(t, s, out);
    DeadFlagsBuilt(s, out, {});
    hide SameFor, Same, Built, DeadFlags;
    TotalAlike(s, DeadFlags(s, out).0);
  }

  lemma TrafficStill<W(!new)>(t: Target<W>, start: seq<Insn>, s: seq<Insn>, out: set<Flag>)
    requires Still(t, start, s, out)
    ensures Still(t, start, Traffic(t, s, FRESH), out) && Forwarded(t, Traffic(t, s, FRESH), {})
  {
    TrafficSame(t, s);
    TrafficBuilt(t, s, FRESH, {});
    TrafficForwards(t, s, FRESH, {}, {});
    hide Same, SameFor, Built, Traffic;
    StillMore(t, start, s, Traffic(t, s, FRESH), out);
  }

  lemma PutsStill<W(!new)>(t: Target<W>, start: seq<Insn>, s: seq<Insn>, out: set<Flag>)
    requires Still(t, start, s, out) && Forwarded(t, s, {})
    ensures Still(t, start, DeadPuts(t, s).0, out)
  {
    DeadPutsSame(t, s);
    DeadPutsBuilt(t, s, {});
    hide Same, SameFor, Built, DeadPuts;
    StillMore(t, start, s, DeadPuts(t, s).0, out);
  }

  lemma ValuesStill<W(!new)>(t: Target<W>, start: seq<Insn>, s: seq<Insn>, out: set<Flag>)
    requires Still(t, start, s, out)
    ensures Still(t, start, DeadValues(s).0, out)
  {
    DeadValuesSame(t, s);
    DeadValuesBuilt(s, {}, {});
    hide Same, SameFor, Built, DeadValues;
    StillMore(t, start, s, DeadValues(s).0, out);
  }

  lemma KinStill<W(!new)>(t: Target<W>, start: seq<Insn>, s: seq<Insn>, r: seq<Insn>, out: set<Flag>)
    requires Still(t, start, s, out) && Same(t, s, r) && WellBuilt(r) && Kin(s, r)
    ensures Still(t, start, r, out)
  {
    BuiltIsWellBuilt(r);
    KinFrame(s, r);
    hide Same, SameFor, Built, Kin;
    StillMore(t, start, s, r, out);
  }

  // ---- the block from pass to pass ----

  /** The block on entry, after each pass that deletes or rewrites, after merging and after counting. */
  datatype Stages = Stages(start: seq<Insn>, flags: seq<Insn>, traffic: seq<Insn>, fused: seq<Insn>, puts: seq<Insn>,
                           values: seq<Insn>, macs: seq<Insn>, merged: seq<Insn>, end: seq<Insn>)

  /** The first three passes; of a block the builder has room for, nothing foldable is left. */
  ghost predicate Rewrites<W>(t: Target<W>, out: set<Flag>, can: (Op, nat) -> bool, start: seq<Insn>, flags: seq<Insn>,
                              traffic: seq<Insn>, fused: seq<Insn>) {
    && flags == DeadFlags(start, out).0 && traffic == Traffic(t, flags, FRESH) && fused == Fused(traffic, can)
    && (|traffic| <= MAX_INSNS ==> NoneToFold(traffic, fused, can))
  }

  /** The next three; nor is any lone product left beside its sum. */
  ghost predicate Prunes<W>(t: Target<W>, can: (Op, nat) -> bool, fused: seq<Insn>, puts: seq<Insn>,
                            values: seq<Insn>, macs: seq<Insn>) {
    && puts == DeadPuts(t, fused).0 && values == DeadValues(puts).0 && macs == Macked(values, can)
    && (|values| <= MAX_INSNS ==> NoneToMac(values, macs, can))
  }

  /** Merging leaves every other instruction alone, and something that could tell between any two live retirements. */
  ghost predicate Merges(s: seq<Insn>, r: seq<Insn>) {
    Recounted(s, r) && Separated(r, |r|) && Total(r) == Total(s)
  }

  ghost predicate Staged<W>(t: Target<W>, out: set<Flag>, can: (Op, nat) -> bool, at: Stages) {
    && Rewrites(t, out, can, at.start, at.flags, at.traffic, at.fused)
    && Prunes(t, can, at.fused, at.puts, at.values, at.macs)
    && Merges(at.macs, at.merged) && ButUses(at.merged, at.end)
  }

  lemma FlagsLower(can: (Op, nat) -> bool, s: seq<Insn>, out: set<Flag>)
    ensures Lowers(can, s, DeadFlags(s, out).0)
  {
    hide DeadFlags, Wanted;
    DeadFlagsLength(s, out);
    forall i | 0 <= i < |s|
      ensures LowerOk(can, s[i], DeadFlags(s, out).0[i])
    {
      DeadFlagsExact(s, out, i);
    }
  }

  lemma {:induction false} TrafficLowers<W>(can: (Op, nat) -> bool, t: Target<W>, s: seq<Insn>, w: Walk)
    ensures Lowers(can, s, Traffic(t, s, w))
    decreases |s|
  {
    if s != [] {
      var rest, more := s[1..], Traffic(t, s[1..], WalkAfter(t, s[0], w));
      TrafficLowers(can, t, rest, WalkAfter(t, s[0], w));
      var r := Traffic(t, s, w);
      assert r == [Forward(t, s[0], w)] + more;
      hide Traffic, WalkAfter, Tracked, Resolved;
      forall i | 0 <= i < |s|
        ensures LowerOk(can, s[i], r[i])
      {
        if i > 0 {
          assert s[i] == rest[i - 1] && r[i] == more[i - 1];
          assert LowerOk(can, rest[i - 1], more[i - 1]);
        } else {
          ForwardLowers(can, t, s[0], w);
        }
      }
    }
  }

  lemma ForwardLowers<W>(can: (Op, nat) -> bool, t: Target<W>, x: Insn, w: Walk)
    ensures LowerOk(can, x, Forward(t, x, w))
  {
  }

  lemma PutsLower<W>(can: (Op, nat) -> bool, t: Target<W>, s: seq<Insn>)
    ensures Lowers(can, s, DeadPuts(t, s).0)
  {
    hide DeadPuts, Rewritten, PcRewritten;
    DeadPutsLength(t, s);
    forall i | 0 <= i < |s|
      ensures LowerOk(can, s[i], DeadPuts(t, s).0[i])
    {
      DeadPutsExact(t, s, i);
    }
  }

  lemma ValuesLower(can: (Op, nat) -> bool, s: seq<Insn>)
    ensures Lowers(can, s, DeadValues(s).0)
  {
    hide DeadValues, ReadIn;
    DeadValuesLength(s);
    forall i | 0 <= i < |s|
      ensures LowerOk(can, s[i], DeadValues(s).0[i])
    {
      DeadValuesExact(s, i);
    }
  }

  lemma RetireLowers(can: (Op, nat) -> bool, s: seq<Insn>, r: seq<Insn>)
    requires Recounted(s, r)
    ensures Lowers(can, s, r)
  {
    forall i | 0 <= i < |s|
      ensures LowerOk(can, s[i], r[i])
    {
      assert r[i] == s[i] || RetireOnly(s[i], r[i]);
    }
  }

  lemma UsesLower(can: (Op, nat) -> bool, s: seq<Insn>, r: seq<Insn>)
    requires ButUses(s, r)
    ensures Lowers(can, s, r)
  {
  }

  lemma RewritesMeans<W>(t: Target<W>, out: set<Flag>, can: (Op, nat) -> bool, start: seq<Insn>, flags: seq<Insn>,
                         traffic: seq<Insn>, fused: seq<Insn>)
    requires flags == DeadFlags(start, out).0 && traffic == Traffic(t, flags, FRESH) && fused == Fused(traffic, can)
    requires |traffic| <= MAX_INSNS ==> NoneToFold(traffic, fused, can)
    requires Lowers(can, traffic, fused)
    ensures Rewrites(t, out, can, start, flags, traffic, fused) && Lowers(can, start, fused)
  {
    hide DeadFlags, Traffic, Fused, NoneToFold, Lowers;
    FlagsLower(can, start, out);
    TrafficLowers(can, t, flags, FRESH);
    LowersTrans(can, start, flags, traffic);
    LowersTrans(can, start, traffic, fused);
  }

  lemma PrunesMeans<W>(t: Target<W>, can: (Op, nat) -> bool, fused: seq<Insn>, puts: seq<Insn>, values: seq<Insn>,
                       macs: seq<Insn>)
    requires puts == DeadPuts(t, fused).0 && values == DeadValues(puts).0 && macs == Macked(values, can)
    requires |values| <= MAX_INSNS ==> NoneToMac(values, macs, can)
    requires Lowers(can, values, macs)
    ensures Prunes(t, can, fused, puts, values, macs) && Lowers(can, fused, macs)
  {
    hide DeadPuts, DeadValues, Macked, NoneToMac, Lowers;
    PutsLower(can, t, fused);
    ValuesLower(can, puts);
    LowersTrans(can, fused, puts, values);
    LowersTrans(can, fused, values, macs);
  }

  lemma MergesMeans(can: (Op, nat) -> bool, s: seq<Insn>, r: seq<Insn>)
    requires Recounted(s, r) && Separated(r, |r|) && Total(r) == Total(s)
    ensures Merges(s, r) && Lowers(can, s, r)
  {
    hide Recounted, Separated, Total, Lowers;
    RetireLowers(can, s, r);
  }

  lemma StagedMeans<W>(t: Target<W>, out: set<Flag>, can: (Op, nat) -> bool, at: Stages)
    requires Rewrites(t, out, can, at.start, at.flags, at.traffic, at.fused) && Lowers(can, at.start, at.fused)
    requires Prunes(t, can, at.fused, at.puts, at.values, at.macs) && Lowers(can, at.fused, at.macs)
    requires Merges(at.macs, at.merged) && Lowers(can, at.macs, at.merged) && ButUses(at.merged, at.end)
    ensures Staged(t, out, can, at) && Lowers(can, at.start, at.end)
  {
    hide Rewrites, Prunes, Merges, ButUses, Lowers;
    UsesLower(can, at.merged, at.end);
    LowersTrans(can, at.start, at.fused, at.macs);
    LowersTrans(can, at.start, at.macs, at.merged);
    LowersTrans(can, at.start, at.merged, at.end);
  }

  /** The first three passes. */
  method Rewrite<W(!new)>(b: array<Insn>, t: Target<W>, out: set<Flag>, canLower: (Op, nat) -> bool)
    returns (ghost flags: seq<Insn>, ghost traffic: seq<Insn>)
    requires Built(b[..], {}) && AllFresh(b[..])
    modifies b
    ensures Still(t, old(b[..]), b[..], out) && Forwarded(t, b[..], {}) && Lowers(canLower, old(b[..]), b[..])
    ensures Rewrites(t, out, canLower, old(b[..]), flags, traffic, b[..])
  {
    ghost var start := b[..];
    hide *;
    FlagsStill(t, start, out);
    PassDeadFlags(b, out);
    flags := b[..];
    TrafficStill(t, start, flags, out);
    PassRegTraffic(b, t);
    traffic := b[..];
    StillBuilt(t, start, traffic, out);
    PassFuse(b, canLower, t);
    KinStill(t, start, traffic, b[..], out);
    KinForwarded(t, traffic, b[..], {});
    RewritesMeans(t, out, canLower, start, flags, traffic, b[..]);
  }

  /** The next three. */
  method Prune<W(!new)>(b: array<Insn>, t: Target<W>, ghost out: set<Flag>, canLower: (Op, nat) -> bool,
                        ghost start: seq<Insn>)
    returns (ghost puts: seq<Insn>, ghost values: seq<Insn>)
    requires Still(t, start, b[..], out) && Forwarded(t, b[..], {})
    modifies b
    ensures Still(t, start, b[..], out) && Lowers(canLower, old(b[..]), b[..])
    ensures Prunes(t, canLower, old(b[..]), puts, values, b[..])
  {
    ghost var fused := b[..];
    hide *;
    PutsStill(t, start, fused, out);
    PassDeadPuts(b, t);
    puts := b[..];
    ValuesStill(t, start, puts, out);
    PassDeadValues(b);
    values := b[..];
    StillBuilt(t, start, values, out);
    PassMac(b, canLower, t);
    KinStill(t, start, values, b[..], out);
    PrunesMeans(t, canLower, fused, puts, values, b[..]);
  }

  /** The last two, after which every live value knows how many read it. */
  method Settle<W(!new)>(b: array<Insn>, t: Target<W>, ghost out: set<Flag>, ghost canLower: (Op, nat) -> bool,
                         ghost start: seq<Insn>)
    returns (ghost merged: seq<Insn>)
    requires Still(t, start, b[..], out) && Total(start) < TOP
    modifies b
    ensures SameFor(t, start, b[..], out) && Built(b[..], {})
    ensures b.Length == |start| && forall i :: 0 <= i < b.Length ==> b[i].dst == start[i].dst
    ensures forall i :: 0 <= i < b.Length && !b[i].dead && b[i].dst != NONE ==>
              b[i].uses == AtMost255(Count(b[..], b[i].dst))
    ensures Merges(old(b[..]), merged) && Lowers(canLower, old(b[..]), merged) && ButUses(merged, b[..])
  {
    hide Same, SameFor, Built, WellBuilt, Count, ButUses, Lowers, Recounted, Separated, Merges, Total, AtMost255;
    ghost var macs := b[..];
    StillBuilt(t, start, macs, out);
    PassMergeRetire(b, t);
    merged := b[..];
    SameForTrans(t, start, macs, merged, out);
    MergesMeans(canLower, macs, merged);
    PassCountUses(b, t);
    SameForTrans(t, start, merged, b[..], out);
    BuiltIsWellBuilt(b[..]);
    ButUsesCount(merged, b[..]);
    ButUsesDst(merged, b[..]);
  }

  lemma StillBuilt<W(!new)>(t: Target<W>, start: seq<Insn>, s: seq<Insn>, out: set<Flag>)
    requires Still(t, start, s, out)
    ensures WellBuilt(s)
  {
    BuiltIsWellBuilt(s);
  }

  lemma SameForSelf<W(!new)>(t: Target<W>, s: seq<Insn>, out: set<Flag>)
    ensures SameFor(t, s, s, out) && Same(t, s, s)
  {
  }

  /**
   * The passes in order; an overflowed block is left alone. The result means what the block meant to
   * whatever reads only the flags of `out` after it, and what it meant outright when `out` is all of them.
   */
  method Optimise<W(!new)>(b: array<Insn>, overflow: bool, t: Target<W>, out: set<Flag>, canLower: (Op, nat) -> bool)
    returns (ghost at: Stages)
    requires Ready(b[..])
    modifies b
    ensures SameFor(t, old(b[..]), b[..], out) && (out == ALL ==> Same(t, old(b[..]), b[..]))
    ensures Built(b[..], {}) && (Ordered(old(b[..])) ==> Ordered(b[..]))
    ensures forall i :: 0 <= i < b.Length ==> b[i].dst == old(b[i].dst)
    ensures !overflow ==> forall i :: 0 <= i < b.Length && !b[i].dead && b[i].dst != NONE ==>
              b[i].uses == AtMost255(Count(b[..], b[i].dst))
    ensures Lowers(canLower, old(b[..]), b[..]) && (overflow ==> b[..] == old(b[..]))
    ensures !overflow ==> Staged(t, out, canLower, at) && at.start == old(b[..]) && at.end == b[..]
  {
    hide Same, SameFor, Built, Count, ButUses, Ordered, Lowers, Rewrites, Prunes, Merges, Staged, Still, Forwarded,
         Total, AtMost255, AllFresh;
    ghost var start := b[..];
    at := Stages(start, [], [], [], [], [], [], [], []);
    if overflow {
      SameForSelf(t, start, out);
      LowersSelf(canLower, start);
      return;
    }
    ghost var flags, traffic := Rewrite(b, t, out, canLower);
    ghost var fused := b[..];
    ghost var puts, values := Prune(b, t, out, canLower, start);
    ghost var macs := b[..];
    ghost var merged := Settle(b, t, out, canLower, start);
    at := Stages(start, flags, traffic, fused, puts, values, macs, merged, b[..]);
    StagedMeans(t, out, canLower, at);
    SameForAll(t, start, b[..]);
    OrderedAlike(start, b[..]);
  }

  lemma OrderedAlike(s: seq<Insn>, r: seq<Insn>)
    requires |s| == |r| && forall i :: 0 <= i < |s| ==> s[i].dst == r[i].dst
    ensures Ordered(s) ==> Ordered(r)
  {
  }

  lemma ButUsesDst(s: seq<Insn>, r: seq<Insn>)
    requires ButUses(s, r)
    ensures |s| == |r| && forall i :: 0 <= i < |s| ==> s[i].dst == r[i].dst
  {
  }

  lemma {:induction false} ButUsesCounts(s: seq<Insn>, r: seq<Insn>, k: nat)
    requires ButUses(s, r)
    ensures Count(s, k) == Count(r, k)
  {
    if s != [] {
      ButUsesCounts(s[..|s| - 1], r[..|r| - 1], k);
    }
  }

  lemma ButUsesCount(s: seq<Insn>, r: seq<Insn>)
    requires ButUses(s, r)
    ensures forall k :: Count(s, k) == Count(r, k)
  {
    forall k
      ensures Count(s, k) == Count(r, k)
    {
      ButUsesCounts(s, r, k);
    }
  }

  // ---- a block that closes on itself ----

  lemma {:induction false} TempsForgotten<W>(t: Target<W>, s: seq<Insn>, defined: set<nat>, g: Guest<W>, n: nat,
                                             p: Temps, q: Temps)
    requires Built(s, defined) && AgreeOn(p, q, defined) && NONE !in defined
    ensures Exec(t, s, g, n, p) == Exec(t, s, g, n, q)
    decreases |s|
  {
    if s != [] {
      var x := s[0];
      assert s == [x] + s[1..];
      ExecCons(t, x, s[1..], g, n, p);
      ExecCons(t, x, s[1..], g, n, q);
      hide Exec, Perform;
      if x.dead {
        TempsForgotten(t, s[1..], defined + Defines(x), g, n, p, q);
      } else {
        assert Operands(x) <= defined;
        PerformAgrees(t, x, g, n, p, q);
        var out := Perform(t, x, g, n, p);
        if out.Next? {
          assert AgreeOn(Bind(p, x, out.value), Bind(q, x, out.value), defined + Defines(x));
          TempsForgotten(t, s[1..], defined + Defines(x), out.guest, out.retired, Bind(p, x, out.value),
                         Bind(q, x, out.value));
        }
      }
    }
  }

  const LOOP_CAP: nat := 128

  /**
   * The block run again while it closes on itself and has retired fewer than the cap; `junk` is what the temps are
   * found holding.
   */
  function Loop<W>(t: Target<W>, s: seq<Insn>, g: Guest<W>, n: nat, junk: nat -> Temps, passes: nat): Result<W>
    decreases passes
  {
    var r := Exec(t, s, g, n, junk(passes));
    if passes > 0 && r.again && r.retired < LOOP_CAP then Loop(t, s, r.guest, r.retired, junk, passes - 1) else r
  }

  lemma PassSame<W(!new)>(t: Target<W>, s: seq<Insn>, r: seq<Insn>, g: Guest<W>, n: nat, p: Temps, q: Temps)
    requires Same(t, s, r) && Built(s, {})
    ensures Exec(t, s, g, n, p) == Exec(t, r, g, n, q)
  {
    TempsForgotten(t, s, {}, g, n, p, q);
    hide Built, Exec;
  }

  /** Optimised or not, and whatever earlier passes left in the temps, it does the same for any number of passes. */
  lemma {:induction false} LoopSame<W(!new)>(t: Target<W>, s: seq<Insn>, r: seq<Insn>, g: Guest<W>, n: nat,
                                             junk: nat -> Temps, other: nat -> Temps, passes: nat)
    requires Same(t, s, r) && Built(s, {})
    ensures Loop(t, s, g, n, junk, passes) == Loop(t, r, g, n, other, passes)
    decreases passes
  {
    hide Exec, Same, Built;
    PassSame(t, s, r, g, n, junk(passes), other(passes));
    var end := Exec(t, s, g, n, junk(passes));
    if passes > 0 && end.again && end.retired < LOOP_CAP {
      LoopSame(t, s, r, end.guest, end.retired, junk, other, passes - 1);
    }
  }

  /** Each pass that closes on itself retires something. */
  ghost predicate Progresses<W(!new)>(t: Target<W>, s: seq<Insn>) {
    forall g, n, tmp :: Exec(t, s, g, n, tmp).again ==> Exec(t, s, g, n, tmp).retired > n
  }

  /**
   * Then the bound on passes is none: any two that reach the cap give one result, and it is where the
   * loop ends of itself.
   */
  lemma {:induction false} LoopSettles<W(!new)>(t: Target<W>, s: seq<Insn>, g: Guest<W>, n: nat, junk: nat -> Temps,
                                                other: nat -> Temps, passes: nat, more: nat)
    requires Built(s, {}) && Progresses(t, s) && n + passes >= LOOP_CAP && n + more >= LOOP_CAP
    ensures Loop(t, s, g, n, junk, passes) == Loop(t, s, g, n, other, more)
    ensures var r := Loop(t, s, g, n, junk, passes); !(r.again && r.retired < LOOP_CAP)
    decreases passes
  {
    hide Exec, Built;
    TempsForgotten(t, s, {}, g, n, junk(passes), other(more));
    var end := Exec(t, s, g, n, junk(passes));
    if end.again && end.retired < LOOP_CAP {
      assert end.retired > n;
      LoopSettles(t, s, end.guest, end.retired, junk, other, passes - 1, more - 1);
    }
  }
}
