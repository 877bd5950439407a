/** Merged retirements: between two places where the count can be read, one RETIRE carries it all. */
module IrRetire {
  import opened Words
  import opened Ir
  import opened IrRewrite

  predicate IsRetire(x: Insn) {
    !x.dead && x.op.Retire?
  }

  /** What a whole block retires if nothing leaves it early. */
  function Total(s: seq<Insn>): nat {
    if s == [] then 0 else Total(s[..|s| - 1]) + Amount(s[|s| - 1])
  }

  lemma {:induction false} TotalSet(s: seq<Insn>, i: nat, y: Insn)
    requires i < |s|
    ensures Total(s[i := y]) + Amount(s[i]) == Total(s) + Amount(y)
  {
    var n := |s| - 1;
    if i < n {
      assert s[i := y][..n] == s[..n][i := y];
      TotalSet(s[..n], i, y);
    } else {
      assert s[i := y][..n] == s[..n];
    }
  }

  lemma {:induction false} TotalAlike(s: seq<Insn>, r: seq<Insn>)
    requires SameFrame(s, r)
    ensures Total(s) == Total(r)
  {
    if s != [] {
      TotalAlike(s[..|s| - 1], r[..|r| - 1]);
    }
  }

  /** Nothing that reads the count or adds to it. */
  predicate Quiet(x: Insn) {
    x.dead || (!Observes(x.op) && !x.op.Retire?)
  }

  lemma PerformQuiet<W>(t: Target<W>, x: Insn, g: Guest<W>, n: nat, m: nat, tmp: Temps)
    requires !x.dead && Quiet(x)
    ensures var p := Perform(t, x, g, n, tmp);
            p.Next? && p.retired == n && Perform(t, x, g, m, tmp) == p.(retired := m)
  {
    hide Value, Change, Arg;
  }

  lemma PerformRetire<W>(t: Target<W>, x: Insn, g: Guest<W>, n: nat, tmp: Temps)
    requires x.op.Retire?
    ensures Perform(t, x, g, n, tmp) == Next(g, n + RetireCount(x.imm), 0)
  {
    hide Value, Arg;
  }

  lemma CarryHere<W>(t: Target<W>, x: Insn, y: Insn, rest: seq<Insn>, c: nat, g: Guest<W>, n: nat, tmp: Temps)
    requires IsRetire(x) && IsRetire(y) && x.dst == y.dst == NONE && RetireCount(y.imm) == c + RetireCount(x.imm)
    ensures Exec(t, [x] + rest, g, n + c, tmp) == Exec(t, [y] + rest, g, n, tmp)
  {
    hide Perform, Exec, RetireCount;
    ExecCons(t, x, rest, g, n + c, tmp);
    ExecCons(t, y, rest, g, n, tmp);
    PerformRetire(t, x, g, n + c, tmp);
    PerformRetire(t, y, g, n, tmp);
  }

  /** A count carried over quiet instructions into a later RETIRE. */
  lemma {:induction false} CarryExec<W>(t: Target<W>, s: seq<Insn>, i: nat, y: Insn, c: nat, g: Guest<W>, n: nat,
                                        tmp: Temps)
    requires i < |s| && IsRetire(s[i]) && IsRetire(y) && s[i].dst == y.dst == NONE
    requires RetireCount(y.imm) == c + RetireCount(s[i].imm)
    requires forall j :: 0 <= j < i ==> Quiet(s[j])
    ensures Exec(t, s, g, n + c, tmp) == Exec(t, s[i := y], g, n, tmp)
    decreases i
  {
    hide Exec, Perform, RetireCount;
    var x, rest := s[0], s[1..];
    assert s == [x] + rest;
    if i == 0 {
      assert s[0 := y] == [y] + rest;
      CarryHere(t, x, y, rest, c, g, n, tmp);
    } else {
      assert s[i := y] == [x] + rest[i - 1 := y];
      assert forall j :: 0 <= j < |rest| ==> rest[j] == s[j + 1];
      ExecCons(t, x, rest, g, n + c, tmp);
      ExecCons(t, x, rest[i - 1 := y], g, n, tmp);
      assert Quiet(x);
      if x.dead {
        CarryExec(t, rest, i - 1, y, c, g, n, tmp);
      } else {
        PerformQuiet(t, x, g, n, n + c, tmp);
        var p := Perform(t, x, g, n, tmp);
        CarryExec(t, rest, i - 1, y, c, p.guest, n, Bind(tmp, x, p.value));
      }
    }
  }

  /** RETIRE `k` gone and its count in RETIRE `i`. */
  function Merged(s: seq<Insn>, k: nat, i: nat, y: Insn): seq<Insn>
    requires k < |s| && i < |s|
  {
    s[i := y][k := s[k].(dead := true)]
  }

  predicate Mergeable(s: seq<Insn>, k: nat, i: nat, y: Insn) {
    && k < i < |s| && IsRetire(s[k]) && IsRetire(s[i]) && y == s[i].(imm := y.imm)
    && s[k].dst == NONE && s[i].dst == NONE
    && RetireCount(y.imm) == RetireCount(s[k].imm) + RetireCount(s[i].imm)
    && forall j :: k < j < i ==> Quiet(s[j])
  }

  lemma MergeHere<W>(t: Target<W>, s: seq<Insn>, i: nat, y: Insn, g: Guest<W>, n: nat, tmp: Temps)
    requires Mergeable(s, 0, i, y)
    ensures Exec(t, s, g, n, tmp) == Exec(t, Merged(s, 0, i, y), g, n, tmp)
  {
    hide Perform, Exec, RetireCount;
    var x, rest := s[0], s[1..];
    var gone := x.(dead := true);
    assert s == [x] + rest && Merged(s, 0, i, y) == [gone] + rest[i - 1 := y];
    assert forall j :: 0 <= j < |rest| ==> rest[j] == s[j + 1];
    ExecCons(t, x, rest, g, n, tmp);
    ExecCons(t, gone, rest[i - 1 := y], g, n, tmp);
    PerformRetire(t, x, g, n, tmp);
    CarryExec(t, rest, i - 1, y, RetireCount(x.imm), g, n, tmp);
  }

  /** Merging two retirements preserves meaning. */
  lemma MergeSame<W(!new)>(t: Target<W>, s: seq<Insn>, k: nat, i: nat, y: Insn)
    requires Mergeable(s, k, i, y)
    ensures Same(t, s, Merged(s, k, i, y))
  {
    var rest := s[k..];
    assert Mergeable(rest, 0, i - k, y) by {
      assert forall j :: 0 <= j < |rest| ==> rest[j] == s[j + k];
    }
    assert Same(t, rest, Merged(rest, 0, i - k, y)) by {
      forall g, n, tmp
        ensures Exec(t, rest, g, n, tmp) == Exec(t, Merged(rest, 0, i - k, y), g, n, tmp)
      {
        MergeHere(t, rest, i - k, y, g, n, tmp);
      }
    }
    SamePrefix(t, s[..k], rest, Merged(rest, 0, i - k, y));
    assert s[..k] + rest == s;
    assert s[..k] + Merged(rest, 0, i - k, y) == Merged(s, k, i, y);
  }

  lemma MergeTotal(s: seq<Insn>, k: nat, i: nat, y: Insn)
    requires Mergeable(s, k, i, y)
    ensures Total(Merged(s, k, i, y)) == Total(s)
  {
    TotalSet(s, i, y);
    TotalSet(s[i := y], k, s[k].(dead := true));
  }

  // ---- the pass ----

  /** From `k` on, up to `i`, nothing has read the count since RETIRE `k`. */
  predicate Carried(s: seq<Insn>, carry: Option<nat>, i: nat)
    requires i <= |s|
  {
    carry.Some? ==> carry.value < i && IsRetire(s[carry.value]) && s[carry.value].imm != 0 &&
                    forall j :: carry.value < j < i ==> Quiet(s[j])
  }

  ghost predicate Kept<W(!new)>(t: Target<W>, start: seq<Insn>, s: seq<Insn>) {
    && Same(t, start, s) && WellBuilt(s) && Total(s) == Total(start)
    && |s| == |start| && forall i :: 0 <= i < |s| ==> s[i].dst == start[i].dst
  }

  lemma RetireWellBuilt(s: seq<Insn>, i: nat, y: Insn)
    requires WellBuilt(s) && i < |s| && IsRetire(s[i]) && (y == s[i].(imm := y.imm) || y == s[i].(dead := true))
    ensures s[i].dst == NONE && WellBuilt(s[i := y])
  {
    assert PlaceOk(s, i);
    var r := s[i := y];
    forall j | 0 <= j < |r|
      ensures PlaceOk(r, j)
    {
      assert PlaceOk(s, j);
      UptoAlike(s, i, y, j);
    }
  }

  lemma {:induction false} UptoAlike(s: seq<Insn>, i: nat, y: Insn, j: nat)
    requires i < |s| && j <= |s| && Defines(y) == Defines(s[i])
    ensures Upto(s[i := y], j) == Upto(s, j)
  {
    if j > 0 {
      UptoAlike(s, i, y, j - 1);
    }
  }

  lemma {:induction false} AmountBound(s: seq<Insn>, k: nat, i: nat)
    requires k < i < |s|
    ensures Amount(s[k]) + Amount(s[i]) <= Total(s)
    decreases |s|
  {
    var n := |s| - 1;
    if i < n {
      AmountBound(s[..n], k, i);
    } else {
      AmountUnder(s[..n], k);
    }
  }

  lemma {:induction false} AmountUnder(s: seq<Insn>, k: nat)
    requires k < |s|
    ensures Amount(s[k]) <= Total(s)
  {
    if k < |s| - 1 {
      AmountUnder(s[..|s| - 1], k);
    }
  }

  /** A RETIRE that states its count means what it did. */
  lemma NameCount<W(!new)>(t: Target<W>, start: seq<Insn>, s: seq<Insn>, i: nat, y: Insn)
    requires Kept(t, start, s) && i < |s| && IsRetire(s[i]) && y == s[i].(imm := RetireCount(s[i].imm))
    ensures Kept(t, start, s[i := y])
  {
    RetireWellBuilt(s, i, y);
    TotalSet(s, i, y);
    forall g, n, tmp | Facts(t, s, i, tmp)
      ensures Perform(t, s[i], g, n, tmp) == Perform(t, y, g, n, tmp)
    {
      PerformRetire(t, s[i], g, n, tmp);
      PerformRetire(t, y, g, n, tmp);
    }
    hide Perform;
    ReplaceSame(t, s, i, y);
    SameTrans(t, start, s, s[i := y]);
  }

  lemma MergeKept<W(!new)>(t: Target<W>, start: seq<Insn>, s: seq<Insn>, k: nat, i: nat, y: Insn)
    requires Kept(t, start, s) && Total(start) < TOP && k < i < |s| && IsRetire(s[k]) && IsRetire(s[i])
    requires s[k].imm != 0 && (forall j :: k < j < i ==> Quiet(s[j]))
    requires y == s[i].(imm := Add32(RetireCount(s[i].imm), s[k].imm))
    ensures Kept(t, start, Merged(s, k, i, y)) && y.imm != 0
  {
    AmountBound(s, k, i);
    RetireWellBuilt(s, i, y);
    RetireWellBuilt(s, k, s[k].(dead := true));
    assert Mergeable(s, k, i, y);
    MergeSame(t, s, k, i, y);
    MergeTotal(s, k, i, y);
    SameTrans(t, start, s, Merged(s, k, i, y));
    RetireWellBuilt(s[i := y], k, s[k].(dead := true));
  }

  /** Something live between two places may look at the count. */
  predicate SeenBetween(s: seq<Insn>, i: nat, j: nat) {
    exists k :: i < k < j && k < |s| && !s[k].dead && Observes(s[k].op)
  }

  /** Between any two retirements before `n` something looks. */
  ghost predicate Separated(s: seq<Insn>, n: nat) {
    forall i, j :: 0 <= i < j < n && j < |s| && IsRetire(s[i]) && IsRetire(s[j]) ==> SeenBetween(s, i, j)
  }

  /** And since any of them but the one carried. */
  ghost predicate Settled(s: seq<Insn>, carry: Option<nat>, n: nat) {
    forall i :: 0 <= i < n && i < |s| && IsRetire(s[i]) ==> carry == Some(i) || SeenBetween(s, i, n)
  }

  /** What the pass may change: a retirement's count, and whether it is there. */
  ghost predicate Recounted(s: seq<Insn>, r: seq<Insn>) {
    |s| == |r| && forall i :: 0 <= i < |s| ==> r[i] == s[i] || RetireOnly(s[i], r[i])
  }

  predicate RetireOnly(x: Insn, y: Insn) {
    IsRetire(x) && y == x.(imm := y.imm, dead := y.dead)
  }

  /** Retirements changed in place leave what looks at the count where it was. */
  lemma SeenStill(s: seq<Insn>, r: seq<Insn>, i: nat, j: nat)
    requires |s| == |r| && forall k :: 0 <= k < |s| ==> r[k] == s[k] || (IsRetire(s[k]) && RetireOnly(s[k], r[k]))
    ensures SeenBetween(s, i, j) ==> SeenBetween(r, i, j)
  {
    if k :| i < k < j && k < |s| && !s[k].dead && Observes(s[k].op) {
      assert r[k] == s[k];
    }
  }

  lemma SeenOn(s: seq<Insn>, i: nat, j: nat, n: nat)
    requires SeenBetween(s, i, j) && j <= n
    ensures SeenBetween(s, i, n)
  {
    var k :| i < k < j && k < |s| && !s[k].dead && Observes(s[k].op);
  }

  /** One retirement taken: the carried one, if any, is gone. */
  lemma TakeOne(s: seq<Insn>, r: seq<Insn>, carry: Option<nat>, i: nat)
    requires |s| == |r| && i < |s| && IsRetire(s[i]) && Separated(s, i) && Settled(s, carry, i)
    requires IsRetire(r[i]) && forall k :: 0 <= k < |s| ==> r[k] == s[k] || (IsRetire(s[k]) && RetireOnly(s[k], r[k]))
    requires forall k :: 0 <= k < |s| && s[k].dead ==> r[k].dead
    requires carry.Some? ==> carry.value < i && r[carry.value].dead
    ensures Separated(r, i + 1) && Settled(r, Some(i), i + 1)
  {
    forall p | 0 <= p < i && IsRetire(r[p])
      ensures SeenBetween(r, p, i)
    {
      assert IsRetire(s[p]);
      assert carry != Some(p);
      SeenStill(s, r, p, i);
    }
    forall p, q | 0 <= p < q < i && IsRetire(r[p]) && IsRetire(r[q])
      ensures SeenBetween(r, p, q)
    {
      assert IsRetire(s[p]) && IsRetire(s[q]);
      SeenStill(s, r, p, q);
    }
    forall p | 0 <= p < i + 1 && IsRetire(r[p])
      ensures p == i || SeenBetween(r, p, i + 1)
    {
      if p < i {
        SeenOn(r, p, i, i + 1);
      }
    }
  }

  /** Any other instruction passed. */
  lemma PassOne(s: seq<Insn>, carry: Option<nat>, i: nat)
    requires i < |s| && !IsRetire(s[i]) && Separated(s, i) && Settled(s, carry, i)
    ensures Separated(s, i + 1)
    ensures Settled(s, if !s[i].dead && Observes(s[i].op) then None else carry, i + 1)
  {
    forall p | 0 <= p < i && IsRetire(s[p])
      ensures SeenBetween(s, p, i + 1) || (carry == Some(p) && (s[i].dead || !Observes(s[i].op)))
    {
      if SeenBetween(s, p, i) {
        SeenOn(s, p, i, i + 1);
      }
    }
  }

  lemma RecountedTrans(s: seq<Insn>, r: seq<Insn>, q: seq<Insn>)
    requires Recounted(s, r) && Recounted(r, q)
    ensures Recounted(s, q)
  {
    forall i | 0 <= i < |s|
      ensures q[i] == s[i] || RetireOnly(s[i], q[i])
    {
      assert r[i] == s[i] || RetireOnly(s[i], r[i]);
      assert q[i] == r[i] || RetireOnly(r[i], q[i]);
    }
  }

  /** What the walk keeps: the block, the one carried, and what is behind it. */
  ghost predicate Walked<W(!new)>(t: Target<W>, start: seq<Insn>, s: seq<Insn>, carry: Option<nat>, i: nat) {
    && Kept(t, start, s) && Total(start) < TOP && i <= |s| && Carried(s, carry, i) && Recounted(start, s)
    && Separated(s, i) && Settled(s, carry, i)
  }

  /** A live retirement: the one carried is added to it, and it is carried instead. */
  method Take<W(!new)>(b: array<Insn>, i: nat, carry: Option<nat>, ghost t: Target<W>, ghost start: seq<Insn>)
    requires Walked(t, start, b[..], carry, i) && i < b.Length && IsRetire(b[i])
    modifies b
    ensures Walked(t, start, b[..], Some(i), i + 1)
  {
    hide Kept, Separated, Settled, Recounted, Total;
    ghost var s := b[..];
    var n := RetireCount(b[i].imm);
    if carry.Some? {
      var k := carry.value;
      ghost var y := s[i].(imm := Add32(n, s[k].imm));
      MergeKept(t, start, s, k, i, y);
      b[i] := b[i].(imm := Add32(n, b[k].imm));
      b[k] := b[k].(dead := true);
      assert b[..] == Merged(s, k, i, y);
    } else {
      NameCount(t, start, s, i, s[i].(imm := n));
      b[i] := b[i].(imm := n);
      assert b[..] == s[i := s[i].(imm := n)];
    }
    TakeOne(s, b[..], carry, i);
    RecountedStep(s, b[..]);
    RecountedTrans(start, s, b[..]);
  }

  lemma WalkBegins<W(!new)>(t: Target<W>, s: seq<Insn>)
    requires WellBuilt(s) && Total(s) < TOP
    ensures Walked(t, s, s, None, 0)
  {
    hide WellBuilt, Total;
  }

  lemma WalkPasses<W(!new)>(t: Target<W>, start: seq<Insn>, s: seq<Insn>, carry: Option<nat>, i: nat)
    requires Walked(t, start, s, carry, i) && i < |s| && !IsRetire(s[i])
    ensures Walked(t, start, s, if !s[i].dead && Observes(s[i].op) then None else carry, i + 1)
  {
    hide Kept, Separated, Settled, Recounted, Total;
    PassOne(s, carry, i);
  }

  lemma WalkEnds<W(!new)>(t: Target<W>, start: seq<Insn>, s: seq<Insn>, carry: Option<nat>)
    requires Walked(t, start, s, carry, |s|)
    ensures Same(t, start, s) && WellBuilt(s) && Total(s) == Total(start)
    ensures |s| == |start| && forall i :: 0 <= i < |s| ==> s[i].dst == start[i].dst
    ensures Separated(s, |s|) && Recounted(start, s)
  {
    hide Same, WellBuilt, Total, Separated, Recounted;
  }

  /** In a block whose count fits a word. */
  method PassMergeRetire<W(!new)>(b: array<Insn>, ghost t: Target<W>)
    requires WellBuilt(b[..]) && Total(b[..]) < TOP
    modifies b
    ensures Same(t, old(b[..]), b[..]) && WellBuilt(b[..]) && Total(b[..]) == old(Total(b[..]))
    ensures forall i :: 0 <= i < b.Length ==> b[i].dst == old(b[i].dst)
    ensures Separated(b[..], b.Length) && Recounted(old(b[..]), b[..])
  {
    hide Walked, Same, WellBuilt, Total, Separated, Recounted;
    ghost var start := b[..];
    var carry: Option<nat> := None;
    WalkBegins(t, start);
    for i := 0 to b.Length
      invariant Walked(t, start, b[..], carry, i)
    {
      if !b[i].dead && b[i].op.Retire? {
        Take(b, i, carry, t, start);
        carry := Some(i);
      } else {
        WalkPasses(t, start, b[..], carry, i);
        if !b[i].dead && Observes(b[i].op) {
          carry := None;
        }
      }
    }
    WalkEnds(t, start, b[..], carry);
  }

  lemma RecountedStep(s: seq<Insn>, r: seq<Insn>)
    requires |s| == |r| && forall i :: 0 <= i < |s| ==> r[i] == s[i] || RetireOnly(s[i], r[i])
    ensures Recounted(s, r)
  {
  }
}
