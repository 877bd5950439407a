/**
 * The carry-less multiplies of the RISC-V Zbc extension: three loops, each a 32-bit slice of one
 * polynomial product over GF(2).
 */
module Clmul {
  import opened Bits

  /** Every bit of the mask is bit `i` of `b`. */
  function BitMask(b: Word, i: nat): Word
    requires i < 32
  {
    seq(32, k => b[i])
  }

  /** Which is what negating the isolated bit gives, in 32-bit arithmetic. */
  lemma NegatedBit(b: bv32, i: bv32)
    requires i < 32
    ensures 0 - ((b >> i) & 1) == if (b >> i) & 1 == 1 then 0xFFFF_FFFF else 0
  {
  }

  // ---- the product ----

  function At(a: Word, i: int): bool {
    0 <= i < 32 && a[i]
  }

  /** The sum over GF(2). */
  function Sum(s: seq<bool>): bool {
    if s == [] then false else Sum(s[..|s| - 1]) != s[|s| - 1]
  }

  function Term(a: Word, b: Word, k: int, i: int): bool {
    At(b, i) && At(a, k - i)
  }

  /** The first `n` terms of coefficient `k`. */
  function Terms(a: Word, b: Word, k: int, n: nat): seq<bool> {
    seq(n, i => Term(a, b, k, i))
  }

  function Partial(a: Word, b: Word, k: int, n: nat): bool {
    Sum(Terms(a, b, k, n))
  }

  lemma PartialStep(a: Word, b: Word, k: int, n: nat)
    ensures Partial(a, b, k, 0) == false
    ensures Partial(a, b, k, n + 1) == (Partial(a, b, k, n) != Term(a, b, k, n))
  {
    assert Terms(a, b, k, n + 1)[..n] == Terms(a, b, k, n);
  }

  /** Coefficient `k` of the product of two polynomials of 32 coefficients. */
  function Coefficient(a: Word, b: Word, k: int): bool {
    Partial(a, b, k, 32)
  }

  /** Thirty-two coefficients of the product from `low` up. */
  function Slice(a: Word, b: Word, low: nat): Word {
    seq(32, k => Coefficient(a, b, low + k))
  }

  /** `r` holds the first `n` terms of each coefficient from `low` up. */
  predicate Holds(r: Word, a: Word, b: Word, low: nat, n: nat) {
    forall k :: 0 <= k < 32 ==> r[k] == Partial(a, b, low + k, n)
  }

  lemma HoldsNone(a: Word, b: Word, low: nat)
    ensures Holds(Zero(), a, b, low, 0)
  {
    forall k | 0 <= k < 32
      ensures Zero()[k] == Partial(a, b, low + k, 0)
    {
      PartialStep(a, b, low + k, 0);
    }
  }

  /** One more term in each place. */
  lemma HoldsMore(r: Word, a: Word, b: Word, low: nat, n: nat, shifted: Word)
    requires Holds(r, a, b, low, n) && n < 32
    requires forall k :: 0 <= k < 32 ==> shifted[k] == At(a, low + k - n)
    ensures Holds(Xor(r, And(shifted, BitMask(b, n))), a, b, low, n + 1)
  {
    var next := Xor(r, And(shifted, BitMask(b, n)));
    forall k | 0 <= k < 32
      ensures next[k] == Partial(a, b, low + k, n + 1)
    {
      hide Partial;
      PartialStep(a, b, low + k, n);
    }
  }

  // ---- the loops ----

  method ClmulLow(a: Word, b: Word) returns (r: Word)
    ensures r == Slice(a, b, 0)
  {
    hide Partial;
    r := Zero();
    HoldsNone(a, b, 0);
    for i := 0 to 32
      invariant Holds(r, a, b, 0, i)
    {
      HoldsMore(r, a, b, 0, i, Shl(a, i));
      r := Xor(r, And(Shl(a, i), BitMask(b, i)));
    }
  }

  method ClmulHigh(a: Word, b: Word) returns (r: Word)
    ensures r == Slice(a, b, 32)
  {
    hide Partial;
    r := Zero();
    HoldsNone(a, b, 32);
    HoldsMore(r, a, b, 32, 0, Zero());
    assert Xor(r, And(Zero(), BitMask(b, 0))) == r;
    for i := 1 to 32
      invariant Holds(r, a, b, 32, i)
    {
      HoldsMore(r, a, b, 32, i, Shr(a, 32 - i));
      r := Xor(r, And(Shr(a, 32 - i), BitMask(b, i)));
    }
  }

  method ClmulReversed(a: Word, b: Word) returns (r: Word)
    ensures r == Slice(a, b, 31)
  {
    hide Partial;
    r := Zero();
    HoldsNone(a, b, 31);
    for i := 0 to 32
      invariant Holds(r, a, b, 31, i)
    {
      HoldsMore(r, a, b, 31, i, Shr(a, 31 - i));
      r := Xor(r, And(Shr(a, 31 - i), BitMask(b, i)));
    }
  }

  // ---- what they have to do with one another ----

  /** The middle slice from the outer two. */
  lemma ReversedFromHalves(a: Word, b: Word)
    ensures Slice(a, b, 31) == Or(Shl(Slice(a, b, 32), 1), Shr(Slice(a, b, 0), 31))
  {
  }

  lemma {:induction false} SumZeros(s: seq<bool>, t: seq<bool>)
    requires forall i :: 0 <= i < |t| ==> !t[i]
    ensures Sum(s + t) == Sum(s)
  {
    if t == [] {
      assert s + t == s;
    } else {
      assert (s + t)[..|s + t| - 1] == s + t[..|t| - 1];
      SumZeros(s, t[..|t| - 1]);
    }
  }

  lemma {:induction false} SumFront(x: bool, s: seq<bool>)
    ensures Sum([x] + s) == (x != Sum(s))
  {
    if s == [] {
      assert ([x] + s)[..0] == [];
    } else {
      assert ([x] + s)[..|s|] == [x] + s[..|s| - 1];
      SumFront(x, s[..|s| - 1]);
    }
  }

  /** A sum may be taken backwards. */
  lemma {:induction false} SumReversed(s: seq<bool>, t: seq<bool>)
    requires |s| == |t| && forall i :: 0 <= i < |s| ==> t[i] == s[|s| - 1 - i]
    ensures Sum(s) == Sum(t)
  {
    if s != [] {
      SumReversed(s[..|s| - 1], t[1..]);
      SumFront(t[0], t[1..]);
      assert [t[0]] + t[1..] == t;
    }
  }

  lemma {:induction false} SumAdds(s: seq<bool>, t: seq<bool>, u: seq<bool>)
    requires |s| == |t| == |u| && forall i :: 0 <= i < |s| ==> u[i] == (s[i] != t[i])
    ensures Sum(u) == (Sum(s) != Sum(t))
  {
    if s != [] {
      var n := |s| - 1;
      SumAdds(s[..n], t[..n], u[..n]);
    }
  }

  /** Coefficient `k` needs only the terms up to `k`. */
  lemma CoefficientUpTo(a: Word, b: Word, k: nat)
    ensures Coefficient(a, b, k) == Sum(Terms(a, b, k, k + 1))
  {
    var all, some := Terms(a, b, k, 32), Terms(a, b, k, k + 1);
    if k < 32 {
      assert all == some + all[k + 1..];
      SumZeros(some, all[k + 1..]);
    } else {
      assert some == all + some[32..];
      SumZeros(all, some[32..]);
    }
  }

  lemma CoefficientCommutes(a: Word, b: Word, k: nat)
    ensures Coefficient(a, b, k) == Coefficient(b, a, k)
  {
    CoefficientUpTo(a, b, k);
    CoefficientUpTo(b, a, k);
    SumReversed(Terms(a, b, k, k + 1), Terms(b, a, k, k + 1));
  }

  lemma Commutes(a: Word, b: Word, low: nat)
    ensures Slice(a, b, low) == Slice(b, a, low)
  {
    hide Coefficient;
    forall k: nat
      ensures Coefficient(a, b, k) == Coefficient(b, a, k)
    {
      CoefficientCommutes(a, b, k);
    }
  }

  lemma CoefficientAdds(a: Word, b: Word, c: Word, k: nat)
    ensures Coefficient(a, Xor(b, c), k) == (Coefficient(a, b, k) != Coefficient(a, c, k))
  {
    SumAdds(Terms(a, b, k, 32), Terms(a, c, k, 32), Terms(a, Xor(b, c), k, 32));
  }

  lemma Distributes(a: Word, b: Word, c: Word, low: nat)
    ensures Slice(a, Xor(b, c), low) == Xor(Slice(a, b, low), Slice(a, c, low))
    ensures Slice(Xor(b, c), a, low) == Xor(Slice(b, a, low), Slice(c, a, low))
  {
    hide Coefficient;
    forall k: nat
      ensures Coefficient(a, Xor(b, c), k) == (Coefficient(a, b, k) != Coefficient(a, c, k))
    {
      CoefficientAdds(a, b, c, k);
    }
    Commutes(a, Xor(b, c), low);
    Commutes(a, b, low);
    Commutes(a, c, low);
  }

  /** The product has 63 coefficients, so the low and high slices hold all of it. */
  lemma ProductEnds(a: Word, b: Word, k: nat)
    requires k >= 63
    ensures !Coefficient(a, b, k)
  {
    assert Terms(a, b, k, 32) == [] + Terms(a, b, k, 32);
    SumZeros([], Terms(a, b, k, 32));
  }
}
