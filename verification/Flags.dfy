/**
 * The ARMv7-M condition flags in their two forms: packed in xPSR, or split into four words the way
 * translated code keeps them. ITSTATE stays in xPSR in both.
 */
module Flags {
  import opened Bits

  const N: nat := 31
  const Z: nat := 30
  const C: nat := 29
  const V: nat := 28

  /** The word whose bits from `low` up to `high` are set. */
  function Mask(low: nat, high: nat): Word {
    seq(32, k => low <= k < high)
  }

  // ---- ITSTATE: bits 1:0 in 26:25 and bits 7:2 in 15:10 ----

  function ItGet(xpsr: Word): Word {
    Or(And(Shr(xpsr, 25), Mask(0, 2)), Shl(And(Shr(xpsr, 10), Mask(0, 6)), 2))
  }

  function ItPut(xpsr: Word, it: Word): Word {
    Or(Or(And(xpsr, Not(Or(Mask(25, 27), Mask(10, 16)))),
          Shl(And(it, Mask(0, 2)), 25)),
       Shl(And(Shr(it, 2), Mask(0, 6)), 10))
  }

  predicate ItPlace(k: nat) {
    25 <= k < 27 || 10 <= k < 16
  }

  /** What is put is what is got, and no other bit moves. */
  lemma ItRoundTrip(xpsr: Word, it: Word)
    ensures ItGet(ItPut(xpsr, it)) == And(it, Mask(0, 8))
    ensures forall k :: 0 <= k < 32 && !ItPlace(k) ==> ItPut(xpsr, it)[k] == xpsr[k]
    ensures ItPut(xpsr, ItGet(xpsr)) == xpsr
  {
    ItPutAt(xpsr, it);
    ItPutAt(xpsr, ItGet(xpsr));
    ItGetAt(ItPut(xpsr, it));
    ItGetAt(xpsr);
  }

  lemma ItPutAt(xpsr: Word, it: Word)
    ensures forall k :: 0 <= k < 32 ==>
              ItPut(xpsr, it)[k] == if 25 <= k < 27 then it[k - 25] else if 10 <= k < 16 then it[k - 8] else xpsr[k]
  {
  }

  lemma ItGetAt(xpsr: Word)
    ensures forall k :: 0 <= k < 32 ==>
              ItGet(xpsr)[k] == if k < 2 then xpsr[k + 25] else k < 8 && xpsr[k + 8]
  {
  }

  // ---- what updates mean ----

  /** A flag or ITSTATE update, a read of ITSTATE, or a change of form. */
  datatype Op =
    SetN(n: Word) | SetZ(z: Word) | SetC(c: Word) | SetV(v: Word) | PutIt(it: Word) | GetIt | Pack | Unpack

  /** What an update means to a register that is always packed. */
  function Meaning(x: Word, op: Op): Word {
    match op
    case SetN(n) => x[N := n[31]]
    case SetZ(z) => x[Z := z == Zero()]
    case SetC(c) => x[C := c != Zero()]
    case SetV(v) => x[V := v[31]]
    case PutIt(it) => ItPut(x, it)
    case GetIt => x
    case Pack => x
    case Unpack => x
  }

  function Meanings(x: Word, ops: seq<Op>): Word {
    if ops == [] then x else Meaning(Meanings(x, ops[..|ops| - 1]), ops[|ops| - 1])
  }

  /** What the reads of ITSTATE among them give. */
  function Readings(x: Word, ops: seq<Op>): seq<Word> {
    if ops == [] then []
    else
      var init := ops[..|ops| - 1];
      Readings(x, init) + if ops[|ops| - 1].GetIt? then [ItGet(Meanings(x, init))] else []
  }

  /** Flag updates touch no ITSTATE bit, and ITSTATE updates no flag. */
  lemma UpdatesApart(x: Word, op: Op, k: nat)
    requires k < 32
    ensures !op.PutIt? && ItPlace(k) ==> Meaning(x, op)[k] == x[k]
    ensures op.PutIt? && k >= V ==> Meaning(x, op)[k] == x[k]
  {
    if op.PutIt? {
      ItRoundTrip(x, op.it);
    }
  }

  /** xPSR with its flags taken from the split words. */
  function Packed(xpsr: Word, nf: Word, zf: Word, cf: Word, vf: Word): Word {
    Or(Or(Or(And(xpsr, Mask(0, 28)), And(nf, Mask(31, 32))),
          Or(if zf == Zero() then Mask(30, 31) else Zero(), if cf != Zero() then Mask(29, 30) else Zero())),
       Shl(Shr(vf, 31), 28))
  }

  lemma PackedAt(xpsr: Word, nf: Word, zf: Word, cf: Word, vf: Word)
    ensures Packed(xpsr, nf, zf, cf, vf) == xpsr[..28] + [vf[31], cf != Zero(), zf == Zero(), nf[31]]
  {
    var p := Packed(xpsr, nf, zf, cf, vf);
    var flags := [vf[31], cf != Zero(), zf == Zero(), nf[31]];
    forall k | 0 <= k < 32
      ensures p[k] == (xpsr[..28] + flags)[k]
    {
    }
  }

  lemma PackedUnpacked(x: Word, cf: Word, zf: Word, vf: Word)
    requires vf[31] == x[V] && (cf != Zero() <==> x[C]) && (zf == Zero() <==> x[Z])
    ensures Packed(x, x, zf, cf, vf) == x
  {
    PackedAt(x, x, zf, cf, vf);
    assert x[..28] + [x[28], x[29], x[30], x[31]] == x;
  }

  lemma ZeroAt(w: Word, k: nat)
    requires k < 32 && w[k]
    ensures w != Zero()
  {
    assert !Zero()[k];
  }

  lemma PackedItPut(xpsr: Word, nf: Word, zf: Word, cf: Word, vf: Word, it: Word)
    ensures Packed(ItPut(xpsr, it), nf, zf, cf, vf) == ItPut(Packed(xpsr, nf, zf, cf, vf), it)
  {
    PackedAt(ItPut(xpsr, it), nf, zf, cf, vf);
    PackedAt(xpsr, nf, zf, cf, vf);
    ItPutAt(xpsr, it);
    ItPutAt(Packed(xpsr, nf, zf, cf, vf), it);
    hide Packed, ItPut;
  }

  /** Changing one split word changes one bit. */
  lemma PackedUpdates(xpsr: Word, nf: Word, zf: Word, cf: Word, vf: Word, w: Word)
    ensures Packed(xpsr, w, zf, cf, vf) == Packed(xpsr, nf, zf, cf, vf)[N := w[31]]
    ensures Packed(xpsr, nf, w, cf, vf) == Packed(xpsr, nf, zf, cf, vf)[Z := w == Zero()]
    ensures Packed(xpsr, nf, zf, w, vf) == Packed(xpsr, nf, zf, cf, vf)[C := w != Zero()]
    ensures Packed(xpsr, nf, zf, cf, w) == Packed(xpsr, nf, zf, cf, vf)[V := w[31]]
  {
    PackedAt(xpsr, nf, zf, cf, vf);
    PackedAt(xpsr, w, zf, cf, vf);
    PackedAt(xpsr, nf, w, cf, vf);
    PackedAt(xpsr, nf, zf, w, vf);
    PackedAt(xpsr, nf, zf, cf, w);
    hide Packed;
  }

  class Cpu {
    var xpsr: Word
    var nf: Word
    var zf: Word
    var cf: Word
    var vf: Word
    var split: bool

    /** The xPSR this state stands for. */
    function Xpsr(): Word
      reads this
    {
      if split then Packed(xpsr, nf, zf, cf, vf) else xpsr
    }

    method DoPack()
      modifies this
      ensures !split && Xpsr() == old(Xpsr())
    {
      if split {
        xpsr := Or(Or(Or(And(xpsr, Mask(0, 28)), And(nf, Mask(31, 32))),
                      Or(if zf == Zero() then Mask(30, 31) else Zero(), if cf != Zero() then Mask(29, 30) else Zero())),
                   Shl(Shr(vf, 31), 28));
        split := false;
      }
    }

    method DoUnpack()
      modifies this
      ensures split && Xpsr() == old(Xpsr())
    {
      if !split {
        nf := xpsr;
        zf := if And(xpsr, Mask(30, 31)) != Zero() then Zero() else Mask(0, 1);
        cf := And(Shr(xpsr, 29), Mask(0, 1));
        vf := Shl(And(xpsr, Mask(28, 29)), 3);
        split := true;
        UnpackedFlags(xpsr);
        PackedUnpacked(xpsr, cf, zf, vf);
      }
    }

    method DoPutIt(it: Word)
      modifies this
      ensures split == old(split) && Xpsr() == ItPut(old(Xpsr()), it)
    {
      PackedItPut(xpsr, nf, zf, cf, vf, it);
      xpsr := ItPut(xpsr, it);
    }

    /** ITSTATE reads the same in both forms. */
    method DoGetIt() returns (it: Word)
      ensures it == ItGet(Xpsr())
    {
      it := ItGet(xpsr);
      PackedAt(xpsr, nf, zf, cf, vf);
      ItGetAt(xpsr);
      ItGetAt(Xpsr());
      hide ItGet, Packed;
    }

    /** A flag written in the form the flags are in. */
    method Update(op: Op)
      requires op.SetN? || op.SetZ? || op.SetC? || op.SetV?
      modifies this
      ensures split == old(split) && Xpsr() == Meaning(old(Xpsr()), op)
    {
      hide Packed, Zero;
      match op
      case SetN(n) =>
        PackedUpdates(xpsr, nf, zf, cf, vf, n);
        if split { nf := n; } else { xpsr := xpsr[N := n[31]]; }
      case SetZ(z) =>
        PackedUpdates(xpsr, nf, zf, cf, vf, z);
        if split { zf := z; } else { xpsr := xpsr[Z := z == Zero()]; }
      case SetC(c) =>
        PackedUpdates(xpsr, nf, zf, cf, vf, c);
        if split { cf := c; } else { xpsr := xpsr[C := c != Zero()]; }
      case SetV(v) =>
        PackedUpdates(xpsr, nf, zf, cf, vf, v);
        if split { vf := v; } else { xpsr := xpsr[V := v[31]]; }
    }

    /** Any run of updates, reads and changes of form reads and leaves what an always-packed register would hold. */
    method Run(ops: seq<Op>) returns (read: seq<Word>)
      modifies this
      ensures Xpsr() == Meanings(old(Xpsr()), ops) && read == Readings(old(Xpsr()), ops)
    {
      hide ItPut, ItGet, Xpsr;
      read := [];
      for i := 0 to |ops|
        invariant Xpsr() == Meanings(old(Xpsr()), ops[..i]) && read == Readings(old(Xpsr()), ops[..i])
      {
        assert ops[..i + 1][..i] == ops[..i];
        match ops[i]
        case Pack => DoPack();
        case Unpack => DoUnpack();
        case PutIt(it) => DoPutIt(it);
        case GetIt =>
          var it := DoGetIt();
          read := read + [it];
        case _ => Update(ops[i]);
      }
      assert ops[..|ops|] == ops;
    }
  }

  lemma UnpackedFlags(x: Word)
    ensures (And(x, Mask(30, 31)) != Zero() <==> x[Z]) && (And(Shr(x, 29), Mask(0, 1)) != Zero() <==> x[C])
    ensures Shl(And(x, Mask(28, 29)), 3)[31] == x[V] && Mask(0, 1) != Zero()
  {
    var z, c := And(x, Mask(30, 31)), And(Shr(x, 29), Mask(0, 1));
    assert z[30] == x[Z] && c[0] == x[C] && Mask(0, 1)[0];
    ZeroAt(Mask(0, 1), 0);
    if x[Z] {
      ZeroAt(z, 30);
    } else {
      assert z == Zero();
    }
    if x[C] {
      ZeroAt(c, 0);
    } else {
      assert c == Zero();
    }
  }
}
