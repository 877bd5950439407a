/**
 * Whole histories of a bus: any sequence of map changes, loads and accesses through the
 * caches gives the replies, memory and device state of the cacheless walk.
 */
module BusRun {
  import opened Words
  import opened BusWalk
  import opened BusView
  import opened Bus

  /** `own` marks the accessors a big-endian frontend uses, which try only its own caches. */
  datatype Op =
    | OpAdd(region: Region)
    | OpEndian(on: bool)
    | OpFlush
    | OpLoad(addr: u32, bytes: seq<u8>)
    | OpRead(addr: u32, size: nat, own: bool)
    | OpWrite(addr: u32, size: nat, v: u32, own: bool)
    | OpFetch(addr: u32, own: bool)

  datatype Reply = Accessed(access: Access) | Taken(ok: bool) | Silent

  /** Everything about a bus but its caches. */
  datatype World<D> = World(regions: seq<Region>, be: bool, mem: seq<u8>, dev: D)

  ghost predicate Sound<D>(w: World<D>) {
    Table(w.regions, |w.mem|) && AllUniform(w.regions)
  }

  /** What callers owe: real buffers, access sizes, and RAM that takes every width or none. */
  predicate Legal(cap: nat, op: Op) {
    match op
    case OpAdd(r) => Uniform(r) && (Plain(r) ==> r.host + r.size <= cap)
    case OpLoad(_, s) => |s| < TOP
    case OpRead(_, size, _) => IsSize(size)
    case OpWrite(_, size, _, _) => IsSize(size)
    case _ => true
  }

  /** One operation on the region table alone. */
  ghost function Step<D>(devs: Devices<D>, w: World<D>, op: Op): (r: (World<D>, Reply))
    requires Sound(w) && Legal(|w.mem|, op)
    ensures Sound(r.0) && |r.0.mem| == |w.mem|
  {
    match op
    case OpAdd(r) =>
      if Table(w.regions + [r], |w.mem|) then (w.(regions := w.regions + [r]), Taken(true)) else (w, Taken(false))
    case OpEndian(on) => (w.(be := on), Silent)
    case OpFlush => (w, Silent)
    case OpLoad(a, s) =>
      TranslationWithin(w.regions, |w.mem|);
      var t := Translation(w.regions);
      if a + |s| > TOP then (w, Taken(false))
      else (w.(mem := LoadWalk(t, w.mem, a, s)), Taken(BackedLen(t, a, |s|) == |s|))
    case OpRead(a, size, _) =>
      var v := ReadWalk(devs, w.regions, w.be, w.mem, w.dev, a, size);
      (w.(dev := v.0), Accessed(v.1))
    case OpWrite(a, size, v, _) =>
      var r := WriteWalk(devs, w.regions, w.be, w.mem, w.dev, a, size, v);
      (w.(dev := r.0, mem := r.1), Accessed(r.2))
    case OpFetch(a, _) =>
      var v := FetchWalk(devs, w.regions, w.be, w.mem, w.dev, a);
      (w.(dev := v.0), Accessed(v.1))
  }

  ghost function Steps<D>(devs: Devices<D>, w: World<D>, ops: seq<Op>): (r: (World<D>, seq<Reply>))
    requires Sound(w) && forall i :: 0 <= i < |ops| ==> Legal(|w.mem|, ops[i])
    ensures Sound(r.0) && |r.0.mem| == |w.mem| && |r.1| == |ops|
    decreases |ops|
  {
    if ops == [] then (w, [])
    else
      var n := |ops| - 1;
      var before := Steps(devs, w, ops[..n]);
      var s := Step(devs, before.0, ops[n]);
      (s.0, before.1 + [s.1])
  }

  ghost function Observe<D>(bus: Bus<D>): World<D>
    reads bus, bus.mem
  {
    World(bus.regions, bus.be, bus.mem[..], bus.dev)
  }

  /** One operation through the caches. */
  method Perform<D>(bus: Bus<D>, op: Op) returns (reply: Reply)
    requires bus.Valid() && Sound(Observe(bus)) && Legal(bus.mem.Length, op)
    modifies bus, bus.mem
    ensures bus.Valid()
    ensures (Observe(bus), reply) == Step(bus.devs, old(Observe(bus)), op)
  {
    hide Table, Translation, LoadWalk, BackedLen, CacheOk, ReadWalk, WriteWalk, FetchWalk;
    match op {
      case OpAdd(r) =>
        var ok := bus.Add(r);
        reply := Taken(ok);
      case OpEndian(on) =>
        bus.SetBigEndian(on);
        reply := Silent;
      case OpFlush =>
        bus.Flush();
        reply := Silent;
      case OpLoad(a, s) =>
        var ok := bus.Load(a, s);
        reply := Taken(ok);
      case OpRead(a, size, own) =>
        var res;
        if own {
          res := bus.ReadBe(a, size);
        } else {
          res := bus.Read(a, size);
        }
        reply := Accessed(res);
      case OpWrite(a, size, v, own) =>
        var res;
        if own {
          res := bus.WriteBe(a, size, v);
        } else {
          res := bus.Write(a, size, v);
        }
        reply := Accessed(res);
      case OpFetch(a, own) =>
        var res;
        if own {
          res := bus.FetchBe(a);
        } else {
          res := bus.Fetch(a);
        }
        reply := Accessed(res);
    }
  }

  /** Any history through the caches is the history of the walk. */
  method Run<D>(bus: Bus<D>, ops: seq<Op>) returns (replies: seq<Reply>)
    requires bus.Valid() && Sound(Observe(bus))
    requires forall i :: 0 <= i < |ops| ==> Legal(bus.mem.Length, ops[i])
    modifies bus, bus.mem
    ensures bus.Valid()
    ensures (Observe(bus), replies) == Steps(bus.devs, old(Observe(bus)), ops)
  {
    hide Step;
    replies := [];
    ghost var w := Observe(bus);
    for i := 0 to |ops|
      invariant bus.Valid()
      invariant (Observe(bus), replies) == Steps(bus.devs, w, ops[..i])
    {
      var reply := Perform(bus, ops[i]);
      assert ops[..i + 1][..i] == ops[..i];
      replies := replies + [reply];
    }
    assert ops[..|ops|] == ops;
  }
}
