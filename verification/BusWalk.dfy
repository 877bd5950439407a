/**
 * The guest address space as the region table alone defines it: no caches, no
 * last-hit index. Everything the bus class does is proved against this walk.
 */
module BusWalk {
  import opened Words

  const MAX_REGIONS: nat := 16

  datatype Kind = Ram | Rom | Mmio | Passthru
  datatype Perm = Perm(r: bool, w: bool, x: bool)
  datatype Widths = Widths(w8: bool, w16: bool, w32: bool)
  datatype Need = ToRead | ToWrite | ToExec

  const RWX := Perm(true, true, true)
  const RX := Perm(true, false, true)
  const ANY_WIDTH := Widths(true, true, true)
  const NO_WIDTH := Widths(false, false, false)

  /**
   * `host` is the host address of the first byte (RAM, ROM, passthrough) or the
   * device context (MMIO).
   */
  datatype Region = Region(base: u32, size: u32, kind: Kind, host: nat, perm: Perm, widths: Widths)

  /** What an access reports: the value, or the kind of access that was refused. */
  datatype Access = Done(value: u32) | Faulted(code: nat)

  const FAULT_FETCH: nat := 1
  const FAULT_LOAD: nat := 2
  const FAULT_STORE: nat := 3

  /**
   * The devices as one state machine: MMIO callbacks, which may fault, and
   * passthrough registers, which are host locations with a life of their own.
   */
  datatype Devices<!D> = Devices(
    read: (D, nat, u32, nat) -> (D, Access),
    write: (D, nat, u32, nat, u32) -> (D, Access),
    peek: (D, nat, nat) -> (D, u32),
    poke: (D, nat, nat, u32) -> D)

  predicate Holds(r: Region, addr: int) {
    r.base <= addr < r.base + r.size
  }

  predicate Plain(r: Region) {
    r.kind.Ram? || r.kind.Rom?
  }

  predicate Allows(p: Perm, need: Need) {
    match need
    case ToRead => p.r
    case ToWrite => p.w
    case ToExec => p.x
  }

  predicate Accepts(w: Widths, size: nat) {
    if size == 4 then w.w32 else if size == 2 then w.w16 else w.w8
  }

  predicate Disjoint(a: Region, b: Region) {
    a.base + a.size <= b.base || b.base + b.size <= a.base
  }

  /** A region emu_bus_add can take, with its buffer inside host memory of `cap` bytes. */
  predicate Fits(r: Region, cap: nat) {
    && 4 <= r.size
    && r.base + r.size <= TOP
    && (Plain(r) ==> r.host + r.size <= cap)
  }

  /** A region table as emu_bus_add grows it: each region fits and overlaps none before it. */
  predicate Table(rs: seq<Region>, cap: nat)
    decreases |rs|
  {
    rs == [] ||
    var n := |rs| - 1;
    && n < MAX_REGIONS
    && Table(rs[..n], cap)
    && Fits(rs[n], cap)
    && forall i :: 0 <= i < n ==> Disjoint(rs[i], rs[n])
  }

  lemma {:induction false} TableFits(rs: seq<Region>, cap: nat, i: nat)
    requires Table(rs, cap) && i < |rs|
    ensures Fits(rs[i], cap)
    decreases |rs|
  {
    if i < |rs| - 1 {
      TableFits(rs[..|rs| - 1], cap, i);
    }
  }

  lemma {:induction false} TableDisjoint(rs: seq<Region>, cap: nat, i: nat, j: nat)
    requires Table(rs, cap) && i < |rs| && j < |rs| && i != j
    ensures Disjoint(rs[i], rs[j])
    decreases |rs|
  {
    if i < |rs| - 1 && j < |rs| - 1 {
      TableDisjoint(rs[..|rs| - 1], cap, i, j);
    }
  }

  /** The region holding an address: a walk of the table in order. */
  function Lookup(rs: seq<Region>, addr: int): (found: Option<Region>)
    ensures found.None? ==> forall i :: 0 <= i < |rs| ==> !Holds(rs[i], addr)
    ensures found.Some? ==> found.value in rs && Holds(found.value, addr)
  {
    if rs == [] then None
    else if Holds(rs[0], addr) then Some(rs[0])
    else Lookup(rs[1..], addr)
  }

  /** In a table the region holding an address is the only one, whatever order it is looked for in. */
  lemma LookupUnique(rs: seq<Region>, cap: nat, i: nat, addr: int)
    requires Table(rs, cap) && i < |rs| && Holds(rs[i], addr)
    ensures Lookup(rs, addr) == Some(rs[i]) && Fits(rs[i], cap)
  {
    var j :| 0 <= j < |rs| && rs[j] == Lookup(rs, addr).value;
    TableFits(rs, cap, i);
    if i != j {
      TableDisjoint(rs, cap, i, j);
    }
  }

  lemma LookupFits(rs: seq<Region>, cap: nat, addr: int)
    requires Table(rs, cap)
    ensures Lookup(rs, addr).Some? ==> Fits(Lookup(rs, addr).value, cap)
  {
    if Lookup(rs, addr).Some? {
      var j :| 0 <= j < |rs| && rs[j] == Lookup(rs, addr).value;
      TableFits(rs, cap, j);
    }
  }

  /** The region that serves a whole access, after the permission and width rules. */
  function Resolve(rs: seq<Region>, addr: u32, size: nat, need: Need): Option<Region> {
    match Lookup(rs, addr)
    case None => None
    case Some(r) =>
      if addr + size <= r.base + r.size && Allows(r.perm, need) && Accepts(r.widths, size) then Some(r) else None
  }

  /** Host address of a guest address inside a region with a buffer. */
  function HostOf(r: Region, addr: int): nat
    requires Holds(r, addr)
  {
    r.host + (addr - r.base)
  }

  function Splice(mem: seq<u8>, at: nat, s: seq<u8>): (r: seq<u8>)
    requires at + |s| <= |mem|
    ensures |r| == |mem|
    ensures forall p :: 0 <= p < |mem| ==> r[p] == if at <= p < at + |s| then s[p - at] else mem[p]
  {
    mem[..at] + s + mem[at + |s|..]
  }

  /** The value plain memory holds at an access the table resolves. */
  function PlainValue(rs: seq<Region>, be: bool, mem: seq<u8>, addr: u32, size: nat, need: Need): u32
    requires Table(rs, |mem|) && IsSize(size)
    requires Resolve(rs, addr, size, need).Some? && Plain(Resolve(rs, addr, size, need).value)
  {
    LookupFits(rs, |mem|, addr);
    var p := HostOf(Resolve(rs, addr, size, need).value, addr);
    LoadComposes(mem[p..p + size], be);
    Compose(mem[p..p + size], be)
  }

  /** Memory after plain memory takes a value at an access the table resolves. */
  function PlainStore(rs: seq<Region>, be: bool, mem: seq<u8>, addr: u32, size: nat, v: u32): (r: seq<u8>)
    requires Table(rs, |mem|) && IsSize(size)
    requires Resolve(rs, addr, size, ToWrite).Some? && Plain(Resolve(rs, addr, size, ToWrite).value)
    ensures |r| == |mem|
  {
    LookupFits(rs, |mem|, addr);
    Splice(mem, HostOf(Resolve(rs, addr, size, ToWrite).value, addr), HostStore(Order(be, v, size), size))
  }

  function DeviceRead<D>(devs: Devices<D>, r: Region, d: D, addr: u32, size: nat): (D, Access)
    requires Holds(r, addr)
  {
    if r.kind.Passthru? then
      var v := devs.peek(d, HostOf(r, addr), size);
      (v.0, Done(v.1))
    else
      devs.read(d, r.host, addr - r.base, size)
  }

  function DeviceWrite<D>(devs: Devices<D>, r: Region, d: D, addr: u32, size: nat, v: u32): (D, Access)
    requires Holds(r, addr) && IsSize(size)
  {
    if r.kind.Passthru? then
      (devs.poke(d, HostOf(r, addr), size, Truncate(v, size)), Done(0))
    else
      devs.write(d, r.host, addr - r.base, size, v)
  }

  function ReadWalk<D>(devs: Devices<D>, rs: seq<Region>, be: bool, mem: seq<u8>, d: D, addr: u32,
                       size: nat): (D, Access)
    requires Table(rs, |mem|) && IsSize(size)
  {
    match Resolve(rs, addr, size, ToRead)
    case None => (d, Faulted(FAULT_LOAD))
    case Some(r) =>
      if Plain(r) then (d, Done(PlainValue(rs, be, mem, addr, size, ToRead)))
      else DeviceRead(devs, r, d, addr, size)
  }

  function WriteWalk<D>(devs: Devices<D>, rs: seq<Region>, be: bool, mem: seq<u8>, d: D, addr: u32, size: nat, v: u32)
    : (r: (D, seq<u8>, Access))
    requires Table(rs, |mem|) && IsSize(size)
    ensures |r.1| == |mem|
  {
    match Resolve(rs, addr, size, ToWrite)
    case None => (d, mem, Faulted(FAULT_STORE))
    case Some(r) =>
      if r.kind.Ram? then (d, PlainStore(rs, be, mem, addr, size, v), Done(0))
      else if r.kind.Rom? then (d, mem, Faulted(FAULT_STORE))
      else
        var w := DeviceWrite(devs, r, d, addr, size, v);
        (w.0, mem, w.1)
  }

  function FetchWalk<D>(devs: Devices<D>, rs: seq<Region>, be: bool, mem: seq<u8>, d: D, addr: u32): (D, Access)
    requires Table(rs, |mem|)
  {
    match Resolve(rs, addr, 2, ToExec)
    case None => (d, Faulted(FAULT_FETCH))
    case Some(r) =>
      if Plain(r) then (d, Done(PlainValue(rs, be, mem, addr, 2, ToExec)))
      else if r.kind.Passthru? then
        var v := devs.peek(d, HostOf(r, addr), 2);
        (v.0, Done(v.1 % 0x1_0000))
      else (d, Faulted(FAULT_FETCH))
  }

  /** A read-write-execute RAM region takes either every width or none. */
  predicate Uniform(r: Region) {
    r.kind.Ram? && r.perm == RWX ==> r.widths == ANY_WIDTH || r.widths == NO_WIDTH
  }

  predicate AllUniform(rs: seq<Region>) {
    forall i :: 0 <= i < |rs| ==> Uniform(rs[i])
  }

  /** In a little- or big-endian guest, a served write is what the next read of the same access sees. */
  lemma ReadAfterWrite<D>(devs: Devices<D>, rs: seq<Region>, be: bool, mem: seq<u8>, d: D, addr: u32, size: nat, v: u32)
    requires Table(rs, |mem|) && IsSize(size)
    requires Resolve(rs, addr, size, ToWrite).Some? && Resolve(rs, addr, size, ToWrite).value.kind.Ram?
    requires Resolve(rs, addr, size, ToRead).Some?
    ensures var w := WriteWalk(devs, rs, be, mem, d, addr, size, v);
            ReadWalk(devs, rs, be, w.1, w.0, addr, size) == (d, Done(Truncate(v, size)))
  {
    LookupFits(rs, |mem|, addr);
    var r := Resolve(rs, addr, size, ToWrite).value;
    var p := HostOf(r, addr);
    var s := HostStore(Order(be, v, size), size);
    StoreComposes(v, size, be);
    assert Splice(mem, p, s)[p..p + size] == s;
  }
}
