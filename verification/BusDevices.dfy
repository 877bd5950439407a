/**
 * What devices see of the bus: which call an access makes, and what a write leaves for a later read. Both
 * are said of the fields of the regions, through the cached accessors, with devices that show it.
 */
module BusDevices {
  import opened Words
  import opened BusWalk
  import opened Bus

  // ---- who serves an access ----

  predicate Permitted(r: Region, need: Need) {
    (need.ToRead? ==> r.perm.r) && (need.ToWrite? ==> r.perm.w) && (need.ToExec? ==> r.perm.x)
  }

  predicate Wide(r: Region, size: nat) {
    (size == 1 ==> r.widths.w8) && (size == 2 ==> r.widths.w16) && (size == 4 ==> r.widths.w32)
  }

  /** A region serves the bytes from `o` on: all of them are inside it, and it takes that access at that width. */
  predicate Serves(r: Region, o: int, size: nat, need: Need) {
    0 <= o && o + size <= r.size && Permitted(r, need) && Wide(r, size)
  }

  /** The access at a region's base and an offset is that region's to serve, or is refused. */
  lemma ResolvedBy(rs: seq<Region>, cap: nat, i: nat, o: nat, size: nat, need: Need)
    requires Table(rs, cap) && i < |rs| && o < rs[i].size && IsSize(size) && rs[i].base + o < TOP
    ensures Resolve(rs, rs[i].base + o, size, need) == if Serves(rs[i], o, size, need) then Some(rs[i]) else None
  {
    LookupUnique(rs, cap, i, rs[i].base + o);
  }

  /** An address no region holds is refused. */
  lemma UnheldRefused(rs: seq<Region>, addr: u32, size: nat, need: Need)
    requires forall i :: 0 <= i < |rs| ==> !(rs[i].base <= addr < rs[i].base + rs[i].size)
    ensures Resolve(rs, addr, size, need).None?
  {
  }

  /** The walks, by what the table resolves an access to. */
  lemma ReadBy<D>(devs: Devices<D>, rs: seq<Region>, be: bool, mem: seq<u8>, d: D, addr: u32, size: nat)
    requires Table(rs, |mem|) && IsSize(size)
    ensures var found, r := Resolve(rs, addr, size, ToRead), ReadWalk(devs, rs, be, mem, d, addr, size);
            && (found.None? ==> r == (d, Faulted(FAULT_LOAD)))
            && (found.Some? && Plain(found.value) ==> r.0 == d)
            && (found.Some? && !Plain(found.value) ==>
                  Holds(found.value, addr) && r == DeviceRead(devs, found.value, d, addr, size))
  {
    hide Table, DeviceRead, PlainValue;
  }

  lemma WriteBy<D>(devs: Devices<D>, rs: seq<Region>, be: bool, mem: seq<u8>, d: D, addr: u32, size: nat, v: u32)
    requires Table(rs, |mem|) && IsSize(size)
    ensures var found, r := Resolve(rs, addr, size, ToWrite), WriteWalk(devs, rs, be, mem, d, addr, size, v);
            && (found.None? || found.value.kind.Rom? ==> r == (d, mem, Faulted(FAULT_STORE)))
            && (found.Some? && found.value.kind.Ram? ==> r.0 == d)
            && (found.Some? && !Plain(found.value) ==>
                  && Holds(found.value, addr) && r.1 == mem
                  && (r.0, r.2) == DeviceWrite(devs, found.value, d, addr, size, v))
  {
    hide Table, DeviceWrite, PlainStore;
  }

  lemma FetchBy<D>(devs: Devices<D>, rs: seq<Region>, be: bool, mem: seq<u8>, d: D, addr: u32)
    requires Table(rs, |mem|)
    ensures var found, r := Resolve(rs, addr, 2, ToExec), FetchWalk(devs, rs, be, mem, d, addr);
            && (found.None? || found.value.kind.Mmio? ==> r == (d, Faulted(FAULT_FETCH)))
            && (found.Some? && Plain(found.value) ==> r.0 == d)
            && (found.Some? && found.value.kind.Passthru? ==>
                  Holds(found.value, addr) && r.0 == devs.peek(d, HostOf(found.value, addr), 2).0)
  {
    hide Table, PlainValue;
  }

  // ---- which call an access makes ----

  datatype Call =
    | Asked(ctx: nat, off: int, size: nat)
    | Told(ctx: nat, off: int, size: nat, v: u32)
    | Peeked(at: int, size: nat)
    | Poked(at: int, size: nat, v: u32)

  /** Devices that keep a record of every call made to them, and otherwise do as they like. */
  ghost predicate Recording(devs: Devices<seq<Call>>) {
    && (forall d, ctx, off: u32, size :: devs.read(d, ctx, off, size).0 == d + [Asked(ctx, off, size)])
    && (forall d, ctx, off: u32, size, v: u32 :: devs.write(d, ctx, off, size, v).0 == d + [Told(ctx, off, size, v)])
    && (forall d, at: nat, size :: devs.peek(d, at, size).0 == d + [Peeked(at, size)])
    && (forall d, at: nat, size, v: u32 :: devs.poke(d, at, size, v) == d + [Poked(at, size, v)])
  }

  predicate IsDevice(r: Region) {
    r.kind.Mmio? || r.kind.Passthru?
  }

  /** What a read at an offset of a region has its device do. */
  function ReadCalls(r: Region, o: int, size: nat): seq<Call> {
    if !Serves(r, o, size, ToRead) then []
    else if r.kind.Mmio? then [Asked(r.host, o, size)]
    else if r.kind.Passthru? then [Peeked(r.host + o, size)]
    else []
  }

  function WriteCalls(r: Region, o: int, size: nat, v: u32): seq<Call>
    requires IsSize(size)
  {
    if !Serves(r, o, size, ToWrite) then []
    else if r.kind.Mmio? then [Told(r.host, o, size, v)]
    else if r.kind.Passthru? then [Poked(r.host + o, size, Truncate(v, size))]
    else []
  }

  function FetchCalls(r: Region, o: int): seq<Call> {
    if Serves(r, o, 2, ToExec) && r.kind.Passthru? then [Peeked(r.host + o, 2)] else []
  }

  /** A read makes exactly the call its region and offset ask for, and none when it is refused or of memory. */
  lemma ReadCalled(devs: Devices<seq<Call>>, rs: seq<Region>, be: bool, mem: seq<u8>, d: seq<Call>, i: nat, o: nat,
                   size: nat)
    requires Table(rs, |mem|) && Recording(devs) && i < |rs| && o < rs[i].size && IsSize(size) && rs[i].base + o < TOP
    ensures var r := ReadWalk(devs, rs, be, mem, d, rs[i].base + o, size);
            && r.0 == d + ReadCalls(rs[i], o, size)
            && (!Serves(rs[i], o, size, ToRead) ==> r.1 == Faulted(FAULT_LOAD))
  {
    hide Table, Lookup, Resolve, ReadWalk, DeviceRead, Recording;
    ResolvedBy(rs, |mem|, i, o, size, ToRead);
    ReadBy(devs, rs, be, mem, d, rs[i].base + o, size);
    if IsDevice(rs[i]) {
      DeviceAsked(devs, rs[i], d, o, size);
    }
    assert d + [] == d;
  }

  lemma DeviceAsked(devs: Devices<seq<Call>>, r: Region, d: seq<Call>, o: nat, size: nat)
    requires Recording(devs) && IsDevice(r) && o < r.size && r.base + o < TOP
    ensures DeviceRead(devs, r, d, r.base + o, size).0 ==
            d + [if r.kind.Mmio? then Asked(r.host, o, size) else Peeked(r.host + o, size)]
  {
  }

  lemma DeviceTold(devs: Devices<seq<Call>>, r: Region, d: seq<Call>, o: nat, size: nat, v: u32)
    requires Recording(devs) && IsDevice(r) && o < r.size && r.base + o < TOP && IsSize(size)
    ensures DeviceWrite(devs, r, d, r.base + o, size, v).0 ==
            d + [if r.kind.Mmio? then Told(r.host, o, size, v) else Poked(r.host + o, size, Truncate(v, size))]
  {
  }

  lemma WriteCalled(devs: Devices<seq<Call>>, rs: seq<Region>, be: bool, mem: seq<u8>, d: seq<Call>, i: nat, o: nat,
                    size: nat, v: u32)
    requires Table(rs, |mem|) && Recording(devs) && i < |rs| && o < rs[i].size && IsSize(size) && rs[i].base + o < TOP
    ensures var r := WriteWalk(devs, rs, be, mem, d, rs[i].base + o, size, v);
            && r.0 == d + WriteCalls(rs[i], o, size, v)
            && (!Serves(rs[i], o, size, ToWrite) || rs[i].kind.Rom? ==> r.1 == mem && r.2 == Faulted(FAULT_STORE))
            && (!rs[i].kind.Ram? ==> r.1 == mem)
  {
    hide Table, Lookup, Resolve, WriteWalk, DeviceWrite, Recording, Truncate;
    ResolvedBy(rs, |mem|, i, o, size, ToWrite);
    WriteBy(devs, rs, be, mem, d, rs[i].base + o, size, v);
    if IsDevice(rs[i]) {
      DeviceTold(devs, rs[i], d, o, size, v);
    }
    assert d + [] == d;
  }

  lemma FetchCalled(devs: Devices<seq<Call>>, rs: seq<Region>, be: bool, mem: seq<u8>, d: seq<Call>, i: nat, o: nat)
    requires Table(rs, |mem|) && Recording(devs) && i < |rs| && o < rs[i].size && rs[i].base + o < TOP
    ensures var r := FetchWalk(devs, rs, be, mem, d, rs[i].base + o);
            && r.0 == d + FetchCalls(rs[i], o)
            && (!Serves(rs[i], o, 2, ToExec) || rs[i].kind.Mmio? ==> r.1 == Faulted(FAULT_FETCH))
  {
    hide Table, Lookup, Resolve, FetchWalk;
    ResolvedBy(rs, |mem|, i, o, 2, ToExec);
    FetchBy(devs, rs, be, mem, d, rs[i].base + o);
    assert d + [] == d;
  }

  lemma AtRegion(rs: seq<Region>, cap: nat, i: nat, o: nat)
    requires Table(rs, cap) && i < |rs| && o < rs[i].size
    ensures rs[i].base + o < TOP && Lookup(rs, rs[i].base + o) == Some(rs[i])
  {
    TableFits(rs, cap, i);
    LookupUnique(rs, cap, i, rs[i].base + o);
  }

  method Load<D>(bus: Bus<D>, addr: u32, size: nat, own: bool) returns (res: Access)
    requires bus.Valid() && IsSize(size) && bus.UniformAt(addr)
    modifies bus`last, bus`dev, bus`data, bus`dataBe, bus`rodata, bus`rodataBe
    ensures bus.Valid()
    ensures (bus.dev, res) == ReadWalk(bus.devs, bus.regions, bus.be, bus.mem[..], old(bus.dev), addr, size)
  {
    hide Table, CacheOk, ReadWalk;
    if own {
      res := bus.ReadBe(addr, size);
    } else {
      res := bus.Read(addr, size);
    }
  }

  method Store<D>(bus: Bus<D>, addr: u32, size: nat, v: u32, own: bool) returns (res: Access)
    requires bus.Valid() && IsSize(size) && bus.UniformAt(addr)
    modifies bus`last, bus`dev, bus`data, bus`dataBe, bus.mem
    ensures bus.Valid()
    ensures (bus.dev, bus.mem[..], res) ==
            WriteWalk(bus.devs, bus.regions, bus.be, old(bus.mem[..]), old(bus.dev), addr, size, v)
  {
    hide Table, CacheOk, WriteWalk;
    if own {
      res := bus.WriteBe(addr, size, v);
    } else {
      res := bus.Write(addr, size, v);
    }
  }

  /** So do the accessors, whatever is in the caches. */
  method CallsOfRead(bus: Bus<seq<Call>>, i: nat, o: nat, size: nat, own: bool) returns (res: Access)
    requires bus.Valid() && Recording(bus.devs) && i < |bus.regions| && o < bus.regions[i].size && IsSize(size)
    requires Uniform(bus.regions[i])
    modifies bus`last, bus`dev, bus`data, bus`dataBe, bus`rodata, bus`rodataBe
    ensures bus.Valid() && bus.dev == old(bus.dev) + ReadCalls(bus.regions[i], o, size)
    ensures !Serves(bus.regions[i], o, size, ToRead) ==> res == Faulted(FAULT_LOAD)
  {
    hide Table, CacheOk, ReadWalk, Lookup;
    AtRegion(bus.regions, bus.mem.Length, i, o);
    ReadCalled(bus.devs, bus.regions, bus.be, bus.mem[..], bus.dev, i, o, size);
    res := Load(bus, bus.regions[i].base + o, size, own);
  }

  method CallsOfWrite(bus: Bus<seq<Call>>, i: nat, o: nat, size: nat, v: u32, own: bool) returns (res: Access)
    requires bus.Valid() && Recording(bus.devs) && i < |bus.regions| && o < bus.regions[i].size && IsSize(size)
    requires Uniform(bus.regions[i])
    modifies bus`last, bus`dev, bus`data, bus`dataBe, bus.mem
    ensures bus.Valid() && bus.dev == old(bus.dev) + WriteCalls(bus.regions[i], o, size, v)
    ensures !Serves(bus.regions[i], o, size, ToWrite) || bus.regions[i].kind.Rom? ==>
              res == Faulted(FAULT_STORE) && bus.mem[..] == old(bus.mem[..])
    ensures !bus.regions[i].kind.Ram? ==> bus.mem[..] == old(bus.mem[..])
  {
    hide Table, CacheOk, WriteWalk, Lookup;
    AtRegion(bus.regions, bus.mem.Length, i, o);
    WriteCalled(bus.devs, bus.regions, bus.be, bus.mem[..], bus.dev, i, o, size, v);
    res := Store(bus, bus.regions[i].base + o, size, v, own);
  }

  method CallsOfFetch(bus: Bus<seq<Call>>, i: nat, o: nat, own: bool) returns (res: Access)
    requires bus.Valid() && Recording(bus.devs) && i < |bus.regions| && o < bus.regions[i].size
    modifies bus`last, bus`dev, bus`fetch, bus`fetchBe
    ensures bus.Valid() && bus.dev == old(bus.dev) + FetchCalls(bus.regions[i], o)
    ensures !Serves(bus.regions[i], o, 2, ToExec) || bus.regions[i].kind.Mmio? ==> res == Faulted(FAULT_FETCH)
  {
    hide Table, CacheOk, FetchWalk, Lookup;
    AtRegion(bus.regions, bus.mem.Length, i, o);
    FetchCalled(bus.devs, bus.regions, bus.be, bus.mem[..], bus.dev, i, o);
    if own {
      res := bus.FetchBe(bus.regions[i].base + o);
    } else {
      res := bus.Fetch(bus.regions[i].base + o);
    }
  }

  // ---- a register file ----

  /** A register of a device, by its context and offset, or a host location. */
  datatype Place = Register(ctx: nat, off: int) | Cell(at: int)

  function At(d: map<Place, u32>, p: Place): u32 {
    if p in d then d[p] else 0
  }

  /** Devices that are nothing but registers, and host locations that keep what is put there. */
  ghost predicate RegisterFile(devs: Devices<map<Place, u32>>) {
    && (forall d, ctx, off: u32, size :: devs.read(d, ctx, off, size) == (d, Done(At(d, Register(ctx, off)))))
    && (forall d, ctx, off: u32, size, v: u32 ::
          devs.write(d, ctx, off, size, v) == (d[Register(ctx, off) := v], Done(0)))
    && (forall d, at: nat, size :: devs.peek(d, at, size) == (d, At(d, Cell(at))))
    && (forall d, at: nat, size, v: u32 :: devs.poke(d, at, size, v) == d[Cell(at) := v])
  }

  function PlaceOf(r: Region, o: int): Place {
    if r.kind.Mmio? then Register(r.host, o) else Cell(r.host + o)
  }

  lemma DeviceGets(devs: Devices<map<Place, u32>>, r: Region, d: map<Place, u32>, o: nat, size: nat)
    requires RegisterFile(devs) && IsDevice(r) && o < r.size && r.base + o < TOP
    ensures DeviceRead(devs, r, d, r.base + o, size) == (d, Done(At(d, PlaceOf(r, o))))
  {
    hide At;
  }

  lemma DevicePuts(devs: Devices<map<Place, u32>>, r: Region, d: map<Place, u32>, o: nat, size: nat, v: u32)
    requires RegisterFile(devs) && IsDevice(r) && o < r.size && r.base + o < TOP && IsSize(size)
    ensures DeviceWrite(devs, r, d, r.base + o, size, v) ==
            (d[PlaceOf(r, o) := if r.kind.Mmio? then v else Truncate(v, size)], Done(0))
  {
    hide Truncate;
  }

  lemma FileRead(devs: Devices<map<Place, u32>>, rs: seq<Region>, be: bool, mem: seq<u8>, d: map<Place, u32>, i: nat,
                 o: nat, size: nat)
    requires Table(rs, |mem|) && RegisterFile(devs) && i < |rs| && o < rs[i].size && IsSize(size)
    requires rs[i].base + o < TOP && IsDevice(rs[i]) && Serves(rs[i], o, size, ToRead)
    ensures ReadWalk(devs, rs, be, mem, d, rs[i].base + o, size) == (d, Done(At(d, PlaceOf(rs[i], o))))
  {
    hide Table, Lookup, Resolve, At, DeviceRead, RegisterFile, ReadWalk;
    ResolvedBy(rs, |mem|, i, o, size, ToRead);
    ReadBy(devs, rs, be, mem, d, rs[i].base + o, size);
    DeviceGets(devs, rs[i], d, o, size);
  }

  lemma FileWrite(devs: Devices<map<Place, u32>>, rs: seq<Region>, be: bool, mem: seq<u8>, d: map<Place, u32>, i: nat,
                  o: nat, size: nat, v: u32)
    requires Table(rs, |mem|) && RegisterFile(devs) && i < |rs| && o < rs[i].size && IsSize(size)
    requires rs[i].base + o < TOP && IsDevice(rs[i]) && Serves(rs[i], o, size, ToWrite)
    ensures WriteWalk(devs, rs, be, mem, d, rs[i].base + o, size, v) ==
            (d[PlaceOf(rs[i], o) := if rs[i].kind.Mmio? then v else Truncate(v, size)], mem, Done(0))
  {
    hide Table, Lookup, Resolve, WriteWalk, DeviceWrite, RegisterFile, Truncate;
    ResolvedBy(rs, |mem|, i, o, size, ToWrite);
    WriteBy(devs, rs, be, mem, d, rs[i].base + o, size, v);
    DevicePuts(devs, rs[i], d, o, size, v);
  }

  lemma PutAt(d: map<Place, u32>, a: Place, v: u32, b: Place)
    ensures At(d[a := v], b) == if b == a then v else At(d, b)
  {
  }

  method Put(bus: Bus<map<Place, u32>>, i: nat, o: nat, size: nat, v: u32, own: bool) returns (res: Access)
    requires bus.Valid() && RegisterFile(bus.devs) && i < |bus.regions| && o < bus.regions[i].size && IsSize(size)
    requires IsDevice(bus.regions[i]) && Serves(bus.regions[i], o, size, ToWrite)
    modifies bus`last, bus`dev, bus`data, bus`dataBe, bus.mem
    ensures bus.Valid() && bus.mem[..] == old(bus.mem[..]) && res == Done(0)
    ensures bus.dev == old(bus.dev)[PlaceOf(bus.regions[i], o) :=
              if bus.regions[i].kind.Mmio? then v else Truncate(v, size)]
  {
    hide Table, CacheOk, WriteWalk, Lookup, RegisterFile, Serves;
    AtRegion(bus.regions, bus.mem.Length, i, o);
    FileWrite(bus.devs, bus.regions, bus.be, bus.mem[..], bus.dev, i, o, size, v);
    res := Store(bus, bus.regions[i].base + o, size, v, own);
  }

  method Get(bus: Bus<map<Place, u32>>, i: nat, o: nat, size: nat, own: bool) returns (res: Access)
    requires bus.Valid() && RegisterFile(bus.devs) && i < |bus.regions| && o < bus.regions[i].size && IsSize(size)
    requires IsDevice(bus.regions[i]) && Serves(bus.regions[i], o, size, ToRead)
    modifies bus`last, bus`dev, bus`data, bus`dataBe, bus`rodata, bus`rodataBe
    ensures bus.Valid() && bus.dev == old(bus.dev) && res == Done(At(bus.dev, PlaceOf(bus.regions[i], o)))
  {
    hide Table, CacheOk, ReadWalk, Lookup, RegisterFile, Serves, At;
    AtRegion(bus.regions, bus.mem.Length, i, o);
    FileRead(bus.devs, bus.regions, bus.be, bus.mem[..], bus.dev, i, o, size);
    res := Load(bus, bus.regions[i].base + o, size, own);
  }

  /**
   * After a write at an offset of one device region, a read at an offset of any other or the same gives
   * what was written if it names the same place, and what was there otherwise.
   */
  method WriteThenRead(bus: Bus<map<Place, u32>>, i: nat, o: nat, size: nat, v: u32, own: bool,
                       j: nat, p: nat, wide: nat, ours: bool) returns (res: Access)
    requires bus.Valid() && RegisterFile(bus.devs) && i < |bus.regions| && j < |bus.regions|
    requires IsSize(size) && IsSize(wide) && IsDevice(bus.regions[i]) && IsDevice(bus.regions[j])
    requires Serves(bus.regions[i], o, size, ToWrite) && Serves(bus.regions[j], p, wide, ToRead)
    modifies bus, bus.mem
    ensures bus.Valid() && bus.regions == old(bus.regions) && bus.mem[..] == old(bus.mem[..])
    ensures var put, got := PlaceOf(bus.regions[i], o), PlaceOf(bus.regions[j], p);
            res == Done(if got != put then At(old(bus.dev), got)
                        else if bus.regions[i].kind.Mmio? then v else Truncate(v, size))
  {
    assert o < bus.regions[i].size && p < bus.regions[j].size;
    hide *;
    ghost var put, got := PlaceOf(bus.regions[i], o), PlaceOf(bus.regions[j], p);
    PutAt(bus.dev, put, if bus.regions[i].kind.Mmio? then v else Truncate(v, size), got);
    var done := Put(bus, i, o, size, v, own);
    res := Get(bus, j, p, wide, ours);
  }
}
