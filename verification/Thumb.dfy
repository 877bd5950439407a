/** Instruction fetch on ARMv7-M: a whole instruction out of the bus's fetch cache, or halfword by halfword. */
module Thumb {
  import opened Words
  import opened BusWalk
  import opened Bus

  datatype Half = Half(value: u32) | MemManage | BusFault

  /** A halfword is 0 where an instruction has no second one. */
  datatype Insn = Insn(len: nat, hw: u32, w1: u32) | Refused(why: Half)

  /** The spaces the default memory map never executes from. */
  predicate DefaultXn(addr: u32) {
    var top := addr / 0x1000_0000;
    4 <= top <= 5 || top >= 0xA
  }

  predicate Is32Bit(hw: u32) {
    var top := hw / 0x800 % 0x20;
    top == 0x1D || top == 0x1E || top == 0x1F
  }

  /** The MPU: off, or deciding each address by its regions. */
  datatype Mpu = Off | On(permits: u32 -> bool)

  predicate Permits(mpu: Mpu, addr: u32) {
    match mpu
    case Off => !DefaultXn(addr)
    case On(permits) => permits(addr)
  }

  // ---- the reference ----

  /** One halfword: the permission, then the region table. */
  function HalfWalk<D>(mpu: Mpu, devs: Devices<D>, rs: seq<Region>, be: bool, mem: seq<u8>, d: D, addr: u32): (D, Half)
    requires Table(rs, |mem|)
  {
    if !Permits(mpu, addr) then (d, MemManage) else
      var f := FetchWalk(devs, rs, be, mem, d, addr);
      (f.0, if f.1.Done? then Half.Half(f.1.value) else BusFault)
  }

  /** An instruction halfword by halfword. */
  function InsnWalk<D>(mpu: Mpu, devs: Devices<D>, rs: seq<Region>, be: bool, mem: seq<u8>, d: D, pc: u32): (D, Insn)
    requires Table(rs, |mem|)
  {
    var first := HalfWalk(mpu, devs, rs, be, mem, d, pc);
    if !first.1.Half? then (first.0, Refused(first.1))
    else if !Is32Bit(first.1.value) then (first.0, Insn(2, first.1.value, 0))
    else
      var second := HalfWalk(mpu, devs, rs, be, mem, first.0, Add32(pc, 2));
      (second.0, if second.1.Half? then Insn(4, first.1.value, second.1.value) else Refused(second.1))
  }

  // ---- what that means of an instruction ----

  /** Where the default memory map refuses execution: the peripherals, and from the external devices up. */
  predicate Barred(addr: int) {
    0x4000_0000 <= addr < 0x6000_0000 || 0xA000_0000 <= addr < TOP
  }

  predicate Forbids(mpu: Mpu, addr: u32) {
    if mpu.Off? then Barred(addr) else !mpu.permits(addr)
  }

  /** Whether the first of its halfwords makes an instruction 32 bits long: 0b11101, 0b11110 or 0b11111 on top. */
  predicate Long(hw: int) {
    0xE800 <= hw < 0x1_0000
  }

  /** What a fetch gives: two or four bytes by the first halfword, and a fault wherever execution is forbidden. */
  predicate Proper(mpu: Mpu, pc: u32, res: Insn) {
    match res
    case Insn(len, hw, w1) =>
      && hw < 0x1_0000 && w1 < 0x1_0000 && len == (if Long(hw) then 4 else 2) && (len == 2 ==> w1 == 0)
      && !Forbids(mpu, pc) && (len == 4 ==> !Forbids(mpu, (pc + 2) % TOP))
    case Refused(why) =>
      && !why.Half?
      && (why.MemManage? ==> Forbids(mpu, pc) || Forbids(mpu, (pc + 2) % TOP))
      && (Forbids(mpu, pc) ==> why.MemManage?)
  }

  /** Bit by bit: bits 15 to 13 are set, and bits 12 and 11 not both clear. */
  lemma LongBits(hw: u32)
    requires hw < 0x1_0000
    ensures Long(hw) <==>
            hw / 0x8000 % 2 == 1 && hw / 0x4000 % 2 == 1 && hw / 0x2000 % 2 == 1 &&
            (hw / 0x1000 % 2 == 1 || hw / 0x800 % 2 == 1)
  {
    var t := hw / 0x800;
    assert t < 32 && hw / 0x8000 == t / 16 && hw / 0x4000 == t / 8 && hw / 0x2000 == t / 4 && hw / 0x1000 == t / 2;
  }

  lemma HalfIsHalf<D>(mpu: Mpu, devs: Devices<D>, rs: seq<Region>, be: bool, mem: seq<u8>, d: D, addr: u32)
    requires Table(rs, |mem|)
    ensures var h := HalfWalk(mpu, devs, rs, be, mem, d, addr).1;
            && (h.Half? ==> h.value < 0x1_0000)
            && (h.MemManage? <==> Forbids(mpu, addr))
  {
    var found := Resolve(rs, addr, 2, ToExec);
    if found.Some? && Plain(found.value) {
      LookupFits(rs, |mem|, addr);
      var p := HostOf(found.value, addr);
      Unfolded(mem[p..p + 2]);
    }
    hide Table, Lookup;
  }

  /** An instruction fetched by halves is proper. */
  lemma WalkIsProper<D>(mpu: Mpu, devs: Devices<D>, rs: seq<Region>, be: bool, mem: seq<u8>, d: D, pc: u32)
    requires Table(rs, |mem|)
    ensures Proper(mpu, pc, InsnWalk(mpu, devs, rs, be, mem, d, pc).1)
  {
    hide HalfWalk, Table;
    HalfIsHalf(mpu, devs, rs, be, mem, d, pc);
    var first := HalfWalk(mpu, devs, rs, be, mem, d, pc);
    HalfIsHalf(mpu, devs, rs, be, mem, first.0, Add32(pc, 2));
  }

  // ---- the fetches ----

  /** The inline path when the MPU is off and the cache holds the address, the checked one otherwise. */
  method MemFetch16<D>(bus: Bus<D>, mpu: Mpu, addr: u32) returns (res: Half)
    requires bus.Valid()
    modifies bus`last, bus`dev, bus`fetch, bus`fetchBe
    ensures bus.Valid()
    ensures (bus.dev, res) == HalfWalk(mpu, bus.devs, bus.regions, bus.be, bus.mem[..], old(bus.dev), addr)
  {
    if mpu.Off? && !DefaultXn(addr) {
      var hit, out := bus.FetchHit(bus.fetch, false, addr);
      if hit {
        var r := FetchIsWalk(bus.fetch, bus.regions, bus.mem.Length, !bus.be, addr);
        return Half.Half(out);
      }
    }
    if !Permits(mpu, addr) {
      return MemManage;
    }
    var f := bus.Fetch(addr);
    res := if f.Done? then Half.Half(f.value) else BusFault;
  }

  /** Execute permission is the same across any 256 MB that starts at a multiple of it. */
  lemma SameSpace(pc: u32)
    requires pc % 2 == 0 && Add32(pc, 2) % 0x1000_0000 != 0
    ensures DefaultXn(Add32(pc, 2)) <==> DefaultXn(pc)
  {
    assert pc % 0x1000_0000 != 0x0FFF_FFFE;
    assert pc % 0x1000_0000 % 2 == 0;
    assert Add32(pc, 2) / 0x1000_0000 == pc / 0x1000_0000;
  }

  /** A halfword in the fetch cache, where fetching is allowed, is what the halfword fetch gives. */
  method CachedHalf<D>(bus: Bus<D>, mpu: Mpu, addr: u32) returns (hw: u32)
    requires bus.Valid() && Permits(mpu, addr) && Sub32(addr, bus.fetch.base) < bus.fetch.span
    ensures HalfWalk(mpu, bus.devs, bus.regions, bus.be, bus.mem[..], bus.dev, addr) == (bus.dev, Half.Half(hw))
  {
    var r := FetchIsWalk(bus.fetch, bus.regions, bus.mem.Length, !bus.be, addr);
    var p := bus.fetch.host + Sub32(addr, bus.fetch.base);
    LoadComposes(bus.mem[p..p + 2], false);
    hw := HostLoad(bus.mem[p..p + 2]);
  }

  lemma SpanShort(c: Cache, rs: seq<Region>, cap: nat, on: bool, pc: u32)
    requires Table(rs, cap) && CacheOk(c, rs, cap, on, FetchRegion, 1) && Sub32(pc, c.base) < c.span && !DefaultXn(pc)
    ensures Add32(Sub32(pc, c.base), 2) == Sub32(Add32(pc, 2), c.base)
  {
  }

  /** A length other than 0 is the instruction the halfword fetches give, with no fault and no effect. */
  method FetchInsnHit<D>(bus: Bus<D>, mpu: Mpu, pc: u32) returns (len: nat, hw: u32, w1: u32)
    requires bus.Valid() && pc % 2 == 0
    ensures len != 0 ==>
              InsnWalk(mpu, bus.devs, bus.regions, bus.be, bus.mem[..], bus.dev, pc) == (bus.dev, Insn(len, hw, w1))
    ensures len != 0 ==> Proper(mpu, pc, Insn(len, hw, w1))
  {
    WalkIsProper(mpu, bus.devs, bus.regions, bus.be, bus.mem[..], bus.dev, pc);
    hide CacheOk, Table, HalfWalk, Proper;
    hw, w1 := 0, 0;
    var off := Sub32(pc, bus.fetch.base);
    if !mpu.Off? || DefaultXn(pc) || off >= bus.fetch.span {
      return 0, 0, 0;
    }
    hw := CachedHalf(bus, mpu, pc);
    if !Is32Bit(hw) {
      return 2, hw, 0;
    }
    if Add32(off, 2) >= bus.fetch.span || Add32(pc, 2) % 0x1000_0000 == 0 {
      return 0, hw, 0;
    }
    SameSpace(pc);
    SpanShort(bus.fetch, bus.regions, bus.mem.Length, !bus.be, pc);
    w1 := CachedHalf(bus, mpu, Add32(pc, 2));
    len := 4;
  }

  /** As the interpreter fetches: the whole instruction if it can be had, else by halves. */
  method FetchInsn<D>(bus: Bus<D>, mpu: Mpu, pc: u32) returns (res: Insn)
    requires bus.Valid() && pc % 2 == 0
    modifies bus`last, bus`dev, bus`fetch, bus`fetchBe
    ensures bus.Valid()
    ensures (bus.dev, res) == InsnWalk(mpu, bus.devs, bus.regions, bus.be, bus.mem[..], old(bus.dev), pc)
    ensures Proper(mpu, pc, res)
  {
    WalkIsProper(mpu, bus.devs, bus.regions, bus.be, bus.mem[..], bus.dev, pc);
    hide Proper;
    var len, hw, w1 := FetchInsnHit(bus, mpu, pc);
    if len != 0 {
      return Insn(len, hw, w1);
    }
    var first := MemFetch16(bus, mpu, pc);
    if !first.Half? {
      return Refused(first);
    }
    if !Is32Bit(first.value) {
      return Insn(2, first.value, 0);
    }
    var second := MemFetch16(bus, mpu, Add32(pc, 2));
    res := if second.Half? then Insn(4, first.value, second.value) else Refused(second);
  }
}
