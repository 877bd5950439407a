/**
 * The bus with its fast paths: a last-hit index and six one-entry caches (fetch,
 * data and read-only data, one of each per byte order), over a flat host memory.
 */
module Bus {
  import opened Words
  import opened BusWalk
  import opened BusView

  /** The plain-memory region last used for one kind of access; an empty one has span 0. */
  datatype Cache = Cache(base: u32, span: u32, host: nat)

  const EMPTY := Cache(0, 0, 0)

  predicate Mirrors(c: Cache, r: Region, span: int) {
    c.base == r.base && c.span == span && c.host == r.host
  }

  /** RAM that the data cache may hold, being hit by loads and stores alike. */
  predicate DataRegion(r: Region) {
    r.kind.Ram? && r.perm == RWX && r.widths != NO_WIDTH
  }

  predicate RodataRegion(r: Region) {
    r.kind.Rom? && r.perm.r && r.widths == ANY_WIDTH
  }

  predicate FetchRegion(r: Region) {
    Plain(r) && r.perm.x && r.widths.w16
  }

  /** What a filled cache promises: it is in the bus's byte order and mirrors a region of its kind. */
  ghost predicate CacheOk(c: Cache, rs: seq<Region>, cap: nat, on: bool, kind: Region -> bool, short: int) {
    c.span != 0 ==>
      on && c.host + c.span + short <= cap &&
      exists i :: 0 <= i < |rs| && Mirrors(c, rs[i], rs[i].size - short) && kind(rs[i])
  }

  /** The range test of every hit path: both halves are needed when the cache is empty. */
  predicate Covers(c: Cache, addr: u32, size: nat) {
    var off := Sub32(addr, c.base);
    off < c.span && c.span - off >= size
  }

  /** A hit is an access inside the very region the walk finds. */
  lemma HitIsWalk(c: Cache, rs: seq<Region>, cap: nat, on: bool, kind: Region -> bool, addr: u32, size: nat)
    returns (r: Region)
    requires Table(rs, cap) && CacheOk(c, rs, cap, on, kind, 0) && Covers(c, addr, size)
    ensures on && kind(r) && Mirrors(c, r, r.size) && Holds(r, addr) && addr + size <= r.base + r.size
    ensures Lookup(rs, addr) == Some(r) && c.host + Sub32(addr, c.base) == HostOf(r, addr)
  {
    var i :| 0 <= i < |rs| && Mirrors(c, rs[i], rs[i].size - 0) && kind(rs[i]);
    r := rs[i];
    TableFits(rs, cap, i);
    LookupUnique(rs, cap, i, addr);
  }

  /** A fetch hit needs no size test: the span leaves out the region's last byte. */
  lemma FetchIsWalk(c: Cache, rs: seq<Region>, cap: nat, on: bool, addr: u32) returns (r: Region)
    requires Table(rs, cap) && CacheOk(c, rs, cap, on, FetchRegion, 1) && Sub32(addr, c.base) < c.span
    ensures on && Resolve(rs, addr, 2, ToExec) == Some(r) && Plain(r)
    ensures c.host + Sub32(addr, c.base) == HostOf(r, addr)
  {
    var i :| 0 <= i < |rs| && Mirrors(c, rs[i], rs[i].size - 1) && FetchRegion(rs[i]);
    r := rs[i];
    TableFits(rs, cap, i);
    LookupUnique(rs, cap, i, addr);
  }

  class Bus<D> {
    const mem: array<u8>
    const devs: Devices<D>
    var regions: seq<Region>
    var last: nat
    var be: bool
    var dev: D
    var fetch: Cache
    var data: Cache
    var rodata: Cache
    var fetchBe: Cache
    var dataBe: Cache
    var rodataBe: Cache

    /** The region table is sound and the last-hit index is inside it. */
    ghost predicate Mapped()
      reads this`regions, this`last
    {
      Table(regions, mem.Length) && (last == 0 || last < |regions|)
    }

    ghost predicate Valid()
      reads this
    {
      && Mapped()
      && CacheOk(data, regions, mem.Length, !be, DataRegion, 0)
      && CacheOk(dataBe, regions, mem.Length, be, DataRegion, 0)
      && CacheOk(rodata, regions, mem.Length, !be, RodataRegion, 0)
      && CacheOk(rodataBe, regions, mem.Length, be, RodataRegion, 0)
      && CacheOk(fetch, regions, mem.Length, !be, FetchRegion, 1)
      && CacheOk(fetchBe, regions, mem.Length, be, FetchRegion, 1)
    }

    /** The data cache in use holds this region. */
    ghost predicate Armed(r: Region)
      reads this
    {
      Mirrors(if be then dataBe else data, r, r.size)
    }

    constructor (mem: array<u8>, devs: Devices<D>, dev: D)
      ensures Valid() && regions == [] && !be
      ensures this.mem == mem && this.devs == devs && this.dev == dev
    {
      this.mem, this.devs, this.dev := mem, devs, dev;
      regions, last, be := [], 0, false;
      fetch, data, rodata := EMPTY, EMPTY, EMPTY;
      fetchBe, dataBe, rodataBe := EMPTY, EMPTY, EMPTY;
    }

    /** Empties every cache; a sound bus stays sound, and a bus with a sound map becomes so. */
    method Flush()
      modifies this`fetch, this`data, this`rodata, this`fetchBe, this`dataBe, this`rodataBe
      ensures Mapped() ==> Valid()
      ensures fetch.span == data.span == rodata.span == fetchBe.span == dataBe.span == rodataBe.span == 0
    {
      fetch, data, rodata := fetch.(span := 0, host := 0), data.(span := 0, host := 0), rodata.(span := 0, host := 0);
      fetchBe, dataBe, rodataBe :=
        fetchBe.(span := 0, host := 0), dataBe.(span := 0, host := 0), rodataBe.(span := 0, host := 0);
    }

    method SetBigEndian(on: bool)
      requires Valid()
      modifies this
      ensures Valid() && be == on && regions == old(regions) && dev == old(dev)
    {
      be := on;
      Flush();
    }

    /** Accepts a region exactly when the table has room and the region overlaps nothing in it. */
    method Add(r: Region) returns (ok: bool)
      requires Valid() && (Plain(r) ==> r.host + r.size <= mem.Length)
      modifies this
      ensures Valid() && be == old(be) && dev == old(dev)
      ensures ok <==> Table(old(regions) + [r], mem.Length)
      ensures ok <==>
              && |old(regions)| < 16 && 4 <= r.size && r.base + r.size <= 0x1_0000_0000
              && forall i :: 0 <= i < |old(regions)| ==>
                   old(regions[i].base + regions[i].size) <= r.base || r.base + r.size <= old(regions[i].base)
      ensures regions == if ok then old(regions) + [r] else old(regions)
    {
      ghost var grown := regions + [r];
      assert grown[|regions|] == r && grown[..|regions|] == regions;
      if |regions| >= MAX_REGIONS || r.size < 4 || r.base + r.size > TOP {
        return false;
      }
      var i := 0;
      while i < |regions|
        invariant 0 <= i <= |regions|
        invariant forall k :: 0 <= k < i ==> Disjoint(regions[k], r)
        modifies {}
      {
        var e := regions[i];
        TableFits(regions, mem.Length, i);
        var a0, a1 := r.base, Sub32(Add32(r.base, r.size), 1);
        var b0, b1 := e.base, Sub32(Add32(e.base, e.size), 1);
        if a0 <= b1 && b0 <= a1 {
          assert grown[i] == e && !Disjoint(e, r);
          return false;
        }
        i := i + 1;
      }
      regions := regions + [r];
      Flush();
      ok := true;
    }

    /** Tries the last region that matched, then walks; the index never changes the answer. */
    method Find(addr: u32) returns (found: Option<Region>)
      requires Mapped()
      modifies this`last
      ensures Mapped() && found == Lookup(regions, addr)
    {
      if regions != [] && Sub32(addr, regions[last].base) < regions[last].size {
        TableFits(regions, mem.Length, last);
        LookupUnique(regions, mem.Length, last, addr);
        return Some(regions[last]);
      }
      var i := 0;
      while i < |regions|
        invariant 0 <= i <= |regions| && last == old(last)
        invariant forall k :: 0 <= k < i ==> !Holds(regions[k], addr)
      {
        var r := regions[i];
        TableFits(regions, mem.Length, i);
        if Sub32(addr, r.base) < r.size {
          last := i;
          LookupUnique(regions, mem.Length, i, addr);
          return Some(r);
        }
        i := i + 1;
      }
      found := None;
    }

    method Check(addr: u32, size: nat, need: Need) returns (found: Option<Region>)
      requires Mapped() && IsSize(size)
      modifies this`last
      ensures Mapped() && found == Resolve(regions, addr, size, need)
    {
      found := Find(addr);
      LookupFits(regions, mem.Length, addr);
      if found.Some? {
        var r := found.value;
        if Sub32(addr, r.base) > r.size - size || !Allows(r.perm, need) || !Accepts(r.widths, size) {
          found := None;
        }
      }
    }

    // ---- hit paths ----

    method ReadHit(c: Cache, swap: bool, addr: u32, size: nat) returns (hit: bool, out: u32)
      requires IsSize(size) && (c.span != 0 ==> c.host + c.span <= mem.Length)
      ensures hit <==> Covers(c, addr, size)
      ensures hit ==> var p := c.host + Sub32(addr, c.base); out == Compose(mem[p..p + size], swap)
    {
      var off := Sub32(addr, c.base);
      if off < c.span && c.span - off >= size {
        var p := c.host + off;
        LoadComposes(mem[p..p + size], swap);
        return true, Order(swap, HostLoad(mem[p..p + size]), size);
      }
      return false, 0;
    }

    /** Writes bytes at a host address. */
    method Poke(p: nat, s: seq<u8>)
      requires p + |s| <= mem.Length
      modifies mem
      ensures mem[..] == Splice(old(mem[..]), p, s)
    {
      forall i | 0 <= i < |s| {
        mem[p + i] := s[i];
      }
    }

    method WriteHit(c: Cache, swap: bool, addr: u32, size: nat, v: u32) returns (hit: bool)
      requires IsSize(size) && (c.span != 0 ==> c.host + c.span <= mem.Length)
      modifies mem
      ensures hit <==> Covers(c, addr, size)
      ensures mem[..] ==
              if hit then Splice(old(mem[..]), c.host + Sub32(addr, c.base), HostStore(Order(swap, v, size), size))
                         else old(mem[..])
    {
      var off := Sub32(addr, c.base);
      hit := off < c.span && c.span - off >= size;
      if hit {
        Poke(c.host + off, HostStore(Order(swap, v, size), size));
      }
    }

    method FetchHit(c: Cache, swap: bool, addr: u32) returns (hit: bool, out: u32)
      requires c.span != 0 ==> c.host + c.span < mem.Length
      ensures hit <==> Sub32(addr, c.base) < c.span
      ensures hit ==> var p := c.host + Sub32(addr, c.base); out == Compose(mem[p..p + 2], swap)
    {
      var off := Sub32(addr, c.base);
      if off < c.span {
        var p := c.host + off;
        LoadComposes(mem[p..p + 2], swap);
        return true, Order(swap, HostLoad(mem[p..p + 2]), 2);
      }
      return false, 0;
    }

    // ---- slow paths ----

    method ArmData(r: Region)
      requires Valid() && r in regions && DataRegion(r)
      modifies this`data, this`dataBe
      ensures Valid() && Armed(r)
    {
      var i :| 0 <= i < |regions| && regions[i] == r;
      TableFits(regions, mem.Length, i);
      if be {
        dataBe := Cache(r.base, r.size, r.host);
      } else {
        data := Cache(r.base, r.size, r.host);
      }
    }

    method ArmRodata(r: Region)
      requires Valid() && r in regions && r.kind.Rom? && r.perm.r
      modifies this`rodata, this`rodataBe
      ensures Valid()
      ensures r.widths == ANY_WIDTH ==> Mirrors(if be then rodataBe else rodata, r, r.size)
      ensures r.widths != ANY_WIDTH ==> rodata == old(rodata) && rodataBe == old(rodataBe)
    {
      if r.widths != ANY_WIDTH {
        return;
      }
      var i :| 0 <= i < |regions| && regions[i] == r;
      TableFits(regions, mem.Length, i);
      if be {
        rodataBe := Cache(r.base, r.size, r.host);
      } else {
        rodata := Cache(r.base, r.size, r.host);
      }
    }

    method ArmFetch(r: Region)
      requires Valid() && r in regions && FetchRegion(r)
      modifies this`fetch, this`fetchBe
      ensures Valid() && Mirrors(if be then fetchBe else fetch, r, r.size - 1)
    {
      var i :| 0 <= i < |regions| && regions[i] == r;
      TableFits(regions, mem.Length, i);
      if be {
        fetchBe := Cache(r.base, r.size - 1, r.host);
      } else {
        fetch := Cache(r.base, r.size - 1, r.host);
      }
    }

    /** A read served from ROM without the table. */
    method RodataHit(addr: u32, size: nat) returns (hit: bool, out: u32)
      requires Valid() && IsSize(size)
      ensures hit <==> Covers(rodata, addr, size) || Covers(rodataBe, addr, size)
      ensures hit ==> Resolve(regions, addr, size, ToRead).Some? && Resolve(regions, addr, size, ToRead).value.kind.Rom?
      ensures hit ==> out == PlainValue(regions, be, mem[..], addr, size, ToRead)
    {
      assert rodata.span != 0 ==> rodata.host + rodata.span <= mem.Length;
      assert rodataBe.span != 0 ==> rodataBe.host + rodataBe.span <= mem.Length;
      hide Table, CacheOk, Compose;
      hit, out := ReadHit(rodata, false, addr, size);
      if hit {
        var r := HitIsWalk(rodata, regions, mem.Length, !be, RodataRegion, addr, size);
        return;
      }
      hit, out := ReadHit(rodataBe, true, addr, size);
      if hit {
        var r := HitIsWalk(rodataBe, regions, mem.Length, be, RodataRegion, addr, size);
      }
    }

    /** The bytes of plain memory behind an access, in the guest's order. */
    method PlainLoad(r: Region, addr: u32, size: nat, need: Need) returns (out: u32)
      requires Table(regions, mem.Length) && IsSize(size) && Resolve(regions, addr, size, need) == Some(r) && Plain(r)
      ensures out == PlainValue(regions, be, mem[..], addr, size, need)
    {
      LookupFits(regions, mem.Length, addr);
      var p := r.host + Sub32(addr, r.base);
      LoadComposes(mem[p..p + size], be);
      out := Order(be, HostLoad(mem[p..p + size]), size);
    }

    /** What a read the table served leaves behind for the next one. */
    method ArmRead(r: Region)
      requires Valid() && r in regions && Plain(r) && r.perm.r && r.widths != NO_WIDTH
      modifies this`data, this`dataBe, this`rodata, this`rodataBe
      ensures Valid() && (DataRegion(r) ==> Armed(r))
    {
      if r.kind.Ram? && r.perm == RWX {
        ArmData(r);
      } else if r.kind.Rom? {
        ArmRodata(r);
      }
    }

    method ReadSlow(addr: u32, size: nat) returns (res: Access)
      requires Valid() && IsSize(size)
      modifies this`last, this`dev, this`data, this`dataBe, this`rodata, this`rodataBe
      ensures Valid()
      ensures (dev, res) == ReadWalk(devs, regions, be, mem[..], old(dev), addr, size)
      ensures var r := Resolve(regions, addr, size, ToRead); r.Some? && DataRegion(r.value) ==> Armed(r.value)
    {
      hide Table, CacheOk, PlainValue, DeviceRead;
      var hit, out := RodataHit(addr, size);
      if hit {
        return Done(out);
      }
      var found := Check(addr, size, ToRead);
      if found.None? {
        return Faulted(FAULT_LOAD);
      }
      var r := found.value;
      if Plain(r) {
        out := PlainLoad(r, addr, size, ToRead);
        ArmRead(r);
        res := Done(out);
      } else {
        var v := DeviceRead(devs, r, dev, addr, size);
        dev, res := v.0, v.1;
      }
    }

    /** The RAM arm of the write: store the bytes, then arm the cache. */
    method WriteRam(r: Region, addr: u32, size: nat, v: u32)
      requires Valid() && IsSize(size) && Resolve(regions, addr, size, ToWrite) == Some(r) && r.kind.Ram?
      modifies this`data, this`dataBe, mem
      ensures Valid()
      ensures mem[..] == PlainStore(regions, be, old(mem[..]), addr, size, v)
    {
      LookupFits(regions, mem.Length, addr);
      Poke(r.host + Sub32(addr, r.base), HostStore(Order(be, v, size), size));
      if r.perm == RWX {
        ArmData(r);
      }
    }

    method WriteSlow(addr: u32, size: nat, v: u32) returns (res: Access)
      requires Valid() && IsSize(size)
      modifies this`last, this`dev, this`data, this`dataBe, mem
      ensures Valid()
      ensures (dev, mem[..], res) == WriteWalk(devs, regions, be, old(mem[..]), old(dev), addr, size, v)
    {
      hide Table, CacheOk, PlainStore, DeviceWrite;
      var found := Check(addr, size, ToWrite);
      if found.None? {
        return Faulted(FAULT_STORE);
      }
      var r := found.value;
      if r.kind.Ram? {
        WriteRam(r, addr, size, v);
        res := Done(0);
      } else if r.kind.Rom? {
        res := Faulted(FAULT_STORE);
      } else {
        var w := DeviceWrite(devs, r, dev, addr, size, v);
        dev, res := w.0, w.1;
      }
    }

    method FetchSlow(addr: u32) returns (res: Access)
      requires Valid()
      modifies this`last, this`dev, this`fetch, this`fetchBe
      ensures Valid()
      ensures (dev, res) == FetchWalk(devs, regions, be, mem[..], old(dev), addr)
    {
      hide Table, CacheOk, PlainValue;
      var found := Check(addr, 2, ToExec);
      if found.None? {
        return Faulted(FAULT_FETCH);
      }
      var r := found.value;
      if Plain(r) {
        var out := PlainLoad(r, addr, 2, ToExec);
        ArmFetch(r);
        res := Done(out);
      } else if r.kind.Passthru? {
        var v := devs.peek(dev, HostOf(r, addr), 2);
        dev, res := v.0, Done(v.1 % 0x1_0000);
      } else {
        res := Faulted(FAULT_FETCH);
      }
    }

    // ---- accessors ----

    /** The region that holds an address, if one does, takes every width or none or is not the data cache's. */
    ghost predicate UniformAt(addr: u32)
      reads this`regions
    {
      Lookup(regions, addr).Some? ==> Uniform(Lookup(regions, addr).value)
    }

    /** The data caches, little-endian first: a hit is RAM the walk resolves to, width rule aside. */
    method DataReadHit(addr: u32, size: nat) returns (hit: bool, out: u32)
      requires Valid() && IsSize(size)
      ensures hit <==> Covers(data, addr, size) || Covers(dataBe, addr, size)
      ensures hit ==> Lookup(regions, addr).Some? && Armed(Lookup(regions, addr).value)
      ensures hit && UniformAt(addr) ==>
                var r := Resolve(regions, addr, size, ToRead);
                r.Some? && Plain(r.value) && out == PlainValue(regions, be, mem[..], addr, size, ToRead)
    {
      hit, out := ReadHit(data, false, addr, size);
      if hit {
        var r := HitIsWalk(data, regions, mem.Length, !be, DataRegion, addr, size);
        return;
      }
      hit, out := ReadHit(dataBe, true, addr, size);
      if hit {
        var r := HitIsWalk(dataBe, regions, mem.Length, be, DataRegion, addr, size);
      }
    }

    /** The same for a store through one data cache. */
    method DataWriteHit(c: Cache, swap: bool, addr: u32, size: nat, v: u32) returns (hit: bool)
      requires Valid() && IsSize(size) && CacheOk(c, regions, mem.Length, swap == be, DataRegion, 0)
      modifies mem
      ensures !hit ==> mem[..] == old(mem[..])
      ensures hit && UniformAt(addr) ==>
                var r := Resolve(regions, addr, size, ToWrite);
                r.Some? && r.value.kind.Ram? && mem[..] == PlainStore(regions, be, old(mem[..]), addr, size, v)
    {
      hit := WriteHit(c, swap, addr, size, v);
      if hit {
        var r := HitIsWalk(c, regions, mem.Length, swap == be, DataRegion, addr, size);
      }
    }

    /**
     * A read through the caches is the walk's, unless it is of a RWX RAM region that takes some widths
     * and not others. Whatever the widths, a read of an armed region is served.
     */
    method Read(addr: u32, size: nat) returns (res: Access)
      requires Valid() && IsSize(size)
      modifies this`last, this`dev, this`data, this`dataBe, this`rodata, this`rodataBe
      ensures Valid()
      ensures UniformAt(addr) ==> (dev, res) == ReadWalk(devs, regions, be, mem[..], old(dev), addr, size)
      ensures var r := Resolve(regions, addr, size, ToRead); r.Some? && DataRegion(r.value) ==> Armed(r.value)
      ensures old(Covers(data, addr, size) || Covers(dataBe, addr, size)) ==> res.Done?
    {
      var hit, out := DataReadHit(addr, size);
      if hit {
        return Done(out);
      }
      res := ReadSlow(addr, size);
    }

    /**
     * The condition is exact: a RWX RAM region that takes one width and not another answers an
     * access of the refused width as soon as an accepted one has armed the cache.
     */
    method WidthLeak(i: nat) returns (size: nat, res: Access)
      requires Valid() && i < |regions| && !Uniform(regions[i])
      modifies this`last, this`dev, this`data, this`dataBe, this`rodata, this`rodataBe
      ensures Valid() && IsSize(size)
      ensures ReadWalk(devs, regions, be, mem[..], old(dev), regions[i].base, size) == (old(dev), Faulted(FAULT_LOAD))
      ensures res.Done?
    {
      var r := regions[i];
      TableFits(regions, mem.Length, i);
      LookupUnique(regions, mem.Length, i, r.base);
      var first := if r.widths.w8 then 1 else if r.widths.w16 then 2 else 4;
      size := if !r.widths.w8 then 1 else if !r.widths.w16 then 2 else 4;
      hide Table, CacheOk, PlainValue, Lookup;
      res := Read(r.base, first);
      res := Read(r.base, size);
    }

    method ReadBe(addr: u32, size: nat) returns (res: Access)
      requires Valid() && IsSize(size)
      modifies this`last, this`dev, this`data, this`dataBe, this`rodata, this`rodataBe
      ensures Valid()
      ensures UniformAt(addr) ==> (dev, res) == ReadWalk(devs, regions, be, mem[..], old(dev), addr, size)
    {
      var hit, out := ReadHit(dataBe, true, addr, size);
      if hit {
        var r := HitIsWalk(dataBe, regions, mem.Length, be, DataRegion, addr, size);
        return Done(out);
      }
      res := ReadSlow(addr, size);
    }

    method Write(addr: u32, size: nat, v: u32) returns (res: Access)
      requires Valid() && IsSize(size)
      modifies this`last, this`dev, this`data, this`dataBe, mem
      ensures Valid()
      ensures UniformAt(addr) ==>
                (dev, mem[..], res) == WriteWalk(devs, regions, be, old(mem[..]), old(dev), addr, size, v)
    {
      var hit := DataWriteHit(data, false, addr, size, v);
      if !hit {
        hit := DataWriteHit(dataBe, true, addr, size, v);
      }
      if hit {
        res := Done(0);
      } else {
        res := WriteSlow(addr, size, v);
      }
    }

    method WriteBe(addr: u32, size: nat, v: u32) returns (res: Access)
      requires Valid() && IsSize(size)
      modifies this`last, this`dev, this`data, this`dataBe, mem
      ensures Valid()
      ensures UniformAt(addr) ==>
                (dev, mem[..], res) == WriteWalk(devs, regions, be, old(mem[..]), old(dev), addr, size, v)
    {
      var hit := DataWriteHit(dataBe, true, addr, size, v);
      if hit {
        res := Done(0);
      } else {
        res := WriteSlow(addr, size, v);
      }
    }

    method Fetch(addr: u32) returns (res: Access)
      requires Valid()
      modifies this`last, this`dev, this`fetch, this`fetchBe
      ensures Valid()
      ensures (dev, res) == FetchWalk(devs, regions, be, mem[..], old(dev), addr)
    {
      var hit, out := FetchHit(fetch, false, addr);
      if hit {
        var r := FetchIsWalk(fetch, regions, mem.Length, !be, addr);
        return Done(out);
      }
      hit, out := FetchHit(fetchBe, true, addr);
      if hit {
        var r := FetchIsWalk(fetchBe, regions, mem.Length, be, addr);
        return Done(out);
      }
      res := FetchSlow(addr);
    }

    method FetchBe(addr: u32) returns (res: Access)
      requires Valid()
      modifies this`last, this`dev, this`fetch, this`fetchBe
      ensures Valid()
      ensures (dev, res) == FetchWalk(devs, regions, be, mem[..], old(dev), addr)
    {
      var hit, out := FetchHit(fetchBe, true, addr);
      if hit {
        var r := FetchIsWalk(fetchBe, regions, mem.Length, be, addr);
        return Done(out);
      }
      res := FetchSlow(addr);
    }

    // ---- bulk access ----

    /** Where guest addresses lie in host memory. */
    ghost function Trans(): (t: imap<int, nat>)
      requires Mapped()
      reads this`regions, this`last
      ensures Within(t, mem.Length)
    {
      TranslationWithin(regions, mem.Length);
      Translation(regions)
    }

    /** One step of a bulk copy: how many of the `want` bytes from `addr` one region has, and where. */
    method Chunk(addr: u32, want: u32) returns (p: nat, n: nat)
      requires Mapped() && want > 0
      modifies this`last
      ensures Mapped() && n <= want && p + n <= mem.Length
      ensures n == 0 <==> addr !in Trans()
      ensures Linear(Trans(), addr, n, p)
    {
      var found := Find(addr);
      TranslationIsLookup(regions, mem.Length, addr);
      if found.None? || !Plain(found.value) {
        return 0, 0;
      }
      var r := found.value;
      LookupFits(regions, mem.Length, addr);
      p, n := r.host + Sub32(addr, r.base), r.size - Sub32(addr, r.base);
      if n > want {
        n := want;
      }
      RegionLinear(regions, mem.Length, r, addr, n);
    }

    /** One step of a load: the prefix of `rest` that one region takes is put in place. */
    method LoadStep(cur: u32, rest: seq<u8>) returns (n: nat)
      requires Mapped() && 0 < |rest| < TOP
      modifies this`last, mem
      ensures Mapped() && n <= |rest| && (n == 0 <==> cur !in Trans())
      ensures LoadWalk(Trans(), mem[..], cur + n, rest[n..]) == LoadWalk(Trans(), old(mem[..]), cur, rest)
      ensures BackedLen(Trans(), cur, |rest|) == n + BackedLen(Trans(), cur + n, |rest[n..]|)
    {
      hide Translation, Table, LoadWalk, BackedLen;
      ghost var was := mem[..];
      var p;
      p, n := Chunk(cur, |rest|);
      assert mem[..] == was;
      Poke(p, rest[..n]);
      ChunkWalk(Trans(), was, cur, rest, n, p);
      BackedRun(Trans(), cur, n, |rest|);
    }

    /** The copying loop, one region at a time, until the run ends or an address has no memory. */
    method LoadLoop(addr: u32, s: seq<u8>) returns (ok: bool)
      requires Mapped() && addr + |s| <= TOP && |s| < TOP
      modifies this`last, mem
      ensures Mapped()
      ensures ok <==> BackedLen(Trans(), addr, |s|) == |s|
      ensures mem[..] == LoadWalk(Trans(), old(mem[..]), addr, s)
    {
      hide Translation, Table, LoadWalk, BackedLen;
      ghost var t := Trans();
      var cur, rest := addr as int, s;
      while rest != []
        invariant |rest| <= |s| && cur == addr + (|s| - |rest|) && Mapped()
        invariant BackedLen(t, addr, |s|) == |s| - |rest| + BackedLen(t, cur, |rest|)
        invariant LoadWalk(t, mem[..], cur, rest) == LoadWalk(t, old(mem[..]), addr, s)
        decreases |rest|
      {
        var n := LoadStep(cur, rest);
        cur, rest := cur + n, rest[n..];
        if n == 0 {
          LoadStops(t, mem[..], cur, rest);
          return false;
        }
      }
      LoadStops(t, mem[..], cur, rest);
      ok := true;
    }

    /**
     * Copies a run of bytes into guest memory, bypassing permissions. It succeeds exactly when
     * the range stays within 4 GB and every byte of it is RAM or ROM.
     */
    method Load(addr: u32, s: seq<u8>) returns (ok: bool)
      requires Valid() && |s| < TOP
      modifies this`last, this`fetch, this`data, this`rodata, this`fetchBe, this`dataBe, this`rodataBe, mem
      ensures Valid()
      ensures ok <==> addr + |s| <= TOP && BackedLen(Trans(), addr, |s|) == |s|
      ensures mem[..] == if addr + |s| <= TOP then LoadWalk(Trans(), old(mem[..]), addr, s) else old(mem[..])
    {
      hide Translation, Table, LoadWalk, BackedLen;
      if addr + |s| > TOP {
        return false;
      }
      Flush();
      ok := LoadLoop(addr, s);
    }

    /** Reads a run of guest bytes; stops at the first byte that is not RAM or ROM. */
    method Dump(addr: u32, len: u32) returns (ok: bool, out: seq<u8>)
      requires Mapped()
      modifies this`last
      ensures Mapped()
      ensures ok <==> addr + len <= TOP && BackedLen(Trans(), addr, len) == len
      ensures |out| == if addr + len <= TOP then BackedLen(Trans(), addr, len) else 0
      ensures Reads(Trans(), mem[..], addr, out)
    {
      hide Translation, Table, BackedLen;
      out := [];
      if addr + len > TOP {
        return false, out;
      }
      ghost var t := Trans();
      while |out| < len
        invariant |out| <= len && Mapped()
        invariant Reads(t, mem[..], addr, out)
        decreases len - |out|
      {
        var p, n := Chunk(addr + |out|, len - |out|);
        if n == 0 {
          return false, out;
        }
        ReadsMore(t, mem[..], addr, out, addr + |out|, n, p);
        out := out + mem[..][p..p + n];
      }
      ok := true;
    }

    /** Dumping a range just loaded returns what was loaded, when regions share no buffer. */
    method LoadThenDump(addr: u32, s: seq<u8>) returns (ok: bool, out: seq<u8>)
      requires Valid() && |s| < TOP
      modifies this, mem
      ensures Valid()
      ensures ok <==> addr + |s| <= TOP && BackedLen(old(Trans()), addr, |s|) == |s|
      ensures ok && OneToOne(old(Trans()), addr, |s|) ==> out == s
    {
      hide Translation, Table, LoadWalk, BackedLen, Reads, OneToOne;
      ok := Load(addr, s);
      ghost var now := mem[..];
      var fine;
      fine, out := Dump(addr, |s|);
      assert mem[..] == now;
      if ok && OneToOne(Trans(), addr, |s|) {
        LoadedReads(Trans(), old(mem[..]), addr, s);
        ReadsOnce(Trans(), now, addr, s, out);
      }
    }
  }
}
