/**
 * The ELF32 loader: walks untrusted program headers, copying each PT_LOAD segment into
 * guest memory or, for an execute-in-place image, mapping it where it lies.
 */
module Elf {
  import opened Words
  import opened BusWalk
  import opened BusView
  import opened Bus

  const PT_LOAD := 1
  const ET_EXEC := 2

  datatype Error =
    | TooShort | NotElf | NotElf32 | BadOrder | NotExec | WrongMachine | BadEntrySize | NoHeaders | HeadersOutside
    | FileBeyondMem | SegmentOutside | PastTop | NoRoomToMap | BssOutsideRam | BssDoesNotFit | SegmentDoesNotFit
    | NothingToLoad | NeedsWindow

  function Rd16(img: seq<u8>, at: nat, be: bool): u16
    requires at + 2 <= |img|
  {
    if be then At(img, at) * 0x100 + At(img, at + 1) else At(img, at) + At(img, at + 1) * 0x100
  }

  function Rd32(img: seq<u8>, at: nat, be: bool): u32
    requires at + 4 <= |img|
  {
    if be then At(img, at) * 0x100_0000 + At(img, at + 1) * 0x1_0000 + At(img, at + 2) * 0x100 + At(img, at + 3)
    else At(img, at) + At(img, at + 1) * 0x100 + At(img, at + 2) * 0x1_0000 + At(img, at + 3) * 0x100_0000
  }

  /** The file's own fields, and where its program headers are. */
  datatype Header = Header(be: bool, machine: u16, entry: u32, phoff: u32, entsize: u16, count: u16)

  datatype Segment = Segment(kind: u32, offset: u32, vaddr: u32, paddr: u32, filesz: u32, memsz: u32)

  predicate Bounded(img: seq<u8>, h: Header) {
    32 <= h.entsize && 0 < h.count && h.phoff + h.entsize as int * h.count as int <= |img|
  }

  /** Checks the file header in the loader's order. */
  function ReadHeader(img: seq<u8>, machine: u16, alt: u16): (r: (Option<Header>, Error))
    ensures r.0.Some? ==> Bounded(img, r.0.value)
  {
    if |img| < 52 then (None, TooShort)
    else if !(img[0] == 0x7F && img[1] == 0x45 && img[2] == 0x4C && img[3] == 0x46) then (None, NotElf)
    else if img[4] != 1 then (None, NotElf32)
    else if img[5] != 1 && img[5] != 2 then (None, BadOrder)
    else
      var be := img[5] == 2;
      var h := Header(be, Rd16(img, 18, be), Rd32(img, 24, be), Rd32(img, 28, be), Rd16(img, 42, be),
                      Rd16(img, 44, be));
      if Rd16(img, 16, be) != ET_EXEC then (None, NotExec)
      else if machine != 0 && h.machine != machine && !(alt != 0 && h.machine == alt) then (None, WrongMachine)
      else if h.entsize < 32 then (None, BadEntrySize)
      else if h.count == 0 then (None, NoHeaders)
      else if h.phoff + h.entsize as int * h.count as int > |img| then (None, HeadersOutside)
      else (Some(h), NothingToLoad)
  }

  /** Where entry `i` of a table lies. */
  function EntryAt(start: u32, entsize: u16, i: nat): nat {
    start + i * entsize as int
  }

  lemma EntryInside(img: seq<u8>, h: Header, i: nat)
    requires Bounded(img, h) && i < h.count
    ensures EntryAt(h.phoff, h.entsize, i) + 32 <= |img|
  {
    TimesMonotone(h.entsize, i + 1, h.count);
  }

  lemma {:induction false} TimesMonotone(e: nat, i: nat, n: nat)
    requires i <= n
    ensures i * e <= n * e
    decreases n - i
  {
    if i < n {
      TimesMonotone(e, i + 1, n);
      assert (i + 1) * e == i * e + e;
    }
  }

  function SegmentAt(img: seq<u8>, at: nat, be: bool): Segment
    requires at + 32 <= |img|
  {
    Segment(Rd32(img, at, be), Rd32(img, at + 4, be), Rd32(img, at + 8, be), Rd32(img, at + 12, be),
            Rd32(img, at + 16, be), Rd32(img, at + 20, be))
  }

  function ReadSegment(img: seq<u8>, h: Header, i: nat): Segment
    requires Bounded(img, h) && i < h.count
  {
    EntryInside(img, h, i);
    SegmentAt(img, EntryAt(h.phoff, h.entsize, i), h.be)
  }

  /** Guest RAM as the loader is told it; size 0 means copy everything. */
  datatype Window = Window(base: u32, size: u32)

  predicate InRam(w: Window, g: Segment) {
    w.size != 0 && w.base <= g.paddr && g.paddr + g.memsz <= w.base + w.size
  }

  predicate IsMapped(w: Window, g: Segment) {
    w.size != 0 && !InRam(w, g)
  }

  /** The checks made on one segment before anything of it is placed. */
  function Refusal(img: seq<u8>, w: Window, g: Segment): Option<Error> {
    if g.filesz > g.memsz then Some(FileBeyondMem)
    else if g.offset + g.filesz > |img| then Some(SegmentOutside)
    else if g.paddr + (if IsMapped(w, g) then g.filesz else g.memsz) > TOP then Some(PastTop)
    else None
  }

  function Zeros(n: nat): (z: seq<u8>)
    ensures |z| == n && forall i :: 0 <= i < n ==> z[i] == 0
  {
    seq(n, i => 0)
  }

  /** The bytes a segment asks for: its file bytes, then zeros up to memsz. */
  function Content(img: seq<u8>, g: Segment): (s: seq<u8>)
    requires g.filesz <= g.memsz && g.offset + g.filesz <= |img|
    ensures |s| == g.memsz
  {
    img[g.offset..g.offset + g.filesz] + Zeros(g.memsz - g.filesz)
  }

  // ---- placing one segment ----

  /** Where the table and memory stand, and the error that ended the walk if one did. */
  datatype Placed = Placed(regions: seq<Region>, mem: seq<u8>, failed: Option<Error>)

  ghost predicate Sound(p: Placed) {
    Table(p.regions, |p.mem|) && Within(Translation(p.regions), |p.mem|)
  }

  /** Zeroing 256 bytes at a time; the address wraps as the loader's 32-bit one does. */
  ghost function Fill(t: imap<int, nat>, mem: seq<u8>, a: u32, rem: nat): (r: (seq<u8>, bool))
    requires Within(t, |mem|)
    ensures |r.0| == |mem|
    decreases rem
  {
    if rem == 0 then (mem, true)
    else
      var n := if rem > 256 then 256 else rem;
      if a + n > TOP then (mem, false)
      else if BackedLen(t, a, n) < n then (LoadWalk(t, mem, a, Zeros(n)), false)
      else Fill(t, LoadWalk(t, mem, a, Zeros(n)), Add32(a, n), rem - n)
  }

  lemma FillStep(t: imap<int, nat>, mem: seq<u8>, a: u32, rem: nat, n: nat)
    requires Within(t, |mem|) && rem > 0 && n == (if rem > 256 then 256 else rem) && a + n <= TOP
    ensures Fill(t, mem, a, rem) ==
            if BackedLen(t, a, n) < n then (LoadWalk(t, mem, a, Zeros(n)), false)
            else Fill(t, LoadWalk(t, mem, a, Zeros(n)), Add32(a, n), rem - n)
  {
    hide LoadWalk, BackedLen, Zeros, Add32, Within;
  }

  lemma FillNone(t: imap<int, nat>, mem: seq<u8>, a: u32)
    requires Within(t, |mem|)
    ensures Fill(t, mem, a, 0) == (mem, true)
  {
  }

  lemma ZerosSplit(n: nat, k: nat)
    requires k <= n
    ensures Zeros(n) == Zeros(k) + Zeros(n - k)
  {
  }

  lemma FillLast(t: imap<int, nat>, mem: seq<u8>, a: int, b: u32, rem: nat)
    requires Within(t, |mem|) && rem == 0
    ensures Fill(t, mem, b, rem) == (LoadWalk(t, mem, a, Zeros(rem)), BackedLen(t, a, rem) == rem)
  {
    hide Fill, Within;
    FillNone(t, mem, b);
    LoadStops(t, mem, a, Zeros(rem));
  }

  lemma FillShort(t: imap<int, nat>, mem: seq<u8>, a: u32, rem: nat, n: nat)
    requires Within(t, |mem|) && 0 < n <= rem && BackedLen(t, a, n) < n
    ensures LoadWalk(t, mem, a, Zeros(n)) == LoadWalk(t, mem, a, Zeros(rem)) && BackedLen(t, a, rem) < rem
  {
    hide LoadWalk, BackedLen, Within;
    ZerosSplit(rem, n);
    LoadShort(t, mem, a, Zeros(n), Zeros(rem - n));
  }

  lemma FillRest(t: imap<int, nat>, mem: seq<u8>, a: u32, rem: nat, n: nat)
    requires Within(t, |mem|) && 0 < n <= rem && BackedLen(t, a, n) == n
    ensures LoadWalk(t, LoadWalk(t, mem, a, Zeros(n)), a + n, Zeros(rem - n)) == LoadWalk(t, mem, a, Zeros(rem))
    ensures BackedLen(t, a + n, rem - n) == rem - n <==> BackedLen(t, a, rem) == rem
  {
    hide LoadWalk, BackedLen, Within;
    ZerosSplit(rem, n);
    LoadWalkAppend(t, mem, a, Zeros(n), Zeros(rem - n));
    BackedRun(t, a, n, rem);
  }

  /** Inside the address space the 256-byte pieces are one run of zeros. */
  lemma {:induction false} FillIsLoad(t: imap<int, nat>, mem: seq<u8>, a: u32, rem: nat)
    requires Within(t, |mem|) && a + rem <= TOP
    ensures Fill(t, mem, a, rem) == (LoadWalk(t, mem, a, Zeros(rem)), BackedLen(t, a, rem) == rem)
    decreases rem
  {
    hide Fill, LoadWalk, BackedLen, Zeros, Within;
    if rem == 0 {
      FillNone(t, mem, a);
      LoadStops(t, mem, a, Zeros(0));
    } else {
      var n: nat :| n == if rem > 256 then 256 else rem;
      var first := LoadWalk(t, mem, a, Zeros(n));
      FillStep(t, mem, a, rem, n);
      if BackedLen(t, a, n) < n {
        FillShort(t, mem, a, rem, n);
      } else {
        if rem == n {
          FillLast(t, first, a + n, Add32(a, n), rem - n);
        } else {
          FillIsLoad(t, first, Add32(a, n), rem - n);
        }
        assert Fill(t, first, Add32(a, n), rem - n) ==
               (LoadWalk(t, first, a + n, Zeros(rem - n)), BackedLen(t, a + n, rem - n) == rem - n);
        FillRest(t, mem, a, rem, n);
      }
    }
  }

  /** A run that stops inside its first part never reaches the rest. */
  lemma {:induction false} LoadShort(t: imap<int, nat>, mem: seq<u8>, a: int, s: seq<u8>, r: seq<u8>)
    requires Within(t, |mem|) && BackedLen(t, a, |s|) < |s|
    ensures LoadWalk(t, mem, a, s + r) == LoadWalk(t, mem, a, s)
    ensures BackedLen(t, a, |s + r|) == BackedLen(t, a, |s|)
    decreases |s|
  {
    if a in t {
      assert (s + r)[1..] == s[1..] + r;
      LoadShort(t, mem[t[a] := s[0]], a + 1, s[1..], r);
    }
  }

  function RomOf(imgAt: nat, g: Segment): Region {
    Region(g.paddr, g.filesz, Rom, imgAt + g.offset, RX, ANY_WIDTH)
  }

  /** Map the file bytes where they lie, then zero the .bss at the run address. */
  ghost function PlaceMapped(rs: seq<Region>, mem: seq<u8>, imgAt: nat, w: Window, g: Segment): (p: Placed)
    requires Table(rs, |mem|) && g.filesz <= g.memsz
    ensures Sound(p) && |p.mem| == |mem|
  {
    TranslationWithin(rs, |mem|);
    if g.filesz != 0 && !Table(rs + [RomOf(imgAt, g)], |mem|) then Placed(rs, mem, Some(NoRoomToMap))
    else
      var rs' := if g.filesz != 0 then rs + [RomOf(imgAt, g)] else rs;
      TranslationWithin(rs', |mem|);
      var bss, rem := Add32(g.vaddr, g.filesz), g.memsz - g.filesz;
      if rem == 0 then Placed(rs', mem, None)
      else if bss < w.base || bss + rem > w.base + w.size then Placed(rs', mem, Some(BssOutsideRam))
      else
        var f := Fill(Translation(rs'), mem, bss, rem);
        Placed(rs', f.0, if f.1 then None else Some(BssDoesNotFit))
  }

  /** Copy the file bytes to the load address, then zero up to memsz. */
  ghost function PlaceCopied(rs: seq<Region>, mem: seq<u8>, img: seq<u8>, g: Segment): (p: Placed)
    requires Table(rs, |mem|) && g.filesz <= g.memsz && g.offset + g.filesz <= |img|
    ensures Sound(p) && |p.mem| == |mem| && p.regions == rs
  {
    TranslationWithin(rs, |mem|);
    var t := Translation(rs);
    var file := img[g.offset..g.offset + g.filesz];
    var mem' := LoadWalk(t, mem, g.paddr, file);
    if BackedLen(t, g.paddr, |file|) < |file| then Placed(rs, mem', Some(SegmentDoesNotFit))
    else
      var f := Fill(t, mem', Add32(g.paddr, g.filesz), g.memsz - g.filesz);
      Placed(rs, f.0, if f.1 then None else Some(BssDoesNotFit))
  }

  ghost function Place(rs: seq<Region>, mem: seq<u8>, img: seq<u8>, imgAt: nat, w: Window, g: Segment): (p: Placed)
    requires Table(rs, |mem|)
    ensures Sound(p) && |p.mem| == |mem|
  {
    TranslationWithin(rs, |mem|);
    var no := Refusal(img, w, g);
    if no.Some? then Placed(rs, mem, no)
    else if IsMapped(w, g) then PlaceMapped(rs, mem, imgAt, w, g)
    else PlaceCopied(rs, mem, img, g)
  }

  /** After the first `i` headers; a failure ends the walk. */
  ghost function After(rs: seq<Region>, mem: seq<u8>, img: seq<u8>, imgAt: nat, w: Window, h: Header,
                       i: nat): (p: Placed)
    requires Table(rs, |mem|) && Bounded(img, h) && i <= h.count
    ensures Sound(p) && |p.mem| == |mem|
    decreases i
  {
    if i == 0 then
      TranslationWithin(rs, |mem|);
      Placed(rs, mem, None)
    else
      var p := After(rs, mem, img, imgAt, w, h, i - 1);
      var g := ReadSegment(img, h, i - 1);
      if p.failed.Some? || g.kind != PT_LOAD then p
      else Place(p.regions, p.mem, img, imgAt, w, g)
  }

  // ---- the image stays put ----

  /** Where a segment is written, and how much: all of a copied one, the .bss of a mapped one. */
  function WrittenAt(w: Window, g: Segment): int {
    if IsMapped(w, g) then Add32(g.vaddr, g.filesz) else g.paddr
  }

  function WrittenLen(w: Window, g: Segment): int {
    if IsMapped(w, g) then g.memsz - g.filesz else g.memsz
  }

  predicate Inside(w: Window, a: int, n: int) {
    w.size == 0 || (w.base <= a && a + n <= w.base + w.size)
  }

  /** No address of the range has image bytes behind it. */
  ghost predicate Avoids(t: imap<int, nat>, a: int, n: int, imgAt: nat, len: nat) {
    forall x :: a <= x < a + n && x in t ==> !(imgAt <= t[x] < imgAt + len)
  }

  lemma AvoidsPart(t: imap<int, nat>, a: int, k: nat, n: nat, imgAt: nat, len: nat)
    requires k <= n && Avoids(t, a, n, imgAt, len)
    ensures Avoids(t, a, k, imgAt, len) && Avoids(t, a + k, n - k, imgAt, len)
  {
  }

  /** Nor has any that the segment writes. */
  ghost predicate Spared(t: imap<int, nat>, imgAt: nat, len: nat, w: Window, g: Segment) {
    Inside(w, WrittenAt(w, g), WrittenLen(w, g)) ==> Avoids(t, WrittenAt(w, g), WrittenLen(w, g), imgAt, len)
  }

  /** Nor any that the file has written. */
  ghost predicate Clear(t: imap<int, nat>, img: seq<u8>, imgAt: nat, w: Window, h: Header)
    requires Bounded(img, h)
  {
    forall i :: 0 <= i < h.count && ReadSegment(img, h, i).kind == PT_LOAD ==>
      Spared(t, imgAt, |img|, w, ReadSegment(img, h, i))
  }

  /** Four addresses in a row, the least a region can be, that are no region's. */
  predicate Gap(rs: seq<Region>, a: int) {
    0 <= a && a + 4 <= TOP && forall x :: a <= x < a + 4 ==> Lookup(rs, x).None?
  }

  predicate Meets(w: Window, a: int) {
    w.size != 0 && a < w.base + w.size && w.base < a + 4
  }

  /** The RAM window, if there is one, is in the address space and no region can be added over any of it. */
  ghost predicate Covered(rs: seq<Region>, w: Window) {
    w.size == 0 ||
    (w.base + w.size <= TOP && (|rs| >= MAX_REGIONS || forall a :: Gap(rs, a) ==> !Meets(w, a)))
  }

  /** What a caller owes: a window that is mapped, and an image the file does not write over. */
  ghost predicate Ready(rs: seq<Region>, img: seq<u8>, imgAt: nat, machine: u16, alt: u16, w: Window) {
    Covered(rs, w) &&
    var h := ReadHeader(img, machine, alt).0;
    h.Some? ==> Clear(Translation(rs), img, imgAt, w, h.value)
  }

  lemma LoadKeepsImage(t: imap<int, nat>, mem: seq<u8>, a: int, s: seq<u8>, imgAt: nat, len: nat)
    requires Within(t, |mem|) && Avoids(t, a, |s|, imgAt, len) && imgAt + len <= |mem|
    ensures LoadWalk(t, mem, a, s)[imgAt..imgAt + len] == mem[imgAt..imgAt + len]
  {
    var now := LoadWalk(t, mem, a, s);
    forall p | imgAt <= p < imgAt + len
      ensures now[p] == mem[p]
    {
      if now[p] != mem[p] {
        LoadOnlyBehind(t, mem, a, s, p);
      }
    }
  }

  lemma CoveredInside(rs: seq<Region>, cap: nat, w: Window, a: int, n: nat)
    requires Table(rs, cap) && Covered(rs, w) && w.size != 0 && Inside(w, a, n)
    ensures a + n <= TOP
  {
  }

  /** What the window reads through `u` it read through `t`, from the same place. */
  ghost predicate Keeps(t: imap<int, nat>, u: imap<int, nat>, w: Window) {
    if w.size == 0 then u == t else forall a :: w.base <= a < w.base + w.size && a in u ==> a in t && u[a] == t[a]
  }

  lemma KeepsSpared(t: imap<int, nat>, u: imap<int, nat>, imgAt: nat, len: nat, w: Window, g: Segment)
    requires Keeps(t, u, w) && Spared(t, imgAt, len, w, g)
    ensures Spared(u, imgAt, len, w, g)
  {
  }

  lemma KeepsClear(t: imap<int, nat>, u: imap<int, nat>, img: seq<u8>, imgAt: nat, w: Window, h: Header)
    requires Bounded(img, h) && Keeps(t, u, w) && Clear(t, img, imgAt, w, h)
    ensures Clear(u, img, imgAt, w, h)
  {
    hide ReadSegment, Spared, Keeps;
    forall i | 0 <= i < h.count && ReadSegment(img, h, i).kind == PT_LOAD
      ensures Spared(u, imgAt, |img|, w, ReadSegment(img, h, i))
    {
      KeepsSpared(t, u, imgAt, |img|, w, ReadSegment(img, h, i));
    }
  }

  /** Mapping a segment leaves the RAM window to RAM: the table refuses a region that would overlap it. */
  lemma GrowKeeps(rs: seq<Region>, r: Region, cap: nat, w: Window)
    requires w.size != 0 && Table(rs + [r], cap) && Covered(rs, w)
    ensures Covered(rs + [r], w) && Keeps(Translation(rs), Translation(rs + [r]), w)
  {
    var grown := rs + [r];
    assert grown[..|rs|] == rs && grown[|rs|] == r;
    assert |rs| < MAX_REGIONS && Fits(r, cap);
    forall a | Gap(grown, a)
      ensures Gap(rs, a)
    {
      GapBefore(rs, r, a);
    }
    forall a | w.base <= a < w.base + w.size
      ensures !Holds(r, a)
    {
      if Holds(r, a) {
        GapUnder(rs, r, cap, if a + 4 <= r.base + r.size then a else r.base + r.size - 4);
      }
    }
  }

  lemma GapBefore(rs: seq<Region>, r: Region, a: int)
    requires Gap(rs + [r], a)
    ensures Gap(rs, a)
  {
    var grown := rs + [r];
    assert forall i :: 0 <= i < |rs| ==> grown[i] == rs[i];
    forall x | a <= x < a + 4
      ensures Lookup(rs, x).None?
    {
      assert Lookup(grown, x).None?;
    }
  }

  /** What a new region takes was no region's. */
  lemma GapUnder(rs: seq<Region>, r: Region, cap: nat, a: int)
    requires Table(rs + [r], cap) && r.base <= a && a + 4 <= r.base + r.size <= TOP
    ensures Gap(rs, a)
  {
    var grown := rs + [r];
    forall i | 0 <= i < |rs|
      ensures Disjoint(rs[i], r)
    {
      TableDisjoint(grown, cap, i, |rs|);
    }
    assert forall x :: a <= x < a + 4 ==> Holds(r, x);
  }

  // ---- the loader ----

  /** Zeroes guest memory 256 bytes at a time. */
  method ZeroFill<D>(bus: Bus<D>, at: u32, n: u32) returns (ok: bool)
    requires bus.Valid()
    modifies bus, bus.mem
    ensures bus.Valid() && bus.regions == old(bus.regions)
    ensures (bus.mem[..], ok) == Fill(old(bus.Trans()), old(bus.mem[..]), at, n)
  {
    hide Translation, Table, LoadWalk, BackedLen, CacheOk;
    ghost var t := bus.Trans();
    var addr, rem := at, n;
    while rem != 0
      invariant bus.Valid() && bus.regions == old(bus.regions)
      invariant Fill(t, bus.mem[..], addr, rem) == Fill(t, old(bus.mem[..]), at, n)
    {
      var k := if rem > 256 then 256 else rem;
      var fits := bus.Load(addr, Zeros(k));
      if !fits {
        return false;
      }
      addr, rem := Add32(addr, k), rem - k;
    }
    ok := true;
  }

  /** Zeroing inside the window or the address space leaves the image alone. */
  lemma FillKeepsImage(rs: seq<Region>, mem: seq<u8>, a: u32, n: nat, imgAt: nat, len: nat, w: Window)
    requires Table(rs, |mem|) && Covered(rs, w) && Inside(w, a, n) && imgAt + len <= |mem|
    requires Avoids(Translation(rs), a, n, imgAt, len) && (w.size == 0 ==> a + n <= TOP)
    requires Within(Translation(rs), |mem|)
    ensures Fill(Translation(rs), mem, a, n).0[imgAt..imgAt + len] == mem[imgAt..imgAt + len]
  {
    if w.size != 0 {
      CoveredInside(rs, |mem|, w, a, n);
    }
    FillIsLoad(Translation(rs), mem, a, n);
    LoadKeepsImage(Translation(rs), mem, a, Zeros(n), imgAt, len);
  }

  /** The .bss of a segment, clear of the image. */
  method ZeroTail<D>(bus: Bus<D>, imgAt: nat, len: nat, w: Window, at: u32, n: u32) returns (ok: bool)
    requires bus.Valid() && imgAt + len <= bus.mem.Length && Covered(bus.regions, w) && Inside(w, at, n)
    requires Avoids(bus.Trans(), at, n, imgAt, len) && (w.size == 0 ==> at + n <= TOP)
    modifies bus, bus.mem
    ensures bus.Valid() && bus.regions == old(bus.regions)
    ensures (bus.mem[..], ok) == Fill(old(bus.Trans()), old(bus.mem[..]), at, n)
    ensures bus.mem[imgAt..imgAt + len] == old(bus.mem[imgAt..imgAt + len])
  {
    hide Translation, Table, LoadWalk, BackedLen, CacheOk, Fill, Covered, Avoids;
    FillKeepsImage(bus.regions, bus.mem[..], at, n, imgAt, len, w);
    ok := ZeroFill(bus, at, n);
    assert bus.mem[..][imgAt..imgAt + len] == bus.mem[imgAt..imgAt + len];
    assert old(bus.mem[..])[imgAt..imgAt + len] == old(bus.mem[imgAt..imgAt + len]);
  }

  lemma KeepsSelf(t: imap<int, nat>, w: Window)
    ensures Keeps(t, t, w)
  {
  }

  /** The mapping arm: no byte is copied but the zeros of the .bss. */
  method MapSegment<D>(bus: Bus<D>, imgAt: nat, len: nat, w: Window, g: Segment) returns (err: Option<Error>)
    requires bus.Valid() && imgAt + len <= bus.mem.Length && Covered(bus.regions, w)
    requires Spared(bus.Trans(), imgAt, len, w, g)
    requires IsMapped(w, g) && g.filesz <= g.memsz && g.offset + g.filesz <= len
    modifies bus, bus.mem
    ensures bus.Valid()
    ensures Placed(bus.regions, bus.mem[..], err) == PlaceMapped(old(bus.regions), old(bus.mem[..]), imgAt, w, g)
    ensures Covered(bus.regions, w) && Keeps(old(bus.Trans()), bus.Trans(), w)
    ensures bus.mem[imgAt..imgAt + len] == old(bus.mem[imgAt..imgAt + len])
  {
    hide Translation, Table, LoadWalk, BackedLen, CacheOk, Fill, Covered, Avoids, Keeps;
    KeepsSelf(bus.Trans(), w);
    if g.filesz != 0 {
      var ok := bus.Add(RomOf(imgAt, g));
      if !ok {
        return Some(NoRoomToMap);
      }
      GrowKeeps(old(bus.regions), RomOf(imgAt, g), bus.mem.Length, w);
      KeepsSpared(old(bus.Trans()), bus.Trans(), imgAt, len, w, g);
    }
    assert bus.mem[..] == old(bus.mem[..]);
    if g.memsz > g.filesz {
      var bss, rem := Add32(g.vaddr, g.filesz), g.memsz - g.filesz;
      if bss < w.base || bss + rem > w.base + w.size {
        return Some(BssOutsideRam);
      }
      var ok := ZeroTail(bus, imgAt, len, w, bss, rem);
      if !ok {
        return Some(BssDoesNotFit);
      }
    }
    err := None;
  }

  lemma SliceOfSlice(s: seq<u8>, at: nat, n: nat, i: nat, j: nat)
    requires at + n <= |s| && i <= j <= n
    ensures s[at..at + n][i..j] == s[at + i..at + j]
  {
    var whole, part := s[at..at + n], s[at + i..at + j];
    forall k | 0 <= k < |part|
      ensures part[k] == whole[i..j][k]
    {
      assert whole[i + k] == s[at + i + k];
    }
  }

  /** The copying arm: file bytes, then zeros, at the load address. */
  method CopySegment<D>(bus: Bus<D>, imgAt: nat, len: nat, w: Window, g: Segment) returns (err: Option<Error>)
    requires bus.Valid() && imgAt + len <= bus.mem.Length && Covered(bus.regions, w)
    requires g.filesz <= g.memsz && g.offset + g.filesz <= len && g.paddr + g.memsz <= TOP
    requires Inside(w, g.paddr, g.memsz) && Avoids(bus.Trans(), g.paddr, g.memsz, imgAt, len)
    modifies bus, bus.mem
    ensures bus.Valid() && bus.regions == old(bus.regions)
    ensures Placed(bus.regions, bus.mem[..], err)
            == PlaceCopied(old(bus.regions), old(bus.mem[..]), old(bus.mem[imgAt..imgAt + len]), g)
    ensures bus.mem[imgAt..imgAt + len] == old(bus.mem[imgAt..imgAt + len])
  {
    hide Translation, Table, LoadWalk, BackedLen, CacheOk, Fill, Covered, Avoids;
    AvoidsPart(bus.Trans(), g.paddr, g.filesz, g.memsz, imgAt, len);
    ghost var t, was, img := bus.Trans(), bus.mem[..], bus.mem[imgAt..imgAt + len];
    var file := bus.mem[imgAt + g.offset..imgAt + g.offset + g.filesz];
    assert img == was[imgAt..imgAt + len] && file == was[imgAt + g.offset..imgAt + g.offset + g.filesz];
    SliceOfSlice(was, imgAt, len, g.offset, g.offset + g.filesz);
    if g.filesz != 0 {
      LoadKeepsImage(t, was, g.paddr, file, imgAt, len);
      var ok := bus.Load(g.paddr, file);
      assert bus.mem[..][imgAt..imgAt + len] == bus.mem[imgAt..imgAt + len];
      if !ok {
        return Some(SegmentDoesNotFit);
      }
    } else {
      LoadStops(t, was, g.paddr, file);
    }
    ghost var mid := bus.mem[..];
    if g.memsz > g.filesz {
      var ok := ZeroTail(bus, imgAt, len, w, Add32(g.paddr, g.filesz), g.memsz - g.filesz);
      if !ok {
        return Some(BssDoesNotFit);
      }
    } else {
      FillNone(t, mid, Add32(g.paddr, g.filesz));
    }
    err := None;
  }

  /** One PT_LOAD segment, checked and placed. */
  method PlaceSegment<D>(bus: Bus<D>, imgAt: nat, len: nat, w: Window, g: Segment) returns (err: Option<Error>)
    requires bus.Valid() && imgAt + len <= bus.mem.Length && Covered(bus.regions, w)
    requires Spared(bus.Trans(), imgAt, len, w, g)
    modifies bus, bus.mem
    ensures bus.Valid()
    ensures Placed(bus.regions, bus.mem[..], err)
            == Place(old(bus.regions), old(bus.mem[..]), old(bus.mem[imgAt..imgAt + len]), imgAt, w, g)
    ensures Covered(bus.regions, w) && Keeps(old(bus.Trans()), bus.Trans(), w)
    ensures bus.mem[imgAt..imgAt + len] == old(bus.mem[imgAt..imgAt + len])
  {
    hide Translation, Table, CacheOk, PlaceMapped, PlaceCopied, Covered, Avoids, Keeps;
    KeepsSelf(bus.Trans(), w);
    if g.filesz > g.memsz {
      return Some(FileBeyondMem);
    }
    if g.offset + g.filesz > len {
      return Some(SegmentOutside);
    }
    var inRam := w.size != 0 && g.paddr >= w.base && g.paddr + g.memsz <= w.base + w.size;
    if g.paddr + (if w.size != 0 && !inRam then g.filesz else g.memsz) > TOP {
      return Some(PastTop);
    }
    if w.size != 0 && !inRam {
      err := MapSegment(bus, imgAt, len, w, g);
    } else {
      err := CopySegment(bus, imgAt, len, w, g);
    }
  }

  /** A failure is where the whole walk ends. */
  lemma {:induction false} FailureSticks(rs: seq<Region>, mem: seq<u8>, img: seq<u8>, imgAt: nat, w: Window, h: Header,
                                         i: nat, n: nat)
    requires Table(rs, |mem|) && Bounded(img, h) && i <= n <= h.count
    requires After(rs, mem, img, imgAt, w, h, i).failed.Some?
    ensures After(rs, mem, img, imgAt, w, h, n) == After(rs, mem, img, imgAt, w, h, i)
    decreases n - i
  {
    hide Table, Place, ReadSegment;
    if i < n {
      FailureSticks(rs, mem, img, imgAt, w, h, i + 1, n);
    }
  }

  lemma AfterNone(rs: seq<Region>, mem: seq<u8>, img: seq<u8>, imgAt: nat, w: Window, h: Header)
    requires Table(rs, |mem|) && Bounded(img, h)
    ensures After(rs, mem, img, imgAt, w, h, 0) == Placed(rs, mem, None)
  {
  }

  lemma AfterStep(rs: seq<Region>, mem: seq<u8>, img: seq<u8>, imgAt: nat, w: Window, h: Header, i: nat, p: Placed)
    requires Table(rs, |mem|) && Bounded(img, h) && i < h.count && p == After(rs, mem, img, imgAt, w, h, i) &&
             p.failed.None?
    ensures After(rs, mem, img, imgAt, w, h, i + 1)
            == if ReadSegment(img, h, i).kind != PT_LOAD then p
               else Place(p.regions, p.mem, img, imgAt, w, ReadSegment(img, h, i))
  {
    hide Place, ReadSegment;
  }

  /** How many of the first `n` headers are PT_LOAD. */
  function Loads(img: seq<u8>, h: Header, n: nat): (k: nat)
    requires Bounded(img, h) && n <= h.count
    ensures k <= n
  {
    if n == 0 then 0 else Loads(img, h, n - 1) + if ReadSegment(img, h, n - 1).kind == PT_LOAD then 1 else 0
  }

  /** What the whole walk reports: the error, or the entry point and machine. */
  datatype Report = Loaded(entry: u32, machine: u16) | Failed(error: Error)

  /**
   * The walk over every program header. Its error, memory and regions are exactly those of
   * placing the PT_LOAD segments in header order, and every byte it reads is in the image.
   */
  method Walk<D>(bus: Bus<D>, imgAt: nat, len: nat, machine: u16, alt: u16, w: Window) returns (rep: Report)
    requires bus.Valid() && imgAt + len <= bus.mem.Length
    requires Ready(bus.regions, bus.mem[imgAt..imgAt + len], imgAt, machine, alt, w)
    modifies bus, bus.mem
    ensures bus.Valid()
    ensures var img := old(bus.mem[imgAt..imgAt + len]); var h := ReadHeader(img, machine, alt);
            if h.0.None? then rep == Failed(h.1) && bus.regions == old(bus.regions) && bus.mem[..] == old(bus.mem[..])
            else
              var p := After(old(bus.regions), old(bus.mem[..]), img, imgAt, w, h.0.value, h.0.value.count);
              && bus.regions == p.regions && bus.mem[..] == p.mem
              && rep == if p.failed.Some? then Failed(p.failed.value)
                        else if Loads(img, h.0.value, h.0.value.count) == 0 then Failed(NothingToLoad)
                        else Loaded(h.0.value.entry, h.0.value.machine)
  {
    hide Translation, Table, CacheOk, Place, Covered, Spared, Keeps, After, ReadSegment, ReadHeader;
    ghost var rs, was := bus.regions, bus.mem[..];
    ghost var img := bus.mem[imgAt..imgAt + len];
    var head := ReadHeader(bus.mem[imgAt..imgAt + len], machine, alt);
    if head.0.None? {
      return Failed(head.1);
    }
    var h := head.0.value;
    var loaded := 0;
    AfterNone(rs, was, img, imgAt, w, h);
    for i := 0 to h.count
      invariant bus.Valid() && Covered(bus.regions, w) && Clear(bus.Trans(), img, imgAt, w, h)
      invariant bus.mem[imgAt..imgAt + len] == img
      invariant After(rs, was, img, imgAt, w, h, i) == Placed(bus.regions, bus.mem[..], None)
      invariant loaded == Loads(img, h, i)
    {
      AfterStep(rs, was, img, imgAt, w, h, i, Placed(bus.regions, bus.mem[..], None));
      var g := ReadSegment(bus.mem[imgAt..imgAt + len], h, i);
      if g.kind == PT_LOAD {
        ghost var t := bus.Trans();
        var err := PlaceSegment(bus, imgAt, len, w, g);
        KeepsClear(t, bus.Trans(), img, imgAt, w, h);
        if err.Some? {
          FailureSticks(rs, was, img, imgAt, w, h, i + 1, h.count);
          return Failed(err.value);
        }
        loaded := loaded + 1;
      }
    }
    if loaded == 0 {
      return Failed(NothingToLoad);
    }
    rep := Loaded(h.entry, h.machine);
  }
}
