/**
 * What a finished load means for the guest: its memory is the old memory with the segments
 * laid over it in header order, and a mapped segment reads back its file bytes.
 */
module ElfFacts {
  import opened Words
  import opened BusWalk
  import opened BusView
  import opened Bus
  import opened Elf

  /** A larger translation that changes nothing the smaller one says. */
  ghost predicate Extends(t: imap<int, nat>, u: imap<int, nat>) {
    forall a :: a in t ==> a in u && u[a] == t[a]
  }

  /** Adding a region the table accepts moves no address. */
  lemma GrowExtends(rs: seq<Region>, r: Region, cap: nat)
    requires Table(rs + [r], cap)
    ensures Extends(Translation(rs), Translation(rs + [r]))
    ensures Plain(r) ==> Linear(Translation(rs + [r]), r.base, r.size, r.host)
  {
    var grown := rs + [r];
    assert grown[|rs|] == r && grown[..|rs|] == rs;
    forall a | a in Translation(rs)
      ensures !Holds(r, a)
    {
      TranslatedBy(rs, a);
      var i :| 0 <= i < |rs| && Plain(rs[i]) && Holds(rs[i], a) && Translation(rs)[a] == HostOf(rs[i], a);
      assert grown[i] == rs[i];
      TableDisjoint(grown, cap, i, |rs|);
    }
  }

  /** Copies through two translations that agree on the range are the same. */
  lemma {:induction false} LoadAgrees(t: imap<int, nat>, u: imap<int, nat>, mem: seq<u8>, a: int, s: seq<u8>)
    requires Within(t, |mem|) && Within(u, |mem|) && Extends(t, u)
    requires forall x :: a <= x < a + |s| && x in u ==> x in t
    ensures LoadWalk(u, mem, a, s) == LoadWalk(t, mem, a, s)
    ensures BackedLen(u, a, |s|) == BackedLen(t, a, |s|)
    decreases |s|
  {
    if s != [] && a in t {
      LoadAgrees(t, u, mem[t[a] := s[0]], a + 1, s[1..]);
    }
  }

  lemma BackedSplit(t: imap<int, nat>, a: int, k: nat, n: nat)
    requires BackedLen(t, a, k) == k
    ensures BackedLen(t, a, k + n) == k + BackedLen(t, a + k, n)
  {
    BackedRun(t, a, k, k + n);
  }

  /** A copy and then zeros are one copy of both. */
  lemma LoadThenFill(t: imap<int, nat>, mem: seq<u8>, a: u32, s: seq<u8>, n: nat)
    requires Within(t, |mem|) && |s| < TOP && a + |s| + n <= TOP && BackedLen(t, a, |s|) == |s|
    ensures var f := Fill(t, LoadWalk(t, mem, a, s), Add32(a, |s|), n);
            && f.0 == LoadWalk(t, mem, a, s + Zeros(n))
            && (f.1 <==> BackedLen(t, a, |s| + n) == |s| + n)
  {
    assert n > 0 ==> Add32(a, |s|) == a + |s|;
    hide *;
    var mid := LoadWalk(t, mem, a, s);
    LoadWalkAppend(t, mem, a, s, Zeros(n));
    BackedSplit(t, a, |s|, n);
    if n == 0 {
      LoadStops(t, mid, a + |s|, Zeros(n));
      FillNone(t, mid, Add32(a, |s|));
    } else {
      FillIsLoad(t, mid, a + |s|, n);
    }
  }

  lemma CopyThenFill(t: imap<int, nat>, mem: seq<u8>, a: u32, s: seq<u8>, n: nat)
    requires Within(t, |mem|) && |s| < TOP && a + |s| + n <= TOP
    ensures var k, mid := BackedLen(t, a, |s|), LoadWalk(t, mem, a, s);
            var all := LoadWalk(t, mem, a, s + Zeros(n));
            if k < |s| then all == mid && BackedLen(t, a, |s| + n) < |s| + n
            else
              var f := Fill(t, mid, Add32(a, |s|), n);
              f.0 == all && (f.1 <==> BackedLen(t, a, |s| + n) == |s| + n)
  {
    hide *;
    if BackedLen(t, a, |s|) < |s| {
      LoadShort(t, mem, a, s, Zeros(n));
      assert |s + Zeros(n)| == |s| + n;
    } else {
      LoadThenFill(t, mem, a, s, n);
    }
  }

  /** A copied segment is one copy of its content, and it is placed exactly when all of it has memory. */
  lemma CopiedIsContent(rs: seq<Region>, mem: seq<u8>, img: seq<u8>, g: Segment)
    requires Table(rs, |mem|) && Within(Translation(rs), |mem|)
    requires g.filesz <= g.memsz && g.offset + g.filesz <= |img| && g.paddr + g.memsz <= TOP
    ensures var t := Translation(rs); var p := PlaceCopied(rs, mem, img, g);
            && p.mem == LoadWalk(t, mem, g.paddr, Content(img, g))
            && (p.failed.None? <==> BackedLen(t, g.paddr, g.memsz) == g.memsz)
  {
    hide Table, Translation, LoadWalk, BackedLen, Fill, Within, Zeros, Add32, Sound;
    var t, file, rem := Translation(rs), img[g.offset..g.offset + g.filesz], g.memsz - g.filesz;
    CopyThenFill(t, mem, g.paddr, file, rem);
    assert Content(img, g) == file + Zeros(rem);
    hide Content;
    var p, k := PlaceCopied(rs, mem, img, g), BackedLen(t, g.paddr, |file|);
    if k < |file| {
      assert p == Placed(rs, LoadWalk(t, mem, g.paddr, file), Some(SegmentDoesNotFit));
    } else {
      var f := Fill(t, LoadWalk(t, mem, g.paddr, file), Add32(g.paddr, g.filesz), rem);
      assert p.mem == f.0 && (p.failed.None? <==> f.1);
    }
    hide PlaceCopied;
  }

  // ---- emu_elf_load ----

  /** Every PT_LOAD passes its checks and lies in RAM or ROM from end to end. */
  ghost predicate AllFit(t: imap<int, nat>, img: seq<u8>, h: Header, n: nat)
    requires Bounded(img, h) && n <= h.count
  {
    forall i :: 0 <= i < n ==> Fits1(t, img, ReadSegment(img, h, i))
  }

  ghost predicate Fits1(t: imap<int, nat>, img: seq<u8>, g: Segment) {
    g.kind == PT_LOAD ==> Refusal(img, Window(0, 0), g).None? && BackedLen(t, g.paddr, g.memsz) == g.memsz
  }

  /** Guest memory with the PT_LOAD segments among the first `n` headers copied into it, in header order. */
  ghost function Overlaid(t: imap<int, nat>, view: imap<int, u8>, img: seq<u8>, w: Window, h: Header,
                          n: nat): imap<int, u8>
    requires Bounded(img, h) && n <= h.count
    decreases n
  {
    if n == 0 then view else OverlayOne(t, Overlaid(t, view, img, w, h, n - 1), img, w, ReadSegment(img, h, n - 1))
  }

  /** A copied segment covers its load address; of a mapped one only the .bss goes to memory, at its run address. */
  ghost function OverlayOne(t: imap<int, nat>, view: imap<int, u8>, img: seq<u8>, w: Window, g: Segment)
    : imap<int, u8>
  {
    if g.kind != PT_LOAD || Refusal(img, w, g).Some? then view else Laid(t, view, WrittenAt(w, g), Written(img, w, g))
  }

  /** What is written of a segment. */
  function Written(img: seq<u8>, w: Window, g: Segment): (s: seq<u8>)
    requires Refusal(img, w, g).None?
    ensures |s| == WrittenLen(w, g)
  {
    if IsMapped(w, g) then Zeros(g.memsz - g.filesz) else Content(img, g)
  }

  /**
   * emu_elf_load succeeds on the first `n` headers exactly when each of their segments fits, and
   * guest memory is then what copying their contents in header order makes it.
   */
  lemma {:induction false} LoadMeansOverlay(rs: seq<Region>, mem: seq<u8>, img: seq<u8>, imgAt: nat, h: Header, n: nat)
    requires Table(rs, |mem|) && Within(Translation(rs), |mem|) && Bounded(img, h) && n <= h.count
    ensures var t := Translation(rs); var p := After(rs, mem, img, imgAt, Window(0, 0), h, n);
            && p.regions == rs
            && (p.failed.None? <==> AllFit(t, img, h, n))
            && (p.failed.None? ==> View(t, p.mem) == Overlaid(t, View(t, mem), img, Window(0, 0), h, n))
    decreases n
  {
    hide Table, Translation, ReadSegment, PlaceCopied, PlaceMapped, BackedLen, LoadWalk, View, Laid, Within;
    var w := Window(0, 0);
    if n > 0 {
      LoadMeansOverlay(rs, mem, img, imgAt, h, n - 1);
      var t, g := Translation(rs), ReadSegment(img, h, n - 1);
      var p := After(rs, mem, img, imgAt, w, h, n - 1);
      assert AllFit(t, img, h, n) <==> AllFit(t, img, h, n - 1) && Fits1(t, img, g);
      if p.failed.None? && g.kind == PT_LOAD && Refusal(img, w, g).None? {
        CopiedIsContent(rs, p.mem, img, g);
        FullCopy(t, p.mem, g.paddr, Content(img, g));
      }
    }
  }

  /** A copy with memory behind all of it. */
  lemma FullCopy(t: imap<int, nat>, mem: seq<u8>, a: int, s: seq<u8>)
    requires Within(t, |mem|)
    ensures BackedLen(t, a, |s|) == |s| ==> View(t, LoadWalk(t, mem, a, s)) == Laid(t, View(t, mem), a, s)
  {
    LoadLays(t, mem, a, s);
    assert s[..|s|] == s;
    hide *;
  }

  // ---- where nothing is shared ----

  /** The plain overlay of the same segments: every byte outside them unchanged. */
  ghost function Plainly(view: imap<int, u8>, img: seq<u8>, w: Window, h: Header, n: nat): imap<int, u8>
    requires Bounded(img, h) && n <= h.count
    decreases n
  {
    if n == 0 then view
    else
      var before, g := Plainly(view, img, w, h, n - 1), ReadSegment(img, h, n - 1);
      if g.kind != PT_LOAD || Refusal(img, w, g).Some? then before
      else Overlay(before, WrittenAt(w, g), Written(img, w, g))
  }

  /** Every range the segments write has memory that no other address shares. */
  ghost predicate AllUnshared(t: imap<int, nat>, img: seq<u8>, w: Window, h: Header, n: nat)
    requires Bounded(img, h) && n <= h.count
  {
    forall i :: 0 <= i < n ==> Unshared1(t, img, w, ReadSegment(img, h, i))
  }

  ghost predicate Unshared1(t: imap<int, nat>, img: seq<u8>, w: Window, g: Segment) {
    g.kind == PT_LOAD && Refusal(img, w, g).None? ==>
      var a, k := WrittenAt(w, g), |Written(img, w, g)|;
      Unshared(t, a, k) && forall x :: a <= x < a + k ==> x in t
  }

  /** Then the load is the plain overlay. */
  lemma {:induction false} UnsharedPlainly(t: imap<int, nat>, view: imap<int, u8>, img: seq<u8>, w: Window, h: Header,
                                           n: nat)
    requires Bounded(img, h) && n <= h.count && AllUnshared(t, img, w, h, n) && forall x :: x in view <==> x in t
    ensures Overlaid(t, view, img, w, h, n) == Plainly(view, img, w, h, n)
    ensures forall x :: x in Overlaid(t, view, img, w, h, n) <==> x in t
    decreases n
  {
    hide ReadSegment, Unshared, Refusal, WrittenAt, Written, Laid;
    if n > 0 {
      UnsharedPlainly(t, view, img, w, h, n - 1);
      var before, g := Overlaid(t, view, img, w, h, n - 1), ReadSegment(img, h, n - 1);
      assert Unshared1(t, img, w, g);
      if g.kind == PT_LOAD && Refusal(img, w, g).None? {
        UnsharedLaid(t, before, WrittenAt(w, g), Written(img, w, g));
      }
    }
  }

  /** As they are in a table whose regions share no buffer, for segments that fit. */
  lemma NoAliasUnshared(rs: seq<Region>, cap: nat, img: seq<u8>, h: Header, n: nat)
    requires Table(rs, cap) && NoAlias(rs) && Bounded(img, h) && n <= h.count && AllFit(Translation(rs), img, h, n)
    ensures AllUnshared(Translation(rs), img, Window(0, 0), h, n)
  {
    var t := Translation(rs);
    NoAliasInjective(rs, cap);
    hide Translation, Table, NoAlias, ReadSegment, Injective, Unshared;
    forall i | 0 <= i < n
      ensures Unshared1(t, img, Window(0, 0), ReadSegment(img, h, i))
    {
      var g := ReadSegment(img, h, i);
      assert Fits1(t, img, g);
      InjectiveUnshared(t, g.paddr, g.memsz);
    }
  }

  // ---- emu_elf_map ----

  /** No address of the RAM window is translated that was not before. */
  ghost predicate SameWindow(t: imap<int, nat>, u: imap<int, nat>, w: Window) {
    forall a :: w.base <= a < w.base + w.size && a in u ==> a in t
  }

  lemma GrowOutsideWindow(rs: seq<Region>, r: Region, cap: nat, w: Window)
    requires Table(rs + [r], cap) && Covered(rs, w) && w.size != 0
    ensures Covered(rs + [r], w) && SameWindow(Translation(rs), Translation(rs + [r]), w)
  {
    hide Translation, Covered, Table;
    GrowKeeps(rs, r, cap, w);
  }

  /** Every mapped segment among the first `n` headers is behind its own file bytes. */
  ghost predicate MappedInPlace(u: imap<int, nat>, img: seq<u8>, imgAt: nat, w: Window, h: Header, n: nat)
    requires Bounded(img, h) && n <= h.count
  {
    forall i :: 0 <= i < n ==> InPlace(u, |img|, imgAt, w, ReadSegment(img, h, i))
  }

  ghost predicate InPlace(u: imap<int, nat>, len: nat, imgAt: nat, w: Window, g: Segment) {
    g.kind == PT_LOAD && IsMapped(w, g) ==> g.offset + g.filesz <= len && Linear(u, g.paddr, g.filesz, imgAt + g.offset)
  }

  /** What the walk keeps true of the table while it maps and copies. */
  ghost predicate Grown(t: imap<int, nat>, rs: seq<Region>, w: Window) {
    Covered(rs, w) && Extends(t, Translation(rs)) && SameWindow(t, Translation(rs), w)
  }

  lemma ExtendsInPlace(t: imap<int, nat>, u: imap<int, nat>, img: seq<u8>, imgAt: nat, w: Window, h: Header, n: nat)
    requires Bounded(img, h) && n <= h.count && Extends(t, u) && MappedInPlace(t, img, imgAt, w, h, n)
    ensures MappedInPlace(u, img, imgAt, w, h, n)
  {
    hide ReadSegment;
    forall i | 0 <= i < n
      ensures InPlace(u, |img|, imgAt, w, ReadSegment(img, h, i))
    {
      assert InPlace(t, |img|, imgAt, w, ReadSegment(img, h, i));
    }
  }

  /** A write inside the window goes where the first table says, whatever has been mapped since. */
  lemma WindowWrite(t: imap<int, nat>, rs: seq<Region>, mem: seq<u8>, w: Window, a: u32, s: seq<u8>)
    requires Table(rs, |mem|) && Grown(t, rs, w) && w.size != 0 && Inside(w, a, |s|)
    requires Within(t, |mem|) && Within(Translation(rs), |mem|)
    ensures a + |s| <= TOP
    ensures LoadWalk(Translation(rs), mem, a, s) == LoadWalk(t, mem, a, s)
    ensures BackedLen(Translation(rs), a, |s|) == BackedLen(t, a, |s|)
  {
    CoveredInside(rs, |mem|, w, a, |s|);
    LoadAgrees(t, Translation(rs), mem, a, s);
  }

  lemma GrowStep(t: imap<int, nat>, rs: seq<Region>, r: Region, cap: nat, w: Window)
    requires Table(rs + [r], cap) && Grown(t, rs, w) && w.size != 0 && Plain(r)
    ensures Grown(t, rs + [r], w) && Extends(Translation(rs), Translation(rs + [r]))
    ensures Linear(Translation(rs + [r]), r.base, r.size, r.host)
  {
    hide Table, Translation, Covered, Linear;
    GrowExtends(rs, r, cap);
    GrowOutsideWindow(rs, r, cap, w);
  }

  lemma ExtendsSelf(t: imap<int, nat>, a: int, p: nat)
    ensures Extends(t, t) && Linear(t, a, 0, p)
  {
  }

  function MappedTable(rs: seq<Region>, imgAt: nat, g: Segment): seq<Region> {
    if g.filesz != 0 then rs + [RomOf(imgAt, g)] else rs
  }

  /** What a mapped segment that did not fail comes to. */
  lemma MappedShape(rs: seq<Region>, mem: seq<u8>, imgAt: nat, w: Window, g: Segment)
    requires Table(rs, |mem|) && g.filesz <= g.memsz && PlaceMapped(rs, mem, imgAt, w, g).failed.None?
    ensures var p, bss, rem := PlaceMapped(rs, mem, imgAt, w, g), Add32(g.vaddr, g.filesz), g.memsz - g.filesz;
            && p.regions == MappedTable(rs, imgAt, g)
            && Table(p.regions, |mem|) && Within(Translation(p.regions), |mem|)
            && (if rem == 0 then p.mem == mem
                else Inside(w, bss, rem) && Fill(Translation(p.regions), mem, bss, rem) == (p.mem, true))
  {
    hide Table, Translation, Fill, Within, RomOf, Add32;
  }

  /** One mapped segment: a ROM region over its file bytes, */
  lemma MappedGrows(t: imap<int, nat>, rs: seq<Region>, cap: nat, imgAt: nat, w: Window, g: Segment)
    requires Table(MappedTable(rs, imgAt, g), cap) && Grown(t, rs, w) && w.size != 0
    ensures Grown(t, MappedTable(rs, imgAt, g), w)
    ensures Extends(Translation(rs), Translation(MappedTable(rs, imgAt, g)))
    ensures Linear(Translation(MappedTable(rs, imgAt, g)), g.paddr, g.filesz, imgAt + g.offset)
  {
    hide Table, Translation, Extends, Linear, Grown;
    if g.filesz != 0 {
      GrowStep(t, rs, RomOf(imgAt, g), cap, w);
    } else {
      ExtendsSelf(Translation(rs), g.paddr, imgAt + g.offset);
    }
  }

  /** zeros in the window, which go where the first table says, */
  lemma MappedZeros(t: imap<int, nat>, rs: seq<Region>, mem: seq<u8>, w: Window, a: u32, n: nat)
    requires Table(rs, |mem|) && Grown(t, rs, w) && w.size != 0 && Within(t, |mem|) && Inside(w, a, n)
    requires Within(Translation(rs), |mem|) && Fill(Translation(rs), mem, a, n).1
    ensures Fill(Translation(rs), mem, a, n).0 == LoadWalk(t, mem, a, Zeros(n)) && BackedLen(t, a, n) == n
  {
    hide Table, Translation, LoadWalk, BackedLen, Fill, Grown, Within, Zeros;
    WindowWrite(t, rs, mem, w, a, Zeros(n));
    FillIsLoad(Translation(rs), mem, a, n);
  }

  /** and nothing else. */
  lemma MappedStep(t: imap<int, nat>, rs: seq<Region>, mem: seq<u8>, imgAt: nat, w: Window, g: Segment)
    requires Table(rs, |mem|) && Grown(t, rs, w) && w.size != 0 && Within(t, |mem|) && g.filesz <= g.memsz
    requires PlaceMapped(rs, mem, imgAt, w, g).failed.None?
    ensures var p, grown := PlaceMapped(rs, mem, imgAt, w, g), MappedTable(rs, imgAt, g);
            && p.regions == grown && Grown(t, grown, w) && Extends(Translation(rs), Translation(grown))
            && Linear(Translation(grown), g.paddr, g.filesz, imgAt + g.offset)
            && p.mem == (if g.memsz == g.filesz then mem
                         else LoadWalk(t, mem, Add32(g.vaddr, g.filesz), Zeros(g.memsz - g.filesz)))
            && (g.memsz > g.filesz ==>
                  Inside(w, Add32(g.vaddr, g.filesz), g.memsz - g.filesz) &&
                  BackedLen(t, Add32(g.vaddr, g.filesz), g.memsz - g.filesz) == g.memsz - g.filesz)
  {
    hide Table, Translation, PlaceMapped, LoadWalk, BackedLen, Fill, Extends, Linear, Grown, Within, MappedTable, Zeros;
    MappedShape(rs, mem, imgAt, w, g);
    MappedGrows(t, rs, |mem|, imgAt, w, g);
    if g.memsz > g.filesz {
      MappedZeros(t, MappedTable(rs, imgAt, g), mem, w, Add32(g.vaddr, g.filesz), g.memsz - g.filesz);
    }
  }

  /** One segment inside RAM: its content in the window. */
  lemma CopiedStep(t: imap<int, nat>, rs: seq<Region>, mem: seq<u8>, img: seq<u8>, w: Window, g: Segment)
    requires Table(rs, |mem|) && Grown(t, rs, w) && w.size != 0 && Within(t, |mem|)
    requires InRam(w, g) && Refusal(img, w, g).None? && PlaceCopied(rs, mem, img, g).failed.None?
    ensures PlaceCopied(rs, mem, img, g).mem == LoadWalk(t, mem, g.paddr, Content(img, g))
    ensures BackedLen(t, g.paddr, g.memsz) == g.memsz
  {
    hide Table, Translation, LoadWalk, BackedLen, Fill, Covered, PlaceCopied;
    TranslationWithin(rs, |mem|);
    CopiedIsContent(rs, mem, img, g);
    WindowWrite(t, rs, mem, w, g.paddr, Content(img, g));
  }

  // ---- which images map ----

  /**
   * A mapped segment's file bytes can be added to the table, and its .bss has window memory; a copied one has memory.
   */
  ghost predicate MapFits1(t: imap<int, nat>, rs: seq<Region>, cap: nat, img: seq<u8>, imgAt: nat, w: Window,
                           g: Segment) {
    && Refusal(img, w, g).None?
    && (IsMapped(w, g) && g.filesz != 0 ==> Table(rs + [RomOf(imgAt, g)], cap))
    && (|Written(img, w, g)| != 0 ==>
          Inside(w, WrittenAt(w, g), |Written(img, w, g)|) &&
          BackedLen(t, WrittenAt(w, g), |Written(img, w, g)|) == |Written(img, w, g)|)
  }

  /** The table with the mapped segments among the first `n` headers added. */
  ghost function TableAfter(rs: seq<Region>, img: seq<u8>, imgAt: nat, w: Window, h: Header, n: nat): seq<Region>
    requires Bounded(img, h) && n <= h.count
    decreases n
  {
    if n == 0 then rs
    else
      var before, g := TableAfter(rs, img, imgAt, w, h, n - 1), ReadSegment(img, h, n - 1);
      if g.kind == PT_LOAD && IsMapped(w, g) && g.filesz != 0 then before + [RomOf(imgAt, g)] else before
  }

  /** Every PT_LOAD among the first `n` headers fits the table as those before it have grown it. */
  ghost predicate MapFits(rs: seq<Region>, cap: nat, img: seq<u8>, imgAt: nat, w: Window, h: Header, n: nat)
    requires Bounded(img, h) && n <= h.count
    decreases n
  {
    n == 0 || (
      && MapFits(rs, cap, img, imgAt, w, h, n - 1)
      && (ReadSegment(img, h, n - 1).kind == PT_LOAD ==>
            MapFits1(Translation(rs), TableAfter(rs, img, imgAt, w, h, n - 1), cap, img, imgAt, w,
                     ReadSegment(img, h, n - 1))))
  }

  lemma MappedDecides(t: imap<int, nat>, rs: seq<Region>, mem: seq<u8>, img: seq<u8>, imgAt: nat, w: Window, g: Segment)
    requires Table(rs, |mem|) && Grown(t, rs, w) && w.size != 0 && Within(t, |mem|)
    requires Refusal(img, w, g).None? && IsMapped(w, g)
    ensures var p := PlaceMapped(rs, mem, imgAt, w, g);
            && (p.failed.None? <==> MapFits1(t, rs, |mem|, img, imgAt, w, g))
            && (p.failed.None? ==> p.regions == if g.filesz != 0 then rs + [RomOf(imgAt, g)] else rs)
  {
    hide Table, Translation, LoadWalk, BackedLen, Fill, Covered, Extends, Linear, Grown, Within;
    var r := RomOf(imgAt, g);
    if g.filesz != 0 && Table(rs + [r], |mem|) {
      GrowStep(t, rs, r, |mem|, w);
    }
    if g.filesz == 0 || Table(rs + [r], |mem|) {
      var grown := if g.filesz != 0 then rs + [r] else rs;
      var bss, rem := Add32(g.vaddr, g.filesz), g.memsz - g.filesz;
      TranslationWithin(grown, |mem|);
      if rem != 0 && Inside(w, bss, rem) {
        WindowWrite(t, grown, mem, w, bss, Zeros(rem));
        FillIsLoad(Translation(grown), mem, bss, rem);
      }
    }
  }

  lemma CopiedDecides(t: imap<int, nat>, rs: seq<Region>, mem: seq<u8>, img: seq<u8>, imgAt: nat, w: Window, g: Segment)
    requires Table(rs, |mem|) && Grown(t, rs, w) && w.size != 0 && Within(t, |mem|)
    requires Refusal(img, w, g).None? && InRam(w, g)
    ensures PlaceCopied(rs, mem, img, g).failed.None? <==> MapFits1(t, rs, |mem|, img, imgAt, w, g)
  {
    TranslationWithin(rs, |mem|);
    CopiedIsContent(rs, mem, img, g);
    WindowWrite(t, rs, mem, w, g.paddr, Content(img, g));
    BackedNone(t, g.paddr);
    hide Table, Translation, LoadWalk, BackedLen, Covered, PlaceCopied, Grown;
  }

  lemma BackedNone(t: imap<int, nat>, a: int)
    ensures BackedLen(t, a, 0) == 0
  {
  }

  /** Whether a segment can be placed is decided by the file and the table. */
  lemma PlaceDecides(t: imap<int, nat>, rs: seq<Region>, mem: seq<u8>, img: seq<u8>, imgAt: nat, w: Window, g: Segment)
    requires Table(rs, |mem|) && Grown(t, rs, w) && w.size != 0 && Within(t, |mem|)
    ensures var p := Place(rs, mem, img, imgAt, w, g);
            && (p.failed.None? <==> MapFits1(t, rs, |mem|, img, imgAt, w, g))
            && (p.failed.None? ==> p.regions == if IsMapped(w, g) && g.filesz != 0 then rs + [RomOf(imgAt, g)] else rs)
  {
    hide Table, Translation, PlaceMapped, PlaceCopied, Grown, BackedLen, Within;
    if Refusal(img, w, g).None? {
      if IsMapped(w, g) {
        MappedDecides(t, rs, mem, img, imgAt, w, g);
      } else {
        CopiedDecides(t, rs, mem, img, imgAt, w, g);
      }
    }
  }

  // ---- what mapping makes of memory ----

  /** A full copy that avoids the image leaves it alone. */
  lemma WindowLays(t: imap<int, nat>, mem: seq<u8>, a: int, s: seq<u8>, imgAt: nat, len: nat)
    requires Within(t, |mem|) && Avoids(t, a, |s|, imgAt, len) && imgAt + len <= |mem|
    requires BackedLen(t, a, |s|) == |s|
    ensures View(t, LoadWalk(t, mem, a, s)) == Laid(t, View(t, mem), a, s)
    ensures LoadWalk(t, mem, a, s)[imgAt..imgAt + len] == mem[imgAt..imgAt + len]
  {
    FullCopy(t, mem, a, s);
    LoadKeepsImage(t, mem, a, s, imgAt, len);
    hide *;
  }

  /** The walk's own invariant for one more header. */
  ghost predicate MapInv(t: imap<int, nat>, mem: seq<u8>, p: Placed, img: seq<u8>, imgAt: nat, w: Window, h: Header,
                         n: nat)
    requires Bounded(img, h) && n <= h.count && Within(t, |mem|) && |p.mem| == |mem| && imgAt + |img| <= |mem|
  {
    && Grown(t, p.regions, w)
    && MappedInPlace(Translation(p.regions), img, imgAt, w, h, n)
    && View(t, p.mem) == Overlaid(t, View(t, mem), img, w, h, n)
    && p.mem[imgAt..imgAt + |img|] == img
  }

  lemma InPlaceMore(u: imap<int, nat>, img: seq<u8>, imgAt: nat, w: Window, h: Header, n: nat)
    requires Bounded(img, h) && n < h.count
    requires MappedInPlace(u, img, imgAt, w, h, n) && InPlace(u, |img|, imgAt, w, ReadSegment(img, h, n))
    ensures MappedInPlace(u, img, imgAt, w, h, n + 1)
  {
    hide InPlace, ReadSegment;
  }

  lemma MapInvMapped(t: imap<int, nat>, mem: seq<u8>, p: Placed, img: seq<u8>, imgAt: nat, w: Window, h: Header,
                     n: nat, g: Segment)
    requires Bounded(img, h) && n < h.count && Within(t, |mem|) && |p.mem| == |mem| && imgAt + |img| <= |mem|
    requires w.size != 0 && Spared(t, imgAt, |img|, w, g)
    requires Table(p.regions, |mem|) && MapInv(t, mem, p, img, imgAt, w, h, n)
    requires g == ReadSegment(img, h, n) && g.kind == PT_LOAD && Refusal(img, w, g).None? && IsMapped(w, g)
    requires PlaceMapped(p.regions, p.mem, imgAt, w, g).failed.None?
    ensures MapInv(t, mem, PlaceMapped(p.regions, p.mem, imgAt, w, g), img, imgAt, w, h, n + 1)
  {
    hide Table, Translation, LoadWalk, BackedLen, ReadSegment, PlaceMapped, Avoids, View, Laid, Grown, Extends,
         Linear, Within, MappedInPlace;
    var q := PlaceMapped(p.regions, p.mem, imgAt, w, g);
    MappedStep(t, p.regions, p.mem, imgAt, w, g);
    ExtendsInPlace(Translation(p.regions), Translation(q.regions), img, imgAt, w, h, n);
    InPlaceMore(Translation(q.regions), img, imgAt, w, h, n);
    if g.memsz > g.filesz {
      WindowLays(t, p.mem, Add32(g.vaddr, g.filesz), Zeros(g.memsz - g.filesz), imgAt, |img|);
    } else {
      assert Zeros(g.memsz - g.filesz) == [];
      LaidNone(t, p.mem, Add32(g.vaddr, g.filesz));
    }
  }

  lemma MapInvCopied(t: imap<int, nat>, mem: seq<u8>, p: Placed, img: seq<u8>, imgAt: nat, w: Window, h: Header,
                     n: nat, g: Segment)
    requires Bounded(img, h) && n < h.count && Within(t, |mem|) && |p.mem| == |mem| && imgAt + |img| <= |mem|
    requires w.size != 0 && Spared(t, imgAt, |img|, w, g)
    requires Table(p.regions, |mem|) && MapInv(t, mem, p, img, imgAt, w, h, n)
    requires g == ReadSegment(img, h, n) && g.kind == PT_LOAD && Refusal(img, w, g).None? && InRam(w, g)
    requires PlaceCopied(p.regions, p.mem, img, g).failed.None?
    ensures MapInv(t, mem, PlaceCopied(p.regions, p.mem, img, g), img, imgAt, w, h, n + 1)
  {
    hide Table, Translation, LoadWalk, BackedLen, ReadSegment, PlaceCopied, Avoids, View, Laid, Grown, Linear, Within,
         MappedInPlace;
    CopiedStep(t, p.regions, p.mem, img, w, g);
    InPlaceMore(Translation(p.regions), img, imgAt, w, h, n);
    WindowLays(t, p.mem, g.paddr, Content(img, g), imgAt, |img|);
  }

  /** One more PT_LOAD keeps the invariant. */
  lemma MapInvStep(t: imap<int, nat>, mem: seq<u8>, p: Placed, img: seq<u8>, imgAt: nat, w: Window, h: Header, n: nat)
    requires Bounded(img, h) && n < h.count && Within(t, |mem|) && |p.mem| == |mem| && imgAt + |img| <= |mem|
    requires w.size != 0 && Clear(t, img, imgAt, w, h)
    requires Table(p.regions, |mem|) && MapInv(t, mem, p, img, imgAt, w, h, n)
    requires ReadSegment(img, h, n).kind == PT_LOAD
    requires Place(p.regions, p.mem, img, imgAt, w, ReadSegment(img, h, n)).failed.None?
    ensures MapInv(t, mem, Place(p.regions, p.mem, img, imgAt, w, ReadSegment(img, h, n)), img, imgAt, w, h, n + 1)
  {
    hide Table, Translation, ReadSegment, PlaceCopied, PlaceMapped, Spared, MapInv, Within;
    var g := ReadSegment(img, h, n);
    if IsMapped(w, g) {
      MapInvMapped(t, mem, p, img, imgAt, w, h, n, g);
    } else {
      MapInvCopied(t, mem, p, img, imgAt, w, h, n, g);
    }
  }

  lemma MapInvSkip(t: imap<int, nat>, mem: seq<u8>, p: Placed, img: seq<u8>, imgAt: nat, w: Window, h: Header, n: nat)
    requires Bounded(img, h) && n < h.count && Within(t, |mem|) && |p.mem| == |mem| && imgAt + |img| <= |mem|
    requires MapInv(t, mem, p, img, imgAt, w, h, n) && ReadSegment(img, h, n).kind != PT_LOAD
    ensures MapInv(t, mem, p, img, imgAt, w, h, n + 1)
  {
    hide ReadSegment, View, Laid, Grown, MappedInPlace, Translation;
    InPlaceMore(Translation(p.regions), img, imgAt, w, h, n);
  }

  /** The image is where it is said to be. */
  predicate ImageAt(mem: seq<u8>, imgAt: nat, img: seq<u8>) {
    imgAt + |img| <= |mem| && mem[imgAt..imgAt + |img|] == img
  }

  /**
   * emu_elf_map succeeds on the first `n` headers exactly when each of their segments fits. Memory
   * that was there before is then what copying the segments inside RAM and the .bss of the others
   * in header order makes it, and every mapped segment lies in its file bytes.
   */
  ghost predicate MapsUpto(rs: seq<Region>, mem: seq<u8>, img: seq<u8>, imgAt: nat, w: Window, h: Header, n: nat)
    requires Table(rs, |mem|) && Within(Translation(rs), |mem|) && imgAt + |img| <= |mem| && Bounded(img, h) &&
             n <= h.count
  {
    var p := After(rs, mem, img, imgAt, w, h, n);
    && (p.failed.None? <==> MapFits(rs, |mem|, img, imgAt, w, h, n))
    && (p.failed.None? ==>
          && p.regions == TableAfter(rs, img, imgAt, w, h, n)
          && MapInv(Translation(rs), mem, p, img, imgAt, w, h, n))
  }

  lemma MapsOneMore(rs: seq<Region>, mem: seq<u8>, img: seq<u8>, imgAt: nat, w: Window, h: Header, n: nat)
    requires Table(rs, |mem|) && Within(Translation(rs), |mem|) && ImageAt(mem, imgAt, img)
    requires w.size != 0 && Covered(rs, w) && Bounded(img, h) && Clear(Translation(rs), img, imgAt, w, h) && n < h.count
    requires MapsUpto(rs, mem, img, imgAt, w, h, n) && After(rs, mem, img, imgAt, w, h, n).failed.None?
    ensures MapsUpto(rs, mem, img, imgAt, w, h, n + 1)
  {
    var p, g := After(rs, mem, img, imgAt, w, h, n), ReadSegment(img, h, n);
    AfterStep(rs, mem, img, imgAt, w, h, n, p);
    hide Table, Translation, Covered, ReadSegment, Place, Clear, MapInv, MapFits1, Within, After;
    if g.kind == PT_LOAD {
      MapInvGrown(Translation(rs), mem, p, img, imgAt, w, h, n);
      PlaceDecides(Translation(rs), p.regions, p.mem, img, imgAt, w, g);
      if Place(p.regions, p.mem, img, imgAt, w, g).failed.None? {
        MapInvStep(Translation(rs), mem, p, img, imgAt, w, h, n);
      }
    } else {
      MapInvSkip(Translation(rs), mem, p, img, imgAt, w, h, n);
    }
  }

  lemma MapsNone(rs: seq<Region>, mem: seq<u8>, img: seq<u8>, imgAt: nat, w: Window, h: Header)
    requires Table(rs, |mem|) && Within(Translation(rs), |mem|) && ImageAt(mem, imgAt, img) && Covered(rs, w) &&
             Bounded(img, h)
    ensures MapsUpto(rs, mem, img, imgAt, w, h, 0)
  {
    hide Table, Translation, MapInv, Within, After, Covered;
    AfterNone(rs, mem, img, imgAt, w, h);
    MapInvNone(rs, mem, img, imgAt, w, h);
  }

  lemma MapsFailed(rs: seq<Region>, mem: seq<u8>, img: seq<u8>, imgAt: nat, w: Window, h: Header, n: nat)
    requires Table(rs, |mem|) && Within(Translation(rs), |mem|) && imgAt + |img| <= |mem| && Bounded(img, h) &&
             n < h.count
    requires MapsUpto(rs, mem, img, imgAt, w, h, n) && After(rs, mem, img, imgAt, w, h, n).failed.Some?
    ensures MapsUpto(rs, mem, img, imgAt, w, h, n + 1)
  {
    FailureSticks(rs, mem, img, imgAt, w, h, n, n + 1);
    hide Table, Translation, MapInv, Within, After, MapFits1, TableAfter;
  }

  lemma {:induction false} MapMeansOverlay(rs: seq<Region>, mem: seq<u8>, img: seq<u8>, imgAt: nat, w: Window,
                                           h: Header, n: nat)
    requires Table(rs, |mem|) && Within(Translation(rs), |mem|) && ImageAt(mem, imgAt, img)
    requires w.size != 0 && Covered(rs, w) && Bounded(img, h) && Clear(Translation(rs), img, imgAt, w, h)
    requires n <= h.count
    ensures MapsUpto(rs, mem, img, imgAt, w, h, n)
    decreases n
  {
    hide Table, Translation, Covered, Clear, Within, MapsUpto, After, Bounded;
    if n == 0 {
      MapsNone(rs, mem, img, imgAt, w, h);
    } else {
      MapMeansOverlay(rs, mem, img, imgAt, w, h, n - 1);
      if After(rs, mem, img, imgAt, w, h, n - 1).failed.None? {
        MapsOneMore(rs, mem, img, imgAt, w, h, n - 1);
      } else {
        MapsFailed(rs, mem, img, imgAt, w, h, n - 1);
      }
    }
  }

  lemma MapInvNone(rs: seq<Region>, mem: seq<u8>, img: seq<u8>, imgAt: nat, w: Window, h: Header)
    requires Within(Translation(rs), |mem|) && ImageAt(mem, imgAt, img) && Covered(rs, w) && Bounded(img, h)
    ensures MapInv(Translation(rs), mem, Placed(rs, mem, None), img, imgAt, w, h, 0)
  {
    hide Translation, View, Laid, Covered;
  }

  lemma MapInvGrown(t: imap<int, nat>, mem: seq<u8>, p: Placed, img: seq<u8>, imgAt: nat, w: Window, h: Header, n: nat)
    requires Bounded(img, h) && n <= h.count && Within(t, |mem|) && |p.mem| == |mem| && imgAt + |img| <= |mem|
    requires MapInv(t, mem, p, img, imgAt, w, h, n)
    ensures Grown(t, p.regions, w)
  {
  }

  lemma LinearReads(u: imap<int, nat>, mem: seq<u8>, a: int, n: nat, imgAt: nat, img: seq<u8>, off: nat)
    requires Within(u, |mem|) && Linear(u, a, n, imgAt + off) && off + n <= |img| && ImageAt(mem, imgAt, img)
    ensures Reads(u, mem, a, img[off..off + n])
  {
    forall x | a <= x < a + n
      ensures x in u && mem[u[x]] == img[off..off + n][x - a]
    {
      assert mem[imgAt..imgAt + |img|][off + (x - a)] == img[off + (x - a)];
    }
  }

  /** Every mapped segment among the first `n` headers reads back exactly its bytes of the file. */
  ghost predicate ReadBack(u: imap<int, nat>, mem: seq<u8>, img: seq<u8>, w: Window, h: Header, n: nat)
    requires Bounded(img, h) && n <= h.count
  {
    forall i :: 0 <= i < n ==> ReadBack1(u, mem, img, w, ReadSegment(img, h, i))
  }

  ghost predicate ReadBack1(u: imap<int, nat>, mem: seq<u8>, img: seq<u8>, w: Window, g: Segment) {
    g.kind == PT_LOAD && IsMapped(w, g) ==>
      g.offset + g.filesz <= |img| && Reads(u, mem, g.paddr, img[g.offset..g.offset + g.filesz])
  }

  /** As they do after a successful emu_elf_map. */
  lemma MappedReadsFile(u: imap<int, nat>, mem: seq<u8>, img: seq<u8>, imgAt: nat, w: Window, h: Header, n: nat)
    requires Bounded(img, h) && n <= h.count && Within(u, |mem|) && ImageAt(mem, imgAt, img)
    requires MappedInPlace(u, img, imgAt, w, h, n)
    ensures ReadBack(u, mem, img, w, h, n)
  {
    hide ReadSegment, Reads, Linear, Within, ImageAt;
    forall i | 0 <= i < n
      ensures ReadBack1(u, mem, img, w, ReadSegment(img, h, i))
    {
      var g := ReadSegment(img, h, i);
      assert InPlace(u, |img|, imgAt, w, g);
      if g.kind == PT_LOAD && IsMapped(w, g) {
        LinearReads(u, mem, g.paddr, g.filesz, imgAt, img, g.offset);
      }
    }
  }

  // ---- the two entry points ----

  /** The header the loader accepts, and every PT_LOAD of it fits. */
  ghost predicate Loadable(t: imap<int, nat>, img: seq<u8>, machine: u16, alt: u16) {
    var h := ReadHeader(img, machine, alt).0;
    h.Some? && AllFit(t, img, h.value, h.value.count) && Loads(img, h.value, h.value.count) != 0
  }

  /**
   * emu_elf_load: success is decided by the file and the table alone. Memory is then what copying
   * the segments makes it, and the plain overlay of them where they share no memory.
   */
  method LoadElf<D>(bus: Bus<D>, imgAt: nat, len: nat, machine: u16, alt: u16) returns (rep: Report)
    requires bus.Valid() && imgAt + len <= bus.mem.Length
    requires Ready(bus.regions, bus.mem[imgAt..imgAt + len], imgAt, machine, alt, Window(0, 0))
    modifies bus, bus.mem
    ensures bus.Valid() && bus.regions == old(bus.regions)
    ensures rep.Loaded? <==> Loadable(bus.Trans(), old(bus.mem[imgAt..imgAt + len]), machine, alt)
    ensures rep.Loaded? ==>
              var img := old(bus.mem[imgAt..imgAt + len]); var h := ReadHeader(img, machine, alt).0.value;
              var t, was := bus.Trans(), View(bus.Trans(), old(bus.mem[..]));
              && rep == Loaded(h.entry, h.machine)
              && View(t, bus.mem[..]) == Overlaid(t, was, img, Window(0, 0), h, h.count)
              && (AllUnshared(t, img, Window(0, 0), h, h.count) ==>
                    View(t, bus.mem[..]) == Plainly(was, img, Window(0, 0), h, h.count))
  {
    hide Table, Translation, CacheOk, Clear, After, ReadHeader, Loads, Overlaid, AllFit, View, AllUnshared, Plainly;
    ghost var rs, was, img := bus.regions, bus.mem[..], bus.mem[imgAt..imgAt + len];
    TranslationWithin(rs, bus.mem.Length);
    rep := Walk(bus, imgAt, len, machine, alt, Window(0, 0));
    ghost var h := ReadHeader(img, machine, alt).0;
    if h.Some? {
      LoadMeansOverlay(rs, was, img, imgAt, h.value, h.value.count);
      PlainlyWhere(Translation(rs), was, img, Window(0, 0), h.value, h.value.count);
    }
  }

  lemma PlainlyWhere(t: imap<int, nat>, mem: seq<u8>, img: seq<u8>, w: Window, h: Header, n: nat)
    requires Within(t, |mem|) && Bounded(img, h) && n <= h.count
    ensures AllUnshared(t, img, w, h, n) ==>
              Overlaid(t, View(t, mem), img, w, h, n) == Plainly(View(t, mem), img, w, h, n)
  {
    if AllUnshared(t, img, w, h, n) {
      UnsharedPlainly(t, View(t, mem), img, w, h, n);
    }
  }

  /** The header the loader accepts, and every PT_LOAD of it fits where it is copied or can be mapped. */
  ghost predicate Mappable(rs: seq<Region>, cap: nat, img: seq<u8>, imgAt: nat, machine: u16, alt: u16, w: Window) {
    var h := ReadHeader(img, machine, alt).0;
    && w.size != 0 && h.Some? && MapFits(rs, cap, img, imgAt, w, h.value, h.value.count)
    && Loads(img, h.value, h.value.count) != 0
  }

  /**
   * emu_elf_map: success is decided by the file and the table alone. Memory that was there before is
   * then what copying makes it, and every mapped segment reads back its bytes of the file.
   */
  method MapElf<D>(bus: Bus<D>, imgAt: nat, len: nat, machine: u16, alt: u16, w: Window) returns (rep: Report)
    requires bus.Valid() && imgAt + len <= bus.mem.Length
    requires Ready(bus.regions, bus.mem[imgAt..imgAt + len], imgAt, machine, alt, w)
    modifies bus, bus.mem
    ensures bus.Valid()
    ensures w.size == 0 ==>
              rep == Failed(NeedsWindow) && bus.regions == old(bus.regions) && bus.mem[..] == old(bus.mem[..])
    ensures rep.Loaded? <==>
            Mappable(old(bus.regions), bus.mem.Length, old(bus.mem[imgAt..imgAt + len]), imgAt, machine, alt, w)
    ensures rep.Loaded? ==>
              var img := old(bus.mem[imgAt..imgAt + len]); var h := ReadHeader(img, machine, alt).0.value;
              var t, was := old(bus.Trans()), View(old(bus.Trans()), old(bus.mem[..]));
              && rep == Loaded(h.entry, h.machine)
              && bus.regions == TableAfter(old(bus.regions), img, imgAt, w, h, h.count)
              && View(t, bus.mem[..]) == Overlaid(t, was, img, w, h, h.count)
              && (AllUnshared(t, img, w, h, h.count) ==> View(t, bus.mem[..]) == Plainly(was, img, w, h, h.count))
              && ReadBack(bus.Trans(), bus.mem[..], img, w, h, h.count)
  {
    hide Table, Translation, CacheOk, Clear, Covered, After, ReadHeader, Loads, Overlaid, View, MapFits, TableAfter,
         AllUnshared, Plainly, ReadBack, MapInv;
    if w.size == 0 {
      return Failed(NeedsWindow);
    }
    ghost var rs, was, img := bus.regions, bus.mem[..], bus.mem[imgAt..imgAt + len];
    TranslationWithin(rs, bus.mem.Length);
    rep := Walk(bus, imgAt, len, machine, alt, w);
    ghost var h := ReadHeader(img, machine, alt).0;
    assert ImageAt(was, imgAt, img);
    if h.Some? {
      MapMeansOverlay(rs, was, img, imgAt, w, h.value, h.value.count);
      PlainlyWhere(Translation(rs), was, img, w, h.value, h.value.count);
      if rep.Loaded? {
        TranslationWithin(bus.regions, bus.mem.Length);
        MapInvMeans(rs, was, Placed(bus.regions, bus.mem[..], None), img, imgAt, w, h.value, h.value.count);
      }
    }
  }

  lemma MapInvMeans(rs: seq<Region>, mem: seq<u8>, p: Placed, img: seq<u8>, imgAt: nat, w: Window, h: Header, n: nat)
    requires Bounded(img, h) && n <= h.count && Within(Translation(rs), |mem|) && |p.mem| == |mem| &&
             imgAt + |img| <= |mem|
    requires MapInv(Translation(rs), mem, p, img, imgAt, w, h, n) && Within(Translation(p.regions), |p.mem|)
    ensures View(Translation(rs), p.mem) == Overlaid(Translation(rs), View(Translation(rs), mem), img, w, h, n)
    ensures ReadBack(Translation(p.regions), p.mem, img, w, h, n)
  {
    hide Translation, View, Overlaid, ReadBack, Grown, MappedInPlace, Within;
    MappedReadsFile(Translation(p.regions), p.mem, img, imgAt, w, h, n);
  }
}
