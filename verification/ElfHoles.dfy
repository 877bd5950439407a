/**
 * What emu_elf_map does when the RAM window is not all spoken for, or runs past the address space: a
 * segment is mapped into it and zeroed through, image and all, or the zeroing goes on at address 0.
 */
module ElfHoles {
  import opened Words
  import opened BusWalk
  import opened BusView
  import opened Elf

  /** Zeroing only zeroes. */
  lemma {:induction false} WalkZeroes(t: imap<int, nat>, mem: seq<u8>, a: int, n: nat, p: nat)
    requires Within(t, |mem|) && p < |mem| && (mem[p] == 0 || (n > 0 && a in t && t[a] == p))
    ensures LoadWalk(t, mem, a, Zeros(n))[p] == 0
    decreases n
  {
    if n > 0 && a in t {
      assert Zeros(n)[1..] == Zeros(n - 1) && Zeros(n)[0] == 0;
      WalkZeroes(t, mem[t[a] := 0], a + 1, n - 1, p);
    }
  }

  lemma {:induction false} FillZeroes(t: imap<int, nat>, mem: seq<u8>, a: u32, rem: nat, p: nat)
    requires Within(t, |mem|) && p < |mem|
    requires mem[p] == 0 || (rem > 0 && a + rem <= TOP && a in t && t[a] == p)
    ensures Fill(t, mem, a, rem).0[p] == 0
    decreases rem
  {
    if rem > 0 {
      var n := if rem > 256 then 256 else rem;
      if a + n <= TOP {
        WalkZeroes(t, mem, a, n, p);
        if BackedLen(t, a, n) == n {
          FillZeroes(t, LoadWalk(t, mem, a, Zeros(n)), Add32(a, n), rem - n, p);
        }
      }
    }
  }

  /** A region of four bytes fits a gap. */
  lemma GapTakes(rs: seq<Region>, r: Region, cap: nat)
    requires Table(rs, cap) && |rs| < MAX_REGIONS && Gap(rs, r.base) && Fits(r, cap) && r.size == 4
    ensures Table(rs + [r], cap)
  {
    var grown := rs + [r];
    assert grown[..|rs|] == rs && grown[|rs|] == r;
    forall i | 0 <= i < |rs|
      ensures Disjoint(grown[i], r)
    {
      if !Disjoint(rs[i], r) {
        TableFits(rs, cap, i);
        var x := if rs[i].base < r.base then r.base else rs[i].base;
        assert Lookup(rs, x).None? && Holds(rs[i], x);
      }
      assert grown[i] == rs[i];
    }
  }

  /** The segment: four file bytes in the gap, and a .bss back over them, ending it outside RAM. */
  function Digging(w: Window, a: u32): Segment
    requires Meets(w, a) && w.base + w.size <= TOP && (a != w.base || w.size < TOP - 1) && a + 4 <= TOP
  {
    if w.base <= a && a + 4 <= w.base + w.size
    then Segment(PT_LOAD, 0, Sub32(a, 4), a, 4, w.base + w.size - a + 1)
    else Segment(PT_LOAD, 0, Sub32(if a < w.base then w.base else a, 4), a, 4, 5)
  }

  lemma DiggingFacts(w: Window, a: u32)
    requires Meets(w, a) && w.base + w.size <= TOP && (a != w.base || w.size < TOP - 1) && a + 4 <= TOP
    ensures var g := Digging(w, a);
            && g.kind == PT_LOAD && IsMapped(w, g) && g.paddr == a && g.filesz == 4 < g.memsz && g.offset == 0
            && a <= WrittenAt(w, g) < a + 4 && WrittenAt(w, g) + WrittenLen(w, g) <= TOP
            && Inside(w, WrittenAt(w, g), WrittenLen(w, g))
  {
  }

  lemma AddedTranslates(rs: seq<Region>, r: Region, x: int)
    requires Plain(r) && Holds(r, x)
    ensures x in Translation(rs + [r]) && Translation(rs + [r])[x] == HostOf(r, x)
  {
    assert (rs + [r])[..|rs|] == rs;
  }

  /** What a mapped segment with a .bss in the window comes to, given room for it. */
  lemma MappedFill(rs: seq<Region>, mem: seq<u8>, img: seq<u8>, imgAt: nat, w: Window, g: Segment, grown: seq<Region>)
    requires Table(rs, |mem|) && Table(grown, |mem|) && Within(Translation(grown), |mem|)
    requires grown == if g.filesz != 0 then rs + [RomOf(imgAt, g)] else rs
    requires Refusal(img, w, g).None? && IsMapped(w, g) && g.filesz < g.memsz
    requires Inside(w, WrittenAt(w, g), WrittenLen(w, g))
    ensures Place(rs, mem, img, imgAt, w, g).mem ==
            Fill(Translation(grown), mem, WrittenAt(w, g), WrittenLen(w, g)).0
  {
    hide Translation, Table, Fill, Within, LoadWalk, BackedLen;
  }

  /**
   * Wherever the table has room and the window a gap, some segment that passes every check is mapped
   * into it and zeroes a byte of the image, though the window had no image bytes behind it before.
   */
  lemma GapReachesImage(rs: seq<Region>, mem: seq<u8>, img: seq<u8>, imgAt: nat, w: Window, a: u32)
    returns (g: Segment, k: nat)
    requires Table(rs, |mem|) && |rs| < MAX_REGIONS && Gap(rs, a) && Meets(w, a)
    requires w.base + w.size <= TOP && (a != w.base || w.size < TOP - 1) && |img| >= 4 && imgAt + |img| <= |mem|
    ensures g.kind == PT_LOAD && Refusal(img, w, g).None?
    ensures Avoids(Translation(rs), w.base, w.size, imgAt, |img|) ==> Spared(Translation(rs), imgAt, |img|, w, g)
    ensures k < |img| && Place(rs, mem, img, imgAt, w, g).mem[imgAt + k] == 0
  {
    g := Digging(w, a);
    DiggingFacts(w, a);
    var r, bss, rem := RomOf(imgAt, g), WrittenAt(w, g), WrittenLen(w, g);
    k := bss - a;
    GapTakes(rs, r, |mem|);
    AddedTranslates(rs, r, bss);
    TranslationWithin(rs + [r], |mem|);
    hide Translation, Table, Fill, Digging, Within;
    FillZeroes(Translation(rs + [r]), mem, bss, rem, imgAt + k);
    MappedFill(rs, mem, img, imgAt, w, g, rs + [r]);
  }

  lemma {:induction false} BackedAt(t: imap<int, nat>, a: int)
    requires a in t
    ensures BackedLen(t, a, 1) == 1
  {
    assert BackedLen(t, a + 1, 0) == 0;
  }

  /** Zeroing 256 bytes up to the top and one more goes on at address 0. */
  lemma FillWraps(t: imap<int, nat>, mem: seq<u8>)
    requires Within(t, |mem|) && BackedLen(t, TOP - 256, 256) == 256 && 0 in t
    ensures Fill(t, mem, TOP - 256, 257).1 && Fill(t, mem, TOP - 256, 257).0[t[0]] == 0
  {
    var first := LoadWalk(t, mem, TOP - 256, Zeros(256));
    BackedAt(t, 0);
    FillZeroes(t, first, 0, 1, t[0]);
    FillOne(t, first);
    FillStep(t, mem, TOP - 256, 257, 256);
  }

  lemma FillOne(t: imap<int, nat>, mem: seq<u8>)
    requires Within(t, |mem|) && BackedLen(t, 0, 1) == 1
    ensures Fill(t, mem, 0, 1).1
  {
    hide LoadWalk, BackedLen, Zeros;
    FillNone(t, LoadWalk(t, mem, 0, Zeros(1)), 1);
  }

  /** A .bss up to the top of the space and past it, of a segment loaded at address 0. */
  const WRAPPING := Segment(PT_LOAD, 0, TOP - 256, 0, 0, 257)

  /** So a window past the top lets a segment zero address 0, which is not in it. */
  lemma WindowPastTop(rs: seq<Region>, mem: seq<u8>, img: seq<u8>, imgAt: nat, w: Window)
    requires Table(rs, |mem|) && 0 < w.base <= TOP - 256 && w.base + w.size > TOP && Within(Translation(rs), |mem|)
    requires BackedLen(Translation(rs), TOP - 256, 256) == 256 && 0 in Translation(rs)
    ensures Refusal(img, w, WRAPPING).None? && Inside(w, WrittenAt(w, WRAPPING), WrittenLen(w, WRAPPING))
    ensures Place(rs, mem, img, imgAt, w, WRAPPING).mem[Translation(rs)[0]] == 0
  {
    var t := Translation(rs);
    assert t[0] < |mem|;
    hide Translation, Table, Within, Fill, BackedLen;
    FillWraps(t, mem);
    MappedFill(rs, mem, img, imgAt, w, WRAPPING, rs);
  }
}
