/**
 * ELF32 executables written out field by field, as the System V ABI lays them out, and what the loader
 * makes of any image that carries such headers.
 */
module ElfFile {
  import opened Words
  import opened BusWalk
  import opened BusView
  import opened Bus
  import opened Elf
  import opened ElfFacts

  // ---- the format ----

  /** The file header; `ident` is what follows the class and byte order in e_ident. */
  datatype FileHeader = FileHeader(
    be: bool, ident: seq<u8>, kind: u16, machine: u16, version: u32, entry: u32, phoff: u32, shoff: u32, flags: u32,
    ehsize: u16, phentsize: u16, phnum: u16, shentsize: u16, shnum: u16, shstrndx: u16)

  datatype ProgramHeader = ProgramHeader(
    kind: u32, offset: u32, vaddr: u32, paddr: u32, filesz: u32, memsz: u32, flags: u32, align: u32)

  function Half(v: u16, be: bool): (s: seq<u8>)
    ensures |s| == 2
  {
    if be then [v / 0x100, v % 0x100] else [v % 0x100, v / 0x100]
  }

  function Wide(v: u32, be: bool): (s: seq<u8>)
    ensures |s| == 4
  {
    if be then Half(v / 0x1_0000, be) + Half(v % 0x1_0000, be) else Half(v % 0x1_0000, be) + Half(v / 0x1_0000, be)
  }

  /** e_ident: the magic number, ELFCLASS32, the byte order, and ten bytes the loader does not look at. */
  function Ident(f: FileHeader): seq<u8> {
    [0x7F, 'E' as int, 'L' as int, 'F' as int, 1, if f.be then 2 else 1] + f.ident
  }

  function HeaderBytes(f: FileHeader): seq<u8> {
    Ident(f) + Half(f.kind, f.be) + Half(f.machine, f.be) + Wide(f.version, f.be) + Wide(f.entry, f.be) +
    Wide(f.phoff, f.be) + Wide(f.shoff, f.be) + Wide(f.flags, f.be) + Half(f.ehsize, f.be) +
    Half(f.phentsize, f.be) + Half(f.phnum, f.be) + Half(f.shentsize, f.be) + Half(f.shnum, f.be) +
    Half(f.shstrndx, f.be)
  }

  function ProgramBytes(p: ProgramHeader, be: bool): seq<u8> {
    Wide(p.kind, be) + Wide(p.offset, be) + Wide(p.vaddr, be) + Wide(p.paddr, be) + Wide(p.filesz, be) +
    Wide(p.memsz, be) + Wide(p.flags, be) + Wide(p.align, be)
  }

  // ---- reading it back ----

  /** What the loader reads is the value of the bytes in the file's order. */
  lemma ReadsCompose(img: seq<u8>, at: nat, be: bool)
    ensures at + 2 <= |img| ==> Rd16(img, at, be) == Compose(img[at..at + 2], be)
    ensures at + 4 <= |img| ==> Rd32(img, at, be) == Compose(img[at..at + 4], be)
  {
    if at + 2 <= |img| {
      Unfolded(img[at..at + 2]);
    }
    if at + 4 <= |img| {
      Unfolded(img[at..at + 4]);
    }
  }

  lemma HalfValue(v: u16, be: bool)
    ensures Compose(Half(v, be), be) == v
  {
    Unfolded(Half(v, be));
  }

  lemma WideValue(v: u32, be: bool)
    ensures Compose(Wide(v, be), be) == v
  {
    Unfolded(Wide(v, be));
    var hi, lo := v / 0x1_0000, v % 0x1_0000;
    assert hi == hi / 0x100 * 0x100 + hi % 0x100 && lo == lo / 0x100 * 0x100 + lo % 0x100;
  }

  lemma ReadHalf(img: seq<u8>, at: nat, v: u16, be: bool)
    requires at + 2 <= |img| && img[at..at + 2] == Half(v, be)
    ensures Rd16(img, at, be) == v
  {
    ReadsCompose(img, at, be);
    HalfValue(v, be);
  }

  lemma ReadWide(img: seq<u8>, at: nat, v: u32, be: bool)
    requires at + 4 <= |img| && img[at..at + 4] == Wide(v, be)
    ensures Rd32(img, at, be) == v
  {
    ReadsCompose(img, at, be);
    WideValue(v, be);
  }

  /** A slice of a slice is a slice. */
  lemma Within2(img: seq<u8>, at: nat, s: seq<u8>, i: nat, j: nat)
    requires at + |s| <= |img| && img[at..at + |s|] == s && i <= j <= |s|
    ensures img[at + i..at + j] == s[i..j]
  {
    forall k | 0 <= k < j - i
      ensures img[at + i..at + j][k] == s[i..j][k]
    {
      assert img[at..at + |s|][i + k] == s[i + k];
    }
  }

  /** What the loader keeps of it. */
  function HeaderOf(f: FileHeader): Header {
    Header(f.be, f.machine, f.entry, f.phoff, f.phentsize, f.phnum)
  }

  predicate IsHeader(f: FileHeader) {
    |f.ident| == 10
  }

  /** Where the fields of a file header lie. */
  lemma HeaderPlaces(f: FileHeader)
    requires IsHeader(f)
    ensures var s := HeaderBytes(f);
            && |s| == 52 && s[..4] == [0x7F, 0x45, 0x4C, 0x46] && s[4] == 1 && s[5] == (if f.be then 2 else 1)
            && s[16..18] == Half(f.kind, f.be) && s[18..20] == Half(f.machine, f.be)
            && s[24..28] == Wide(f.entry, f.be) && s[28..32] == Wide(f.phoff, f.be)
            && s[42..44] == Half(f.phentsize, f.be) && s[44..46] == Half(f.phnum, f.be)
  {
    hide Half, Wide;
    var s, i := HeaderBytes(f), Ident(f);
    assert |i| == 16 && i[..4] == [0x7F, 0x45, 0x4C, 0x46] && i[4] == 1 && i[5] == if f.be then 2 else 1;
    hide Ident;
    var upto18 := i + Half(f.kind, f.be);
    var upto20 := upto18 + Half(f.machine, f.be);
    var upto24 := upto20 + Wide(f.version, f.be);
    var upto28 := upto24 + Wide(f.entry, f.be);
    var upto32 := upto28 + Wide(f.phoff, f.be);
    var upto42 := upto32 + Wide(f.shoff, f.be) + Wide(f.flags, f.be) + Half(f.ehsize, f.be);
    var upto44 := upto42 + Half(f.phentsize, f.be);
    var upto46 := upto44 + Half(f.phnum, f.be);
    assert s == upto46 + Half(f.shentsize, f.be) + Half(f.shnum, f.be) + Half(f.shstrndx, f.be);
    hide HeaderBytes;
    Part(upto44, Half(f.phnum, f.be), s);
    Part(upto42, Half(f.phentsize, f.be), s);
    assert upto32 <= upto42;
    Part(upto28, Wide(f.phoff, f.be), s);
    Part(upto24, Wide(f.entry, f.be), s);
    assert upto20 <= upto24;
    Part(upto18, Half(f.machine, f.be), s);
    Part(i, Half(f.kind, f.be), s);
    assert s[..16] == i && i[..4] == s[..4];
  }

  /** What a sequence that begins with `a` and `b` has after `a`. */
  lemma Part(a: seq<u8>, b: seq<u8>, s: seq<u8>)
    requires a + b <= s
    ensures a <= s && s[|a|..|a| + |b|] == b
  {
    assert s[..|a| + |b|] == a + b;
  }

  lemma ProgramPlaces(p: ProgramHeader, be: bool)
    ensures var s := ProgramBytes(p, be);
            && |s| == 32 && s[0..4] == Wide(p.kind, be) && s[4..8] == Wide(p.offset, be)
            && s[8..12] == Wide(p.vaddr, be) && s[12..16] == Wide(p.paddr, be)
            && s[16..20] == Wide(p.filesz, be) && s[20..24] == Wide(p.memsz, be)
  {
    hide Wide;
  }

  /** The header an image begins with. */
  predicate Begins(img: seq<u8>, f: FileHeader) {
    IsHeader(f) && HeaderBytes(f) <= img
  }

  /** What an executable has to say for itself, in this order of errors. */
  predicate Suits(len: nat, f: FileHeader, machine: u16, alt: u16) {
    && f.kind == ET_EXEC && (machine == 0 || f.machine == machine || (alt != 0 && f.machine == alt))
    && f.phentsize >= 32 && f.phnum > 0 && f.phoff + f.phentsize as int * f.phnum as int <= len
  }

  lemma IdentBytes(img: seq<u8>, f: FileHeader)
    requires Begins(img, f)
    ensures |img| >= 52 && img[0] == 0x7F && img[1] == 0x45 && img[2] == 0x4C && img[3] == 0x46 && img[4] == 1
    ensures img[5] == if f.be then 2 else 1
  {
    HeaderPlaces(f);
    var s := HeaderBytes(f);
    assert s[0] == s[..4][0] && s[1] == s[..4][1] && s[2] == s[..4][2] && s[3] == s[..4][3];
    hide HeaderBytes;
  }

  lemma FieldHalf(img: seq<u8>, s: seq<u8>, at: nat, v: u16, be: bool)
    requires s <= img && at + 2 <= |s| && s[at..at + 2] == Half(v, be)
    ensures Rd16(img, at, be) == v
  {
    assert img[0..0 + |s|] == s;
    Within2(img, 0, s, at, at + 2);
    ReadHalf(img, at, v, be);
  }

  lemma FieldWide(img: seq<u8>, s: seq<u8>, at: nat, v: u32, be: bool)
    requires s <= img && at + 4 <= |s| && s[at..at + 4] == Wide(v, be)
    ensures Rd32(img, at, be) == v
  {
    assert img[0..0 + |s|] == s;
    Within2(img, 0, s, at, at + 4);
    ReadWide(img, at, v, be);
  }

  lemma HeaderFields(img: seq<u8>, f: FileHeader)
    requires Begins(img, f) && |img| >= 52
    ensures Rd16(img, 16, f.be) == f.kind && Rd16(img, 18, f.be) == f.machine && Rd32(img, 24, f.be) == f.entry
    ensures Rd32(img, 28, f.be) == f.phoff && Rd16(img, 42, f.be) == f.phentsize && Rd16(img, 44, f.be) == f.phnum
  {
    var s, be := HeaderBytes(f), f.be;
    HeaderPlaces(f);
    hide HeaderBytes, Half, Wide, Rd16, Rd32;
    FieldHalf(img, s, 16, f.kind, be);
    FieldHalf(img, s, 18, f.machine, be);
    FieldWide(img, s, 24, f.entry, be);
    FieldWide(img, s, 28, f.phoff, be);
    FieldHalf(img, s, 42, f.phentsize, be);
    FieldHalf(img, s, 44, f.phnum, be);
  }

  /** Reading gives back exactly the fields written, accepts exactly the headers that suit, and says what does not. */
  lemma HeaderReadsBack(img: seq<u8>, f: FileHeader, machine: u16, alt: u16)
    requires Begins(img, f)
    ensures ReadHeader(img, machine, alt).0 ==
            if Suits(|img|, f, machine, alt) then Some(HeaderOf(f))
            else None
    ensures var why := ReadHeader(img, machine, alt).1;
            && (why == NotExec <==> f.kind != ET_EXEC)
            && (why == WrongMachine ==> machine != 0 && f.machine != machine && (alt == 0 || f.machine != alt))
            && (why == BadEntrySize ==> f.phentsize < 32)
            && (why == NoHeaders ==> f.phentsize >= 32 && f.phnum == 0)
            && (why == HeadersOutside ==> f.phnum > 0 && f.phoff + f.phentsize as int * f.phnum as int > |img|)
            && (why in {NotExec, WrongMachine, BadEntrySize, NoHeaders, HeadersOutside} <==>
                  !Suits(|img|, f, machine, alt))
  {
    hide Begins, Rd16, Rd32;
    IdentBytes(img, f);
    HeaderFields(img, f);
  }

  /** A program header at its place in the table. */
  predicate Carries(img: seq<u8>, be: bool, phoff: u32, entsize: u16, i: nat, p: ProgramHeader) {
    var at := EntryAt(phoff, entsize, i);
    at + 32 <= |img| && img[at..at + 32] == ProgramBytes(p, be)
  }

  function SegmentOf(p: ProgramHeader): Segment {
    Segment(p.kind, p.offset, p.vaddr, p.paddr, p.filesz, p.memsz)
  }

  lemma ReadsFields(img: seq<u8>, at: nat, p: ProgramHeader, be: bool)
    requires at + 32 <= |img| && img[at..at + 32] == ProgramBytes(p, be)
    ensures SegmentAt(img, at, be) == SegmentOf(p)
  {
    var s := ProgramBytes(p, be);
    ProgramPlaces(p, be);
    hide ProgramBytes, Wide, Rd32;
    Within2(img, at, s, 0, 4);
    Within2(img, at, s, 4, 8);
    Within2(img, at, s, 8, 12);
    Within2(img, at, s, 12, 16);
    Within2(img, at, s, 16, 20);
    Within2(img, at, s, 20, 24);
    ReadWide(img, at, p.kind, be);
    ReadWide(img, at + 4, p.offset, be);
    ReadWide(img, at + 8, p.vaddr, be);
    ReadWide(img, at + 12, p.paddr, be);
    ReadWide(img, at + 16, p.filesz, be);
    ReadWide(img, at + 20, p.memsz, be);
  }

  /** And so of every program header. */
  lemma SegmentReadsBack(img: seq<u8>, h: Header, i: nat, p: ProgramHeader)
    requires Bounded(img, h) && i < h.count && Carries(img, h.be, h.phoff, h.entsize, i, p)
    ensures ReadSegment(img, h, i) == SegmentOf(p)
  {
    hide ProgramBytes, SegmentAt, EntryAt;
    ReadsFields(img, EntryAt(h.phoff, h.entsize, i), p, h.be);
  }

  // ---- every image ----

  function HalfOf(s: seq<u8>, be: bool): (v: u16)
    requires |s| == 2
    ensures Half(v, be) == s
  {
    if be then 0x100 * At(s, 0) + At(s, 1) else 0x100 * At(s, 1) + At(s, 0)
  }

  function WideOf(s: seq<u8>, be: bool): (v: u32)
    requires |s| == 4
    ensures Wide(v, be) == s
  {
    var a, b := HalfOf(s[..2], be), HalfOf(s[2..], be);
    WideJoins(s, a, b, be);
    if be then FromHalves(a, b) else FromHalves(b, a)
  }

  function FromHalves(hi: u16, lo: u16): u32 {
    0x1_0000 * hi as int + lo
  }

  lemma WideJoins(s: seq<u8>, a: u16, b: u16, be: bool)
    requires |s| == 4 && s[..2] == Half(a, be) && s[2..] == Half(b, be)
    ensures Wide(if be then FromHalves(a, b) else FromHalves(b, a), be) == s
  {
    hide Half;
    var hi, lo := if be then a else b, if be then b else a;
    assert FromHalves(hi, lo) / 0x1_0000 == hi && FromHalves(hi, lo) % 0x1_0000 == lo;
    hide FromHalves;
    assert s == s[..2] + s[2..];
  }

  lemma Joined(s: seq<u8>, a: nat, b: nat)
    requires a <= b <= |s|
    ensures s[..a] + s[a..b] == s[..b]
  {
  }

  /** Every image with the magic number, the class and an order is one with a header. */
  lemma EveryHeader(img: seq<u8>) returns (f: FileHeader)
    requires |img| >= 52 && img[0] == 0x7F && img[1] == 0x45 && img[2] == 0x4C && img[3] == 0x46 && img[4] == 1
    requires img[5] == 1 || img[5] == 2
    ensures Begins(img, f)
  {
    hide Half, Wide, HalfOf, WideOf;
    var be := img[5] == 2;
    var kind, machine := HalfOf(img[16..18], be), HalfOf(img[18..20], be);
    var version, entry := WideOf(img[20..24], be), WideOf(img[24..28], be);
    var phoff, shoff := WideOf(img[28..32], be), WideOf(img[32..36], be);
    var flags, ehsize := WideOf(img[36..40], be), HalfOf(img[40..42], be);
    var phentsize, phnum := HalfOf(img[42..44], be), HalfOf(img[44..46], be);
    var shentsize, shnum := HalfOf(img[46..48], be), HalfOf(img[48..50], be);
    var shstrndx := HalfOf(img[50..52], be);
    f := FileHeader(be, img[6..16], kind, machine, version, entry, phoff, shoff, flags, ehsize, phentsize, phnum,
                    shentsize, shnum, shstrndx);
    IdentIs(img, f);
    hide Ident;
    JoinedHeader(img);
  }

  lemma IdentIs(img: seq<u8>, f: FileHeader)
    requires |img| >= 16 && img[0] == 0x7F && img[1] == 0x45 && img[2] == 0x4C && img[3] == 0x46 && img[4] == 1
    requires img[5] == (if f.be then 2 else 1) && f.ident == img[6..16]
    ensures Ident(f) == img[..16]
  {
  }

  lemma JoinedHeader(img: seq<u8>)
    requires |img| >= 52
    ensures img[..16] + img[16..18] + img[18..20] + img[20..24] + img[24..28] + img[28..32] + img[32..36] +
            img[36..40] + img[40..42] + img[42..44] + img[44..46] + img[46..48] + img[48..50] + img[50..52] == img[..52]
  {
    Joined(img, 16, 18);
    Joined(img, 18, 20);
    Joined(img, 20, 24);
    Joined(img, 24, 28);
    Joined(img, 28, 32);
    Joined(img, 32, 36);
    Joined(img, 36, 40);
    Joined(img, 40, 42);
    Joined(img, 42, 44);
    Joined(img, 44, 46);
    Joined(img, 46, 48);
    Joined(img, 48, 50);
    Joined(img, 50, 52);
  }

  /** And every 32 bytes are a program header. */
  function ProgramOf(s: seq<u8>, be: bool): (p: ProgramHeader)
    requires |s| == 32
    ensures ProgramBytes(p, be) == s
  {
    JoinedProgram(s);
    ProgramHeader(WideOf(s[..4], be), WideOf(s[4..8], be), WideOf(s[8..12], be), WideOf(s[12..16], be),
                  WideOf(s[16..20], be), WideOf(s[20..24], be), WideOf(s[24..28], be), WideOf(s[28..32], be))
  }

  lemma JoinedProgram(s: seq<u8>)
    requires |s| == 32
    ensures s[..4] + s[4..8] + s[8..12] + s[12..16] + s[16..20] + s[20..24] + s[24..28] + s[28..32] == s
  {
    Joined(s, 4, 8);
    Joined(s, 8, 12);
    Joined(s, 12, 16);
    Joined(s, 16, 20);
    Joined(s, 20, 24);
    Joined(s, 24, 28);
    Joined(s, 28, 32);
    assert s[..32] == s;
  }

  /** So whatever image the loader accepts is a file as written above. */
  lemma EveryFile(img: seq<u8>, machine: u16, alt: u16) returns (f: FileHeader, ps: seq<ProgramHeader>)
    requires ReadHeader(img, machine, alt).0.Some?
    ensures IsFile(img, f, ps) && ReadHeader(img, machine, alt).0 == Some(HeaderOf(f))
  {
    hide Begins, HeaderBytes, ProgramBytes, Rd16, Rd32, Wide;
    f := EveryHeader(img);
    HeaderReadsBack(img, f, machine, alt);
    var h := HeaderOf(f);
    hide ReadHeader;
    ps := [];
    for i := 0 to f.phnum
      invariant |ps| == i && forall j :: 0 <= j < i ==> Carries(img, f.be, f.phoff, f.phentsize, j, ps[j])
    {
      EntryInside(img, h, i);
      var at := EntryAt(h.phoff, h.entsize, i);
      ps := ps + [ProgramOf(img[at..at + 32], f.be)];
    }
  }

  // ---- a whole file ----

  /** An image whose headers are `f` and `ps`. */
  ghost predicate IsFile(img: seq<u8>, f: FileHeader, ps: seq<ProgramHeader>) {
    Begins(img, f) && |ps| == f.phnum &&
    forall i :: 0 <= i < |ps| ==> Carries(img, f.be, f.phoff, f.phentsize, i, ps[i])
  }

  /** A segment of a file of `len` bytes that can be copied where it asks to be. */
  ghost predicate Copies(t: imap<int, nat>, len: nat, p: ProgramHeader) {
    && p.filesz <= p.memsz && p.offset + p.filesz <= len && p.paddr + p.memsz <= TOP
    && forall x :: p.paddr <= x < p.paddr + p.memsz ==> x in t
  }

  ghost predicate AllCopy(t: imap<int, nat>, len: nat, ps: seq<ProgramHeader>) {
    forall i :: 0 <= i < |ps| && ps[i].kind == 1 ==> Copies(t, len, ps[i])
  }

  /** The bytes a segment asks for. */
  function Image(img: seq<u8>, p: ProgramHeader): seq<u8>
    requires p.filesz <= p.memsz && p.offset + p.filesz <= |img|
  {
    img[p.offset..p.offset + p.filesz] + seq(p.memsz - p.filesz, i => 0)
  }

  /** Memory with the PT_LOAD segments laid at their physical addresses, in header order. */
  ghost function FileView(t: imap<int, nat>, view: imap<int, u8>, img: seq<u8>, ps: seq<ProgramHeader>): imap<int, u8>
    requires AllCopy(t, |img|, ps)
    decreases |ps|
  {
    if ps == [] then view
    else
      var n := |ps| - 1;
      var before := FileView(t, view, img, ps[..n]);
      assert ps[n].kind == 1 ==> Copies(t, |img|, ps[n]);
      if ps[n].kind == 1 then Laid(t, before, ps[n].paddr, Image(img, ps[n])) else before
  }

  lemma {:induction false} BackedIff(t: imap<int, nat>, a: int, n: nat)
    ensures BackedLen(t, a, n) == n <==> forall x :: a <= x < a + n ==> x in t
  {
  }

  lemma FitsIffCopies(t: imap<int, nat>, img: seq<u8>, p: ProgramHeader)
    requires p.kind == 1
    ensures Fits1(t, img, SegmentOf(p)) <==> Copies(t, |img|, p)
  {
    BackedIff(t, p.paddr, p.memsz);
    hide BackedLen;
  }

  lemma ImageIsContent(img: seq<u8>, p: ProgramHeader)
    requires p.filesz <= p.memsz && p.offset + p.filesz <= |img|
    ensures Image(img, p) == Content(img, SegmentOf(p))
  {
  }

  /** The loader's own account of the first `n` headers, in terms of what was written. */
  lemma {:induction false} OverlaidIsFile(t: imap<int, nat>, view: imap<int, u8>, img: seq<u8>, h: Header,
                                          ps: seq<ProgramHeader>)
    requires Bounded(img, h) && |ps| <= h.count
    requires forall i :: 0 <= i < |ps| ==> ReadSegment(img, h, i) == SegmentOf(ps[i])
    requires AllCopy(t, |img|, ps)
    ensures Overlaid(t, view, img, Window(0, 0), h, |ps|) == FileView(t, view, img, ps)
    decreases |ps|
  {
    hide ReadSegment, Laid;
    if ps != [] {
      var n := |ps| - 1;
      OverlaidIsFile(t, view, img, h, ps[..n]);
      assert ReadSegment(img, h, n) == SegmentOf(ps[n]);
      if ps[n].kind == 1 {
        ImageIsContent(img, ps[n]);
      }
    }
  }

  lemma {:induction false} LoadsIff(img: seq<u8>, h: Header, ps: seq<ProgramHeader>)
    requires Bounded(img, h) && |ps| <= h.count
    requires forall i :: 0 <= i < |ps| ==> ReadSegment(img, h, i) == SegmentOf(ps[i])
    ensures Loads(img, h, |ps|) != 0 <==> exists i :: 0 <= i < |ps| && ps[i].kind == 1
    decreases |ps|
  {
    hide ReadSegment;
    if ps != [] {
      var n := |ps| - 1;
      LoadsIff(img, h, ps[..n]);
      assert ReadSegment(img, h, n) == SegmentOf(ps[n]);
      if i :| 0 <= i < n && ps[i].kind == 1 {
        assert ps[..n][i].kind == 1;
      }
    }
  }

  /** All that decides a load: the header, that there is a segment, and that each can be copied. */
  ghost predicate Accepted(t: imap<int, nat>, len: nat, f: FileHeader, ps: seq<ProgramHeader>, machine: u16, alt: u16) {
    && Suits(len, f, machine, alt) && (exists i :: 0 <= i < |ps| && ps[i].kind == 1)
    && AllCopy(t, len, ps)
  }

  lemma FileSegments(img: seq<u8>, f: FileHeader, ps: seq<ProgramHeader>, h: Header)
    requires IsFile(img, f, ps) && Bounded(img, h)
    requires h == HeaderOf(f)
    ensures forall i :: 0 <= i < |ps| ==> ReadSegment(img, h, i) == SegmentOf(ps[i])
  {
    hide ReadSegment, Begins, ProgramBytes;
    forall i | 0 <= i < |ps|
      ensures ReadSegment(img, h, i) == SegmentOf(ps[i])
    {
      assert Carries(img, f.be, f.phoff, f.phentsize, i, ps[i]);
      SegmentReadsBack(img, h, i, ps[i]);
    }
  }

  lemma LoadableIsAccepted(t: imap<int, nat>, img: seq<u8>, f: FileHeader, ps: seq<ProgramHeader>, machine: u16,
                           alt: u16)
    requires IsFile(img, f, ps)
    ensures Loadable(t, img, machine, alt) <==> Accepted(t, |img|, f, ps, machine, alt)
  {
    hide ReadHeader, ReadSegment, IsFile, Begins, AllCopy, AllFit, Loads, Suits;
    FileBegins(img, f, ps);
    HeaderReadsBack(img, f, machine, alt);
    if Suits(|img|, f, machine, alt) {
      var h := ReadHeader(img, machine, alt).0.value;
      FileSegments(img, f, ps, h);
      LoadsIff(img, h, ps);
      FitEach(t, img, h, ps);
    }
  }

  lemma FileBegins(img: seq<u8>, f: FileHeader, ps: seq<ProgramHeader>)
    requires IsFile(img, f, ps)
    ensures Begins(img, f) && |ps| == f.phnum
  {
    hide Begins, Carries;
  }

  lemma FitEach(t: imap<int, nat>, img: seq<u8>, h: Header, ps: seq<ProgramHeader>)
    requires Bounded(img, h) && |ps| == h.count
    requires forall i :: 0 <= i < |ps| ==> ReadSegment(img, h, i) == SegmentOf(ps[i])
    ensures AllFit(t, img, h, h.count) <==> AllCopy(t, |img|, ps)
  {
    hide ReadSegment, Copies, Fits1;
    forall i | 0 <= i < |ps|
      ensures Fits1(t, img, ReadSegment(img, h, i)) <==> (ps[i].kind == 1 ==> Copies(t, |img|, ps[i]))
    {
      FitsWhere(t, img, ps[i]);
      assert ReadSegment(img, h, i) == SegmentOf(ps[i]);
    }
  }

  lemma FitsWhere(t: imap<int, nat>, img: seq<u8>, p: ProgramHeader)
    ensures Fits1(t, img, SegmentOf(p)) <==> (p.kind == 1 ==> Copies(t, |img|, p))
  {
    if p.kind == 1 {
      FitsIffCopies(t, img, p);
    }
    hide Copies, Refusal, BackedLen;
  }

  /** What emu_elf_load does with a file, said of the headers written in it. */
  method LoadFile<D>(bus: Bus<D>, imgAt: nat, len: nat, machine: u16, alt: u16,
                     ghost f: FileHeader, ghost ps: seq<ProgramHeader>) returns (rep: Report)
    requires bus.Valid() && imgAt + len <= bus.mem.Length && IsFile(bus.mem[imgAt..imgAt + len], f, ps)
    requires Ready(bus.regions, bus.mem[imgAt..imgAt + len], imgAt, machine, alt, Window(0, 0))
    modifies bus, bus.mem
    ensures bus.Valid() && bus.regions == old(bus.regions)
    ensures rep.Loaded? <==> Accepted(bus.Trans(), len, f, ps, machine, alt)
    ensures rep.Loaded? ==>
              && rep == Loaded(f.entry, f.machine)
              && FileLoaded(bus.Trans(), old(bus.mem[..]), bus.mem[..], old(bus.mem[imgAt..imgAt + len]), ps)
  {
    hide Table, Translation, CacheOk, ReadHeader, IsFile, View, Overlaid, Ready, AllUnshared, Plainly, Loadable,
         Accepted, FileLoaded, Within;
    ghost var img, was, t := bus.mem[imgAt..imgAt + len], bus.mem[..], bus.Trans();
    AcceptedMeans(t, img, f, ps, machine, alt);
    rep := LoadElf(bus, imgAt, len, machine, alt);
    assert bus.Trans() == t;
    if rep.Loaded? {
      TranslationWithin(bus.regions, bus.mem.Length);
      LoadedMeans(t, was, bus.mem[..], img, f, ps, machine, alt);
    }
  }

  /** What is in memory once a file is loaded: what was, with the segments laid over it. */
  ghost predicate FileLoaded(t: imap<int, nat>, was: seq<u8>, now: seq<u8>, img: seq<u8>, ps: seq<ProgramHeader>)
    requires Within(t, |was|) && |now| == |was|
  {
    AllCopy(t, |img|, ps) && View(t, now) == FileView(t, View(t, was), img, ps)
  }

  lemma LoadedMeans(t: imap<int, nat>, was: seq<u8>, now: seq<u8>, img: seq<u8>, f: FileHeader, ps: seq<ProgramHeader>,
                    machine: u16, alt: u16)
    requires IsFile(img, f, ps) && Accepted(t, |img|, f, ps, machine, alt) && Within(t, |was|) && |now| == |was|
    requires ReadHeader(img, machine, alt).0 == Some(HeaderOf(f)) && Bounded(img, HeaderOf(f))
    requires View(t, now) == Overlaid(t, View(t, was), img, Window(0, 0), HeaderOf(f), f.phnum)
    ensures FileLoaded(t, was, now, img, ps)
  {
    FileSegments(img, f, ps, HeaderOf(f));
    FileCount(img, f, ps);
    hide ReadHeader, ReadSegment, Overlaid, FileView, AllCopy, IsFile, View;
    OverlaidIsFile(t, View(t, was), img, HeaderOf(f), ps);
  }

  /** A file that is accepted, and what its overlay is. */
  lemma AcceptedMeans(t: imap<int, nat>, img: seq<u8>, f: FileHeader, ps: seq<ProgramHeader>, machine: u16, alt: u16)
    requires IsFile(img, f, ps)
    ensures Loadable(t, img, machine, alt) <==> Accepted(t, |img|, f, ps, machine, alt)
    ensures Accepted(t, |img|, f, ps, machine, alt) ==> ReadHeader(img, machine, alt).0 == Some(HeaderOf(f))
  {
    LoadableIsAccepted(t, img, f, ps, machine, alt);
    HeaderReadsBack(img, f, machine, alt);
    hide ReadHeader, Loadable;
  }

  lemma FileCount(img: seq<u8>, f: FileHeader, ps: seq<ProgramHeader>)
    requires IsFile(img, f, ps)
    ensures |ps| == f.phnum
  {
  }

  // ---- a file executed in place ----

  predicate InWindow(w: Window, p: ProgramHeader) {
    w.base <= p.paddr && p.paddr + p.memsz <= w.base + w.size
  }

  /**
   * Memory with the PT_LOAD segments inside the window laid at their physical addresses, and of the
   * others only the .bss, at their virtual ones.
   */
  ghost function PlacedView(t: imap<int, nat>, view: imap<int, u8>, img: seq<u8>, w: Window,
                            ps: seq<ProgramHeader>): imap<int, u8>
    requires AllInFile(|img|, ps)
    decreases |ps|
  {
    if ps == [] then view
    else
      var n := |ps| - 1;
      var before, p := PlacedView(t, view, img, w, ps[..n]), ps[n];
      assert p.kind == 1 ==> InFile(|img|, p);
      if p.kind != 1 then before
      else if InWindow(w, p) then Laid(t, before, p.paddr, Image(img, p))
      else Laid(t, before, (p.vaddr + p.filesz) % TOP, seq(p.memsz - p.filesz, i => 0))
  }

  predicate InFile(len: nat, p: ProgramHeader) {
    p.filesz <= p.memsz && p.offset + p.filesz <= len
  }

  lemma TailPlace(p: ProgramHeader)
    requires p.filesz <= p.memsz
    ensures Zeros(p.memsz - p.filesz) == seq(p.memsz - p.filesz, i => 0)
    ensures Add32(p.vaddr, p.filesz) == (p.vaddr + p.filesz) % TOP
  {
  }

  lemma PlacedOne(t: imap<int, nat>, view: imap<int, u8>, img: seq<u8>, w: Window, p: ProgramHeader)
    requires w.size != 0 && (p.kind == 1 ==> InFile(|img|, p) && Refusal(img, w, SegmentOf(p)).None?)
    ensures OverlayOne(t, view, img, w, SegmentOf(p)) ==
            if p.kind != 1 then view
            else if InWindow(w, p) then Laid(t, view, p.paddr, Image(img, p))
            else Laid(t, view, (p.vaddr + p.filesz) % TOP, seq(p.memsz - p.filesz, i => 0))
  {
    hide Laid, Refusal, Image, Content, Zeros, Add32;
    if p.kind == 1 {
      ImageIsContent(img, p);
      TailPlace(p);
    }
  }

  lemma {:induction false} OverlaidIsPlaced(t: imap<int, nat>, view: imap<int, u8>, img: seq<u8>, w: Window, h: Header,
                                            ps: seq<ProgramHeader>)
    requires Bounded(img, h) && |ps| <= h.count && w.size != 0
    requires forall i :: 0 <= i < |ps| ==> ReadSegment(img, h, i) == SegmentOf(ps[i])
    requires forall i :: 0 <= i < |ps| && ps[i].kind == 1 ==> Refusal(img, w, SegmentOf(ps[i])).None?
    requires AllInFile(|img|, ps)
    ensures Overlaid(t, view, img, w, h, |ps|) == PlacedView(t, view, img, w, ps)
    decreases |ps|
  {
    hide ReadSegment, Laid, Refusal, OverlayOne, InWindow, Image;
    if ps != [] {
      var n := |ps| - 1;
      var before, p := PlacedView(t, view, img, w, ps[..n]), ps[n];
      OverlaidIsPlaced(t, view, img, w, h, ps[..n]);
      assert ReadSegment(img, h, n) == SegmentOf(p);
      PlacedOne(t, before, img, w, p);
    }
  }

  lemma {:induction false} MapFitsEach(rs: seq<Region>, cap: nat, img: seq<u8>, imgAt: nat, w: Window, h: Header,
                                       n: nat, i: nat)
    requires Bounded(img, h) && i < n <= h.count && MapFits(rs, cap, img, imgAt, w, h, n)
    requires ReadSegment(img, h, i).kind == PT_LOAD
    ensures Refusal(img, w, ReadSegment(img, h, i)).None?
    decreases n
  {
    hide ReadSegment, Refusal, Translation, Table;
    if i < n - 1 {
      MapFitsEach(rs, cap, img, imgAt, w, h, n - 1, i);
    }
  }

  predicate AllInFile(len: nat, ps: seq<ProgramHeader>) {
    forall i :: 0 <= i < |ps| && ps[i].kind == 1 ==> InFile(len, ps[i])
  }

  /** Every segment that is not inside the window reads back its bytes of the file. */
  ghost predicate ReadsInPlace(u: imap<int, nat>, mem: seq<u8>, img: seq<u8>, w: Window, ps: seq<ProgramHeader>) {
    forall i :: 0 <= i < |ps| && ps[i].kind == 1 && !InWindow(w, ps[i]) ==>
      InFile(|img|, ps[i]) && Reads(u, mem, ps[i].paddr, img[ps[i].offset..ps[i].offset + ps[i].filesz])
  }

  lemma EachInFile(rs: seq<Region>, cap: nat, img: seq<u8>, imgAt: nat, w: Window, h: Header, ps: seq<ProgramHeader>)
    requires Bounded(img, h) && |ps| == h.count && MapFits(rs, cap, img, imgAt, w, h, h.count)
    requires forall i :: 0 <= i < |ps| ==> ReadSegment(img, h, i) == SegmentOf(ps[i])
    ensures AllInFile(|img|, ps)
    ensures forall i :: 0 <= i < |ps| && ps[i].kind == 1 ==> Refusal(img, w, SegmentOf(ps[i])).None?
  {
    hide ReadSegment, Refusal, MapFits;
    forall i | 0 <= i < |ps| && ps[i].kind == 1
      ensures Refusal(img, w, SegmentOf(ps[i])).None? && InFile(|img|, ps[i])
    {
      assert ReadSegment(img, h, i) == SegmentOf(ps[i]);
      MapFitsEach(rs, cap, img, imgAt, w, h, h.count, i);
      RefusalMeans(img, w, ps[i]);
    }
  }

  lemma EachReadsBack(u: imap<int, nat>, mem: seq<u8>, img: seq<u8>, w: Window, h: Header, ps: seq<ProgramHeader>)
    requires Bounded(img, h) && |ps| == h.count && w.size != 0 && AllInFile(|img|, ps)
    requires ReadBack(u, mem, img, w, h, h.count)
    requires forall i :: 0 <= i < |ps| ==> ReadSegment(img, h, i) == SegmentOf(ps[i])
    ensures ReadsInPlace(u, mem, img, w, ps)
  {
    hide ReadSegment, Reads;
    forall i | 0 <= i < |ps| && ps[i].kind == 1 && !InWindow(w, ps[i])
      ensures InFile(|img|, ps[i]) && Reads(u, mem, ps[i].paddr, img[ps[i].offset..ps[i].offset + ps[i].filesz])
    {
      assert ReadSegment(img, h, i) == SegmentOf(ps[i]);
      assert ReadBack1(u, mem, img, w, ReadSegment(img, h, i));
    }
  }

  /** What emu_elf_map does with a file, said of the headers written in it. */
  method MapFile<D>(bus: Bus<D>, imgAt: nat, len: nat, machine: u16, alt: u16, w: Window,
                    ghost f: FileHeader, ghost ps: seq<ProgramHeader>) returns (rep: Report)
    requires bus.Valid() && imgAt + len <= bus.mem.Length && IsFile(bus.mem[imgAt..imgAt + len], f, ps)
    requires Ready(bus.regions, bus.mem[imgAt..imgAt + len], imgAt, machine, alt, w)
    modifies bus, bus.mem
    ensures bus.Valid()
    ensures rep.Loaded? ==>
              var img, t := old(bus.mem[imgAt..imgAt + len]), old(bus.Trans());
              && w.size != 0 && Suits(len, f, machine, alt) && rep == Loaded(f.entry, f.machine)
              && AllInFile(len, ps) && ReadsInPlace(bus.Trans(), bus.mem[..], img, w, ps)
              && View(t, bus.mem[..]) == PlacedView(t, View(t, old(bus.mem[..])), img, w, ps)
  {
    ghost var img, was, rs, t := bus.mem[imgAt..imgAt + len], bus.mem[..], bus.regions, bus.Trans();
    HeaderReadsBack(img, f, machine, alt);
    FileCount(img, f, ps);
    ghost var head := ReadHeader(img, machine, alt).0;
    if head.Some? {
      FileSegments(img, f, ps, head.value);
    }
    hide Table, Translation, CacheOk, ReadHeader, ReadSegment, IsFile, View, Overlaid, PlacedView, Ready, MapFits,
         ReadsInPlace, AllInFile, TableAfter, AllUnshared, Plainly, ReadBack;
    rep := MapElf(bus, imgAt, len, machine, alt, w);
    if rep.Loaded? {
      EachInFile(rs, bus.mem.Length, img, imgAt, w, head.value, ps);
      EachReadsBack(bus.Trans(), bus.mem[..], img, w, head.value, ps);
      OverlaidIsPlaced(t, View(t, was), img, w, head.value, ps);
    }
  }

  /** The checks on a segment, on the fields of its header. */
  lemma RefusalMeans(img: seq<u8>, w: Window, p: ProgramHeader)
    ensures Refusal(img, w, SegmentOf(p)).None? <==>
            InFile(|img|, p) && p.paddr + (if w.size != 0 && !InWindow(w, p) then p.filesz else p.memsz) <= TOP
  {
  }
}
