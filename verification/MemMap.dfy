/**
 * The memory map the stub tells gdb: the flash window and the bus's regions, in ascending order,
 * as an XML document in a fixed buffer.
 */
module MemMap {
  import opened Words
  import opened BusWalk

  const MAP_BYTES: nat := 2560

  datatype Entry = Flash(base: u32, size: u32) | Memory(rom: bool, base: u32, size: u32)

  // ---- the document ----

  function Header(): string {
    "<?xml version=\"1.0\"?><!DOCTYPE memory-map SYSTEM \"memory-map.dtd\"><memory-map>"
  }

  function Close(): string {
    "</memory-map>"
  }

  function HexChar(v: nat): char
    requires v < 16
  {
    if v < 10 then '0' + v as char else 'a' + (v - 10) as char
  }

  function HexText(v: nat, digits: nat): (s: string)
    ensures |s| == digits
  {
    if digits == 0 then "" else HexText(v / 16, digits - 1) + [HexChar(v % 16)]
  }

  function CharValue(c: char): nat {
    if '0' <= c <= '9' then (c - '0') as int else if 'a' <= c <= 'f' then 10 + (c - 'a') as int else 0
  }

  function Number(s: string): nat {
    if s == "" then 0 else 16 * Number(s[..|s| - 1]) + CharValue(s[|s| - 1])
  }

  function Pow16(n: nat): nat {
    if n == 0 then 1 else 16 * Pow16(n - 1)
  }

  /** The digits are the number. */
  lemma {:induction false} HexTextNumber(v: nat, digits: nat)
    requires v < Pow16(digits)
    ensures Number(HexText(v, digits)) == v
  {
    if digits > 0 {
      var s := HexText(v, digits);
      HexTextNumber(v / 16, digits - 1);
      assert s[..digits - 1] == HexText(v / 16, digits - 1);
    }
  }

  function TypeName(e: Entry): string {
    match e
    case Flash(_, _) => "flash"
    case Memory(rom, _, _) => if rom then "rom" else "ram"
  }

  function Tail(e: Entry): string {
    "\"" + if e.Flash? then "><property name=\"blocksize\">0x1000</property></memory>" else "/>"
  }

  function EntryText(e: Entry): string {
    "<memory type=\"" + TypeName(e) + "\" start=\"" + "0x" + HexText(e.base, 8) + "\" length=\"" +
    "0x" + HexText(e.size, 8) + Tail(e)
  }

  function EntriesText(es: seq<Entry>): string {
    if es == [] then "" else EntriesText(es[..|es| - 1]) + EntryText(es[|es| - 1])
  }

  /** A flash entry takes 113 characters and the others 59, less than the room kept for each. */
  lemma EntryLength(e: Entry)
    ensures |EntryText(e)| == if e.Flash? then 113 else 59
  {
    assert |"<memory type=\""| == 14 && |"\" start=\""| == 9 && |"\" length=\""| == 10;
    assert |TypeName(e)| == if e.Flash? then 5 else 3;
    assert |Tail(e)| == if e.Flash? then 55 else 3;
  }

  // ---- which entries ----

  /** Regions as a table holds them: nonempty, inside the address space, pairwise apart. */
  predicate Laid(rs: seq<Region>) {
    (forall i :: 0 <= i < |rs| ==> 0 < rs[i].size && rs[i].base + rs[i].size <= TOP) &&
    (forall i, j :: 0 <= i < |rs| && 0 <= j < |rs| && i != j ==> Disjoint(rs[i], rs[j]))
  }

  lemma TableLaid(rs: seq<Region>, cap: nat)
    requires Table(rs, cap)
    ensures Laid(rs) && |rs| <= MAX_REGIONS
  {
    forall i | 0 <= i < |rs|
      ensures 0 < rs[i].size && rs[i].base + rs[i].size <= TOP
    {
      TableFits(rs, cap, i);
    }
    forall i, j | 0 <= i < |rs| && 0 <= j < |rs| && i != j
      ensures Disjoint(rs[i], rs[j])
    {
      TableDisjoint(rs, cap, i, j);
    }
  }

  datatype Window = Window(base: u32, size: u32)

  function EntryOf(r: Region): Entry {
    Memory(r.kind.Rom?, r.base, r.size)
  }

  /** The overlap test as computed, in 32 bits. */
  predicate Skipped(w: Window, r: Region) {
    w.size != 0 && r.base < Add32(w.base, w.size) && w.base < Add32(r.base, r.size)
  }

  /** The two share an address. */
  predicate Overlaps(w: Window, r: Region) {
    w.size != 0 && r.base < w.base + w.size && w.base < r.base + r.size
  }

  predicate Ascending(es: seq<Entry>) {
    forall i, j :: 0 <= i < j < |es| ==>
      es[i].base <= es[j].base && (es[i].base == es[j].base ==> es[i].Flash? && es[j].Memory?)
  }

  predicate EntriesDisjoint(es: seq<Entry>) {
    forall i, j :: 0 <= i < j < |es| ==> es[i].base + es[i].size <= es[j].base
  }

  predicate FromTable(rs: seq<Region>, w: Window, e: Entry) {
    if e.Flash? then w.size != 0 && e == Flash(w.base, w.size)
    else exists i :: 0 <= i < |rs| && !Skipped(w, rs[i]) && e == EntryOf(rs[i])
  }

  /** Every entry comes from the table or is the window. */
  predicate Drawn(rs: seq<Region>, w: Window, es: seq<Entry>) {
    forall k :: 0 <= k < |es| ==> FromTable(rs, w, es[k])
  }

  /** The window is named, and so is every region the overlap test does not skip. */
  predicate Complete(rs: seq<Region>, w: Window, es: seq<Entry>) {
    (w.size != 0 ==> Flash(w.base, w.size) in es) &&
    forall i :: 0 <= i < |rs| && !Skipped(w, rs[i]) ==> EntryOf(rs[i]) in es
  }

  predicate Above(base: u32, first: bool, last: u32) {
    first || last < base
  }

  /** The lowest region above the last one taken. */
  method NextLowest(rs: seq<Region>, first: bool, last: u32) returns (best: Option<nat>)
    requires Laid(rs)
    ensures best.None? ==> forall i :: 0 <= i < |rs| ==> !Above(rs[i].base, first, last)
    ensures best.Some? ==> best.value < |rs| && Above(rs[best.value].base, first, last)
    ensures best.Some? ==> forall i :: 0 <= i < |rs| && Above(rs[i].base, first, last) ==>
            rs[best.value].base <= rs[i].base
  {
    best := None;
    for i := 0 to |rs|
      invariant best.None? ==> forall j :: 0 <= j < i ==> !Above(rs[j].base, first, last)
      invariant best.Some? ==> best.value < i && Above(rs[best.value].base, first, last)
      invariant best.Some? ==> forall j :: 0 <= j < i && Above(rs[j].base, first, last) ==>
                rs[best.value].base <= rs[j].base
    {
      var r := rs[i];
      if !(r.size == 0 || (!first && r.base <= last)) {
        if best.None? || r.base < rs[best.value].base {
          best := Some(i);
        }
      }
    }
  }

  // ---- the buffer ----

  /** What fits of `s` after `t`, with a place kept for the end mark. */
  function Put(t: string, s: string): (r: string)
    requires |t| < MAP_BYTES
    ensures |r| < MAP_BYTES
  {
    if |t| + |s| < MAP_BYTES then t + s else (t + s)[..MAP_BYTES - 1]
  }

  lemma PutFits(t: string, s: string)
    requires |t| + |s| < MAP_BYTES
    ensures Put(t, s) == t + s
  {
  }

  lemma PutTwice(t: string, a: string, b: string)
    requires |t| < MAP_BYTES
    ensures Put(Put(t, a), b) == Put(t, a + b)
  {
    assert (t + a) + b == t + (a + b);
  }

  predicate Buffer(buf: array<char>, n: nat)
    reads buf
  {
    buf.Length == MAP_BYTES && n < MAP_BYTES && buf[n] == '\0'
  }

  method MapPut(buf: array<char>, at: nat, s: string) returns (n: nat)
    requires buf.Length == MAP_BYTES && at < MAP_BYTES
    modifies buf
    ensures Buffer(buf, n) && buf[..n] == Put(old(buf[..at]), s)
  {
    n := at;
    var k := 0;
    while k < |s| && n + 1 < MAP_BYTES
      invariant k <= |s| && n == at + k < MAP_BYTES
      invariant buf[..n] == old(buf[..at]) + s[..k]
    {
      buf[n] := s[k];
      n := n + 1;
      k := k + 1;
    }
    buf[n] := '\0';
    assert s[..|s|] == s;
  }

  /** `v` without its last `k` hex digits. */
  function Shr(v: nat, k: nat): nat {
    if k == 0 then v else Shr(v, k - 1) / 16
  }

  method MapHex(buf: array<char>, at: nat, v: u32) returns (n: nat)
    requires buf.Length == MAP_BYTES && at < MAP_BYTES
    modifies buf
    ensures Buffer(buf, n) && buf[..n] == Put(old(buf[..at]), "0x" + HexText(v, 8))
  {
    var h := "";
    for i := 0 to 8
      invariant h == HexText(Shr(v, 8 - i), i)
    {
      h := h + [HexChar(Shr(v, 7 - i) % 16)];
    }
    n := MapPut(buf, at, "0x" + h);
  }

  /** Two pieces one after the other. */
  method MapAttribute(buf: array<char>, at: nat, name: string, v: u32) returns (n: nat)
    requires buf.Length == MAP_BYTES && at < MAP_BYTES
    modifies buf
    ensures Buffer(buf, n) && buf[..n] == Put(old(buf[..at]), name + ("0x" + HexText(v, 8)))
  {
    hide Put, HexText;
    ghost var t := buf[..at];
    n := MapPut(buf, at, name);
    n := MapHex(buf, n, v);
    PutTwice(t, name, "0x" + HexText(v, 8));
  }

  method MapEntry(buf: array<char>, at: nat, e: Entry) returns (n: nat)
    requires buf.Length == MAP_BYTES && at < MAP_BYTES
    modifies buf
    ensures Buffer(buf, n) && buf[..n] == Put(old(buf[..at]), EntryText(e))
  {
    hide Put, HexText, Tail, TypeName;
    ghost var t := buf[..at];
    n := MapPut(buf, at, "<memory type=\"");
    n := MapPut(buf, n, TypeName(e));
    ghost var head := "<memory type=\"" + TypeName(e);
    PutTwice(t, "<memory type=\"", TypeName(e));
    n := MapAttribute(buf, n, "\" start=\"", e.base);
    ghost var base := "\" start=\"" + ("0x" + HexText(e.base, 8));
    PutTwice(t, head, base);
    n := MapAttribute(buf, n, "\" length=\"", e.size);
    ghost var size := "\" length=\"" + ("0x" + HexText(e.size, 8));
    PutTwice(t, head + base, size);
    n := MapPut(buf, n, Tail(e));
    PutTwice(t, head + base + size, Tail(e));
    EntryParts(e);
    hide EntryText;
  }

  lemma EntryParts(e: Entry)
    ensures EntryText(e) ==
            "<memory type=\"" + TypeName(e) + ("\" start=\"" + ("0x" + HexText(e.base, 8))) +
            ("\" length=\"" + ("0x" + HexText(e.size, 8))) + Tail(e)
  {
    hide HexText, Tail, TypeName;
  }

  // ---- the walk ----

  /** Between passes: what is written is right, and is all there is up to `last`. */
  ghost predicate Swept(rs: seq<Region>, w: Window, es: seq<Entry>, first: bool, last: u32, done: bool) {
    && Drawn(rs, w, es) && Ascending(es)
    && (first ==> es == [])
    && (forall k :: 0 <= k < |es| ==> es[k].base <= last)
    && (done <==> w.size == 0 || Flash(w.base, w.size) in es)
    && (!done ==> Above(w.base, first, last))
    && (done && w.size != 0 ==> !first && w.base <= last)
    && (forall i :: 0 <= i < |rs| && !Above(rs[i].base, first, last) && !Skipped(w, rs[i]) ==> EntryOf(rs[i]) in es)
  }

  predicate Precedes(a: Entry, b: Entry) {
    a.base <= b.base && (a.base == b.base ==> a.Flash? && b.Memory?)
  }

  lemma OneMore(rs: seq<Region>, w: Window, es: seq<Entry>, e: Entry)
    requires Drawn(rs, w, es) && Ascending(es)
    requires FromTable(rs, w, e) && forall k :: 0 <= k < |es| ==> Precedes(es[k], e)
    ensures Drawn(rs, w, es + [e]) && Ascending(es + [e])
  {
  }

  /** The list after naming the window, if it is due before `base`. */
  function Named(w: Window, es: seq<Entry>, done: bool, base: u32): seq<Entry> {
    if !done && w.base <= base then es + [Flash(w.base, w.size)] else es
  }

  lemma NamedOk(rs: seq<Region>, w: Window, es: seq<Entry>, first: bool, last: u32, done: bool, base: u32)
    requires Swept(rs, w, es, first, last, done) && Above(base, first, last)
    ensures var named := Named(w, es, done, base);
            && Drawn(rs, w, named) && Ascending(named)
            && (forall k :: 0 <= k < |named| ==> Precedes(named[k], Memory(false, base, 0)))
            && (done || w.base <= base <==> w.size == 0 || Flash(w.base, w.size) in named)
            && es <= named
  {
    if !done && w.base <= base {
      OneMore(rs, w, es, Flash(w.base, w.size));
      assert Named(w, es, done, base)[|es|] == Flash(w.base, w.size);
    }
  }

  /** The list after taking region `r` as well, unless it is skipped. */
  function Taken(w: Window, es: seq<Entry>, done: bool, r: Region): seq<Entry> {
    var named := Named(w, es, done, r.base);
    if Skipped(w, r) then named else named + [EntryOf(r)]
  }

  lemma TakenOk(rs: seq<Region>, w: Window, es: seq<Entry>, first: bool, last: u32, done: bool, best: nat)
    requires Swept(rs, w, es, first, last, done) && best < |rs| && Above(rs[best].base, first, last)
    ensures var taken := Taken(w, es, done, rs[best]);
            && Drawn(rs, w, taken) && Ascending(taken)
            && (forall k :: 0 <= k < |taken| ==> taken[k].base <= rs[best].base)
            && (done || w.base <= rs[best].base <==> w.size == 0 || Flash(w.base, w.size) in taken)
            && es <= taken && (!Skipped(w, rs[best]) ==> EntryOf(rs[best]) in taken)
  {
    NamedOk(rs, w, es, first, last, done, rs[best].base);
    hide Swept, Drawn, Ascending, Skipped;
    if !Skipped(w, rs[best]) {
      var named := Named(w, es, done, rs[best].base);
      assert FromTable(rs, w, EntryOf(rs[best]));
      OneMore(rs, w, named, EntryOf(rs[best]));
      assert (named + [EntryOf(rs[best])])[|named|] == EntryOf(rs[best]);
    }
  }

  /** Taking the lowest region above `last`, the window before it if that starts no higher. */
  lemma SweptRegion(rs: seq<Region>, w: Window, es: seq<Entry>, first: bool, last: u32, done: bool, best: nat)
    requires Laid(rs) && Swept(rs, w, es, first, last, done) && best < |rs|
    requires Above(rs[best].base, first, last)
    requires forall i :: 0 <= i < |rs| && Above(rs[i].base, first, last) ==> rs[best].base <= rs[i].base
    ensures Swept(rs, w, Taken(w, es, done, rs[best]), false, rs[best].base, done || w.base <= rs[best].base)
  {
    TakenOk(rs, w, es, first, last, done, best);
    var r := rs[best];
    var taken := Taken(w, es, done, r);
    hide Taken, Drawn, Ascending, Skipped;
    forall i | 0 <= i < |rs| && !Above(rs[i].base, false, r.base) && !Skipped(w, rs[i])
      ensures EntryOf(rs[i]) in taken
    {
      if i != best {
        assert Disjoint(rs[i], r);
        assert EntryOf(rs[i]) in es;
      }
    }
  }

  /** When no region is left, the window comes last. */
  lemma SweptEnd(rs: seq<Region>, w: Window, es: seq<Entry>, first: bool, last: u32, done: bool)
    requires Swept(rs, w, es, first, last, done)
    requires forall i :: 0 <= i < |rs| ==> !Above(rs[i].base, first, last)
    ensures var named := if done then es else es + [Flash(w.base, w.size)];
            Drawn(rs, w, named) && Ascending(named) && Complete(rs, w, named)
  {
    if !done {
      OneMore(rs, w, es, Flash(w.base, w.size));
      assert (es + [Flash(w.base, w.size)])[|es|] == Flash(w.base, w.size);
    }
  }

  lemma {:induction false} SeenBound(seen: set<nat>, n: nat)
    requires forall i :: i in seen ==> i < n
    ensures |seen| <= n
  {
    if n > 0 {
      SeenBound(seen - {n - 1}, n - 1);
    } else {
      assert seen == {};
    }
  }

  lemma EntriesMore(es: seq<Entry>, e: Entry)
    ensures EntriesText(es + [e]) == EntriesText(es) + EntryText(e)
  {
    assert (es + [e])[..|es|] == es;
  }

  lemma SweptFacts(rs: seq<Region>, w: Window, es: seq<Entry>, first: bool, last: u32, done: bool)
    requires Swept(rs, w, es, first, last, done)
    ensures Drawn(rs, w, es) && Ascending(es) && (!done ==> w.size != 0)
  {
  }

  /** One entry, with room kept for it. */
  method AddEntry(buf: array<char>, at: nat, ghost es: seq<Entry>, e: Entry) returns (n: nat)
    requires buf.Length == MAP_BYTES && at + |EntryText(e)| < MAP_BYTES
    requires buf[..at] == Header() + EntriesText(es)
    modifies buf
    ensures Buffer(buf, n) && buf[..n] == Header() + EntriesText(es + [e]) && n == at + |EntryText(e)|
  {
    hide EntryText, EntriesText, Header, Put;
    PutFits(buf[..at], EntryText(e));
    n := MapEntry(buf, at, e);
    EntriesMore(es, e);
  }

  lemma SweptNone(rs: seq<Region>, w: Window)
    ensures Swept(rs, w, [], true, 0, w.size == 0) && EntriesText([]) == ""
  {
  }

  lemma HeaderLength()
    ensures |Header()| == 78 && |Close()| == 13
  {
  }

  /**
   * The map: a complete document whose entries come from the table and ascend. Nothing is left out
   * of it while the table has 39 regions or fewer.
   */
  method BuildMap(buf: array<char>, rs: seq<Region>, w: Window) returns (n: nat, ghost es: seq<Entry>)
    requires buf.Length == MAP_BYTES && Laid(rs)
    modifies buf
    ensures Buffer(buf, n) && buf[..n] == Header() + EntriesText(es) + Close()
    ensures Drawn(rs, w, es) && Ascending(es)
    ensures |rs| <= 39 ==> Complete(rs, w, es)
  {
    hide EntryText, EntriesText, Drawn, Ascending, Complete, Skipped, Laid, Swept, Header, Close, Put;
    HeaderLength();
    var done, first, last := w.size == 0, true, 0;
    es := [];
    ghost var seen: set<nat> := {};
    SweptNone(rs, w);
    n := MapPut(buf, 0, Header());
    PutFits([], Header());
    assert buf[..n] == Header() + EntriesText(es);
    while true
      invariant Swept(rs, w, es, first, last, done)
      invariant Buffer(buf, n) && buf[..n] == Header() + EntriesText(es)
      invariant n <= 78 + 59 * |seen| + (if done && w.size != 0 then 113 else 0) && n + |Close()| < MAP_BYTES
      invariant forall i :: i in seen ==> i < |rs| && !Above(rs[i].base, first, last)
      decreases first, TOP - last
    {
      var best := NextLowest(rs, first, last);
      SweptFacts(rs, w, es, first, last, done);
      SeenBound(seen, |rs|);
      if best.None? {
        SweptEnd(rs, w, es, first, last, done);
      } else {
        NamedOk(rs, w, es, first, last, done, rs[best.value].base);
        SweptRegion(rs, w, es, first, last, done, best.value);
      }
      if !done && (best.None? || w.base <= rs[best.value].base) {
        if n + 160 + 14 >= MAP_BYTES {
          break;
        }
        EntryLength(Flash(w.base, w.size));
        n := AddEntry(buf, n, es, Flash(w.base, w.size));
        es := es + [Flash(w.base, w.size)];
        done := true;
      }
      if best.None? {
        break;
      }
      var r := rs[best.value];
      SeenBound(seen + {best.value}, |rs|);
      first := false;
      last := r.base;
      seen := seen + {best.value};
      if !Skipped(w, r) {
        if n + 100 + 14 >= MAP_BYTES {
          break;
        }
        EntryLength(EntryOf(r));
        n := AddEntry(buf, n, es, EntryOf(r));
        es := es + [EntryOf(r)];
      }
    }
    PutFits(buf[..n], Close());
    n := MapPut(buf, n, Close());
  }

  // ---- what the map means ----

  /** No region that shares an address with the window reaches the top of the space, nor does the window. */
  predicate BelowTop(rs: seq<Region>, w: Window) {
    forall i :: 0 <= i < |rs| && Overlaps(w, rs[i]) ==> w.base + w.size < TOP && rs[i].base + rs[i].size < TOP
  }

  lemma PairApart(rs: seq<Region>, w: Window, a: Entry, b: Entry)
    requires Laid(rs) && BelowTop(rs, w) && w.base + w.size <= TOP
    requires FromTable(rs, w, a) && FromTable(rs, w, b) && Precedes(a, b)
    ensures a.base + a.size <= b.base
  {
    if a.Memory? && b.Memory? {
      var i :| 0 <= i < |rs| && !Skipped(w, rs[i]) && a == EntryOf(rs[i]);
      var j :| 0 <= j < |rs| && !Skipped(w, rs[j]) && b == EntryOf(rs[j]);
      assert i != j;
      assert Disjoint(rs[i], rs[j]);
    } else if a.Memory? {
      var i :| 0 <= i < |rs| && !Skipped(w, rs[i]) && a == EntryOf(rs[i]);
      assert !Overlaps(w, rs[i]);
    } else if b.Memory? {
      var j :| 0 <= j < |rs| && !Skipped(w, rs[j]) && b == EntryOf(rs[j]);
      assert !Overlaps(w, rs[j]);
    }
  }

  /** Two entries at different places in a disjoint list share no address. */
  lemma InDisjoint(es: seq<Entry>, a: Entry, b: Entry)
    requires EntriesDisjoint(es) && a in es && b in es && a != b
    ensures a.base + a.size <= b.base || b.base + b.size <= a.base
  {
    var i :| 0 <= i < |es| && es[i] == a;
    var j :| 0 <= j < |es| && es[j] == b;
    assert i != j;
  }

  /** The entries are pairwise disjoint exactly when no overlap is hidden by the wrap at the top. */
  lemma DisjointIffBelowTop(rs: seq<Region>, w: Window, es: seq<Entry>)
    requires Laid(rs) && w.base + w.size <= TOP
    requires Drawn(rs, w, es) && Ascending(es) && Complete(rs, w, es)
    ensures EntriesDisjoint(es) <==> BelowTop(rs, w)
  {
    if BelowTop(rs, w) {
      forall i, j | 0 <= i < j < |es|
        ensures es[i].base + es[i].size <= es[j].base
      {
        PairApart(rs, w, es[i], es[j]);
      }
    }
    if EntriesDisjoint(es) {
      forall i | 0 <= i < |rs| && Overlaps(w, rs[i])
        ensures w.base + w.size < TOP && rs[i].base + rs[i].size < TOP
      {
        if !Skipped(w, rs[i]) {
          InDisjoint(es, Flash(w.base, w.size), EntryOf(rs[i]));
        }
      }
    }
  }

  /** Only regions that share an address with the window are skipped. */
  lemma SkippedOverlaps(w: Window, r: Region)
    requires w.base + w.size <= TOP && r.base + r.size <= TOP
    ensures Skipped(w, r) ==> Overlaps(w, r)
  {
  }

  /** No entry is named twice. */
  lemma NamedOnce(es: seq<Entry>, i: nat, j: nat)
    requires Ascending(es) && i < j < |es|
    ensures es[i] != es[j]
  {
    assert Precedes(es[i], es[j]);
  }

  /** A region that ends at the top of the space is named although the window lies inside it. */
  lemma WindowAtTheTop()
    ensures var r := Region(0xFFFF_0000, 0x1_0000, Kind.Rom, 0, RX, ANY_WIDTH);
            var w := Window(0xFFFF_8000, 0x4000);
            Laid([r]) && Overlaps(w, r) && !Skipped(w, r) &&
            forall es :: Drawn([r], w, es) && Complete([r], w, es) ==> !EntriesDisjoint(es)
  {
    var r := Region(0xFFFF_0000, 0x1_0000, Kind.Rom, 0, RX, ANY_WIDTH);
    var w := Window(0xFFFF_8000, 0x4000);
    forall es | Drawn([r], w, es) && Complete([r], w, es)
      ensures !EntriesDisjoint(es)
    {
      if EntriesDisjoint(es) {
        assert [r][0] == r;
        InDisjoint(es, Flash(w.base, w.size), EntryOf(r));
      }
    }
  }

  // ---- reading the map ----

  /** What comes before the next quote, and what after. */
  function Quoted(s: string): (r: (string, string))
    ensures |r.1| <= |s|
  {
    if s == "" then ("", "") else if s[0] == '\"' then ("", s[1..]) else
      var r := Quoted(s[1..]);
      ([s[0]] + r.0, r.1)
  }

  /** The value of the attribute `name` at the front, and what comes after it. */
  function Attribute(s: string, name: string): (r: Option<(string, string)>)
    ensures r.Some? ==> |name| + |r.value.1| <= |s|
  {
    if name <= s then Some(Quoted(s[|name|..])) else None
  }

  /** A number as gdb's own maps write it. */
  function Hex(s: string): Option<u32> {
    if "0x" <= s && Number(s[2..]) < TOP then Some(Number(s[2..])) else None
  }

  /** The element of a type: gdb's names for the three, a flash one with its block size and the others empty. */
  function Element(name: string, base: u32, size: u32): Option<(Entry, string)> {
    if name == "flash" then Some((Flash(base, size), "><property name=\"blocksize\">0x1000</property></memory>"))
    else if name == "rom" then Some((Memory(true, base, size), "/>"))
    else if name == "ram" then Some((Memory(false, base, size), "/>"))
    else None
  }

  /** The element at the front, and what comes after it. */
  function ReadEntry(s: string): (r: Option<(Entry, string)>)
    ensures r.Some? ==> |r.value.1| < |s|
  {
    var kind := Attribute(s, "<memory type=\"");
    if kind.None? then None else
      var start := Attribute(kind.value.1, " start=\"");
      if start.None? then None else
        var length := Attribute(start.value.1, " length=\"");
        if length.None? || Hex(start.value.0).None? || Hex(length.value.0).None? then None else
          var e := Element(kind.value.0, Hex(start.value.0).value, Hex(length.value.0).value);
          if e.None? || !(e.value.1 <= length.value.1) then None else
            Some((e.value.0, length.value.1[|e.value.1|..]))
  }

  /** The elements up to the closing tag, which is to be the end. */
  function ReadEntries(s: string): Option<seq<Entry>>
    decreases |s|
  {
    if s == Close() then Some([]) else
      var one := ReadEntry(s);
      if one.None? then None else
        var rest := ReadEntries(one.value.1);
        if rest.None? then None else Some([one.value.0] + rest.value)
  }

  /** A memory map, as the document gdb is sent. */
  function ReadMap(s: string): Option<seq<Entry>> {
    if Header() <= s then ReadEntries(s[|Header()|..]) else None
  }

  lemma {:induction false} QuotedOf(a: string, rest: string)
    requires '\"' !in a
    ensures Quoted(a + "\"" + rest) == (a, rest)
  {
    var s := a + "\"" + rest;
    if a == "" {
      assert s[1..] == rest;
    } else {
      QuotedOf(a[1..], rest);
      assert s[1..] == a[1..] + "\"" + rest && s[0] == a[0];
      assert [a[0]] + a[1..] == a;
    }
  }

  lemma AttributeOf(name: string, a: string, rest: string)
    requires '\"' !in a
    ensures Attribute(name + a + "\"" + rest, name) == Some((a, rest))
  {
    var s := name + a + "\"" + rest;
    assert s[|name|..] == a + "\"" + rest;
    hide Quoted;
    QuotedOf(a, rest);
  }

  lemma {:induction false} HexTextPlain(v: nat, digits: nat)
    ensures '\"' !in HexText(v, digits)
  {
    if digits > 0 {
      HexTextPlain(v / 16, digits - 1);
    }
  }

  lemma HexOf(v: u32)
    ensures Hex("0x" + HexText(v, 8)) == Some(v) && '\"' !in "0x" + HexText(v, 8)
  {
    assert Pow16(4) == 0x1_0000;
    assert Pow16(8) == TOP;
    HexTextNumber(v, 8);
    HexTextPlain(v, 8);
    hide HexText, Number;
    assert ("0x" + HexText(v, 8))[2..] == HexText(v, 8);
  }

  lemma ElementOf(e: Entry)
    ensures '\"' !in TypeName(e)
    ensures var r := Element(TypeName(e), e.base, e.size);
            r.Some? && r.value.0 == e && Tail(e) == "\"" + r.value.1
  {
  }

  /** The entry's text in the pieces the reader takes. */
  lemma EntryPieces(e: Entry, after: string, rest: string)
    requires Tail(e) == "\"" + after
    ensures EntryText(e) + rest ==
            "<memory type=\"" + TypeName(e) + "\"" +
              (" start=\"" + ("0x" + HexText(e.base, 8)) + "\"" +
                (" length=\"" + ("0x" + HexText(e.size, 8)) + "\"" + (after + rest)))
  {
    hide HexText, TypeName, Tail;
    assert "\" start=\"" == "\"" + " start=\"" && "\" length=\"" == "\"" + " length=\"";
  }

  lemma ReadsEntry(e: Entry, rest: string)
    ensures ReadEntry(EntryText(e) + rest) == Some((e, rest))
  {
    hide Attribute, Hex, Element, EntryText, HexText, TypeName, Tail;
    ElementOf(e);
    HexOf(e.base);
    HexOf(e.size);
    var base, size := "0x" + HexText(e.base, 8), "0x" + HexText(e.size, 8);
    var after := Element(TypeName(e), e.base, e.size).value.1;
    EntryPieces(e, after, rest);
    var third := after + rest;
    var second := " length=\"" + size + "\"" + third;
    var first := " start=\"" + base + "\"" + second;
    AttributeOf("<memory type=\"", TypeName(e), first);
    AttributeOf(" start=\"", base, second);
    AttributeOf(" length=\"", size, third);
    assert after <= third && third[|after|..] == rest;
  }

  lemma {:induction false} EntriesFirst(es: seq<Entry>)
    requires es != []
    ensures EntriesText(es) == EntryText(es[0]) + EntriesText(es[1..])
  {
    hide EntryText;
    if |es| > 1 {
      var init := es[..|es| - 1];
      EntriesFirst(init);
      assert es[1..][..|es| - 2] == init[1..];
    } else {
      assert es[..0] == [] && es[1..] == [];
    }
  }

  lemma CloseIsNoEntry()
    ensures ReadEntry(Close()) == None
  {
    assert "<memory type=\""[1] == 'm' && Close()[1] == '/';
  }

  lemma {:induction false} ReadsEntries(es: seq<Entry>)
    ensures ReadEntries(EntriesText(es) + Close()) == Some(es)
  {
    hide EntryText, EntriesText, ReadEntry, Close;
    CloseIsNoEntry();
    if es == [] {
      EntriesNone();
      assert EntriesText(es) + Close() == Close();
    } else {
      var rest := EntriesText(es[1..]) + Close();
      EntriesFirst(es);
      assert EntriesText(es) + Close() == EntryText(es[0]) + rest;
      ReadsEntry(es[0], rest);
      ReadsEntries(es[1..]);
      assert [es[0]] + es[1..] == es;
    }
  }

  lemma EntriesNone()
    ensures EntriesText([]) == ""
  {
  }

  /** A reader of the document has the entries, their types with them. */
  lemma ReadsBack(es: seq<Entry>)
    ensures ReadMap(Header() + EntriesText(es) + Close()) == Some(es)
  {
    hide EntriesText, ReadEntries, Header, Close;
    ReadsEntries(es);
    var s := Header() + EntriesText(es) + Close();
    assert s[|Header()|..] == EntriesText(es) + Close();
  }

  /** The map of a bus: every region once, the window once, in order, and apart unless something touches the top. */
  method MapBus(buf: array<char>, rs: seq<Region>, cap: nat, w: Window) returns (n: nat, ghost es: seq<Entry>)
    requires buf.Length == MAP_BYTES && Table(rs, cap) && w.base + w.size <= TOP
    modifies buf
    ensures Buffer(buf, n) && buf[..n] == Header() + EntriesText(es) + Close()
    ensures Drawn(rs, w, es) && Ascending(es) && Complete(rs, w, es)
    ensures ReadMap(buf[..n]) == Some(es)
    ensures forall i :: 0 <= i < |rs| && !Overlaps(w, rs[i]) ==> EntryOf(rs[i]) in es
    ensures EntriesDisjoint(es) <==> BelowTop(rs, w)
  {
    hide ReadMap;
    TableLaid(rs, cap);
    n, es := BuildMap(buf, rs, w);
    ReadsBack(es);
    DisjointIffBelowTop(rs, w, es);
    forall i | 0 <= i < |rs| && !Overlaps(w, rs[i])
      ensures EntryOf(rs[i]) in es
    {
      SkippedOverlaps(w, rs[i]);
    }
  }
}
