/**
 * Guest memory as a map from guest addresses to bytes, and what copying a run of
 * bytes into it does. The region table enters only through the address translation
 * it defines, so that every fact here holds for any table.
 */
module BusView {
  import opened Words
  import opened BusWalk

  /** The address lies in RAM or ROM, which are the regions with a buffer. */
  predicate Backed(rs: seq<Region>, a: int) {
    Lookup(rs, a).Some? && Plain(Lookup(rs, a).value)
  }

  function HostAt(rs: seq<Region>, cap: nat, a: int): (p: nat)
    requires Table(rs, cap) && Backed(rs, a)
    ensures p < cap
  {
    LookupFits(rs, cap, a);
    HostOf(Lookup(rs, a).value, a)
  }

  /** A translation of guest addresses to host addresses below `cap`. */
  ghost predicate Within(t: imap<int, nat>, cap: nat) {
    forall a :: a in t ==> t[a] < cap
  }

  /** The translation a region table defines: one linear piece per region with a buffer. */
  ghost function Translation(rs: seq<Region>): imap<int, nat>
    decreases |rs|
  {
    if rs == [] then imap[]
    else
      var r := rs[|rs| - 1];
      Translation(rs[..|rs| - 1]) + imap a: int | Plain(r) && Holds(r, a) :: HostOf(r, a)
  }

  /** An address is translated by a region that holds it. */
  lemma {:induction false} TranslatedBy(rs: seq<Region>, a: int)
    requires a in Translation(rs)
    ensures exists i :: 0 <= i < |rs| && Plain(rs[i]) && Holds(rs[i], a) && Translation(rs)[a] == HostOf(rs[i], a)
    decreases |rs|
  {
    var n := |rs| - 1;
    if !(Plain(rs[n]) && Holds(rs[n], a)) {
      TranslatedBy(rs[..n], a);
      var p := rs[..n];
      var i :| 0 <= i < n && Plain(p[i]) && Holds(p[i], a) && Translation(p)[a] == HostOf(p[i], a);
      assert rs[i] == p[i];
    }
  }

  lemma {:induction false} TranslatesHeld(rs: seq<Region>, i: nat, a: int)
    requires i < |rs| && Plain(rs[i]) && Holds(rs[i], a)
    ensures a in Translation(rs)
    decreases |rs|
  {
    if i < |rs| - 1 {
      TranslatesHeld(rs[..|rs| - 1], i, a);
    }
  }

  /** Translating an address is looking it up: it is the host address inside the one region that holds it. */
  lemma TranslationIsLookup(rs: seq<Region>, cap: nat, a: int)
    requires Table(rs, cap)
    ensures a in Translation(rs) <==> Backed(rs, a)
    ensures Backed(rs, a) ==> Translation(rs)[a] == HostAt(rs, cap, a)
  {
    if a in Translation(rs) {
      TranslatedBy(rs, a);
      var i :| 0 <= i < |rs| && Plain(rs[i]) && Holds(rs[i], a) && Translation(rs)[a] == HostOf(rs[i], a);
      LookupUnique(rs, cap, i, a);
    } else if Backed(rs, a) {
      var i :| 0 <= i < |rs| && rs[i] == Lookup(rs, a).value;
      TranslatesHeld(rs, i, a);
    }
  }

  lemma TranslationWithin(rs: seq<Region>, cap: nat)
    requires Table(rs, cap)
    ensures Within(Translation(rs), cap)
  {
    forall a | a in Translation(rs)
      ensures Translation(rs)[a] < cap
    {
      TranslationIsLookup(rs, cap, a);
    }
  }

  /** No host byte is behind two guest addresses. */
  ghost predicate Injective(t: imap<int, nat>) {
    forall a, b :: a in t && b in t && t[a] == t[b] ==> a == b
  }

  predicate Apart(q: Region, r: Region) {
    Plain(q) && Plain(r) ==> q.host + q.size <= r.host || r.host + r.size <= q.host
  }

  /** No two regions share host memory. */
  predicate NoAlias(rs: seq<Region>) {
    forall i, j :: 0 <= i < j < |rs| ==> Apart(rs[i], rs[j])
  }

  lemma HostInjective(rs: seq<Region>, cap: nat, x: int, y: int)
    requires Table(rs, cap) && NoAlias(rs) && Backed(rs, x) && Backed(rs, y)
    requires HostAt(rs, cap, x) == HostAt(rs, cap, y)
    ensures x == y
  {
    var i :| 0 <= i < |rs| && rs[i] == Lookup(rs, x).value;
    var j :| 0 <= j < |rs| && rs[j] == Lookup(rs, y).value;
  }

  /** Regions that share no buffer translate one to one. */
  lemma NoAliasInjective(rs: seq<Region>, cap: nat)
    requires Table(rs, cap) && NoAlias(rs)
    ensures Injective(Translation(rs))
  {
    var t := Translation(rs);
    forall x, y | x in t && y in t && t[x] == t[y]
      ensures x == y
    {
      TranslationIsLookup(rs, cap, x);
      TranslationIsLookup(rs, cap, y);
      HostInjective(rs, cap, x, y);
    }
  }

  /** The `n` addresses from `a` are behind consecutive host bytes from `p`. */
  ghost predicate Linear(t: imap<int, nat>, a: int, n: nat, p: nat) {
    forall x :: a <= x < a + n ==> x in t && t[x] == p + (x - a)
  }

  /** A stretch inside one region is linear. */
  lemma RegionLinear(rs: seq<Region>, cap: nat, r: Region, a: int, n: nat)
    requires Table(rs, cap) && Lookup(rs, a) == Some(r) && Plain(r) && a + n <= r.base + r.size
    ensures Linear(Translation(rs), a, n, HostOf(r, a))
  {
    forall x | a <= x < a + n
      ensures x in Translation(rs) && Translation(rs)[x] == HostOf(r, a) + (x - a)
    {
      var i :| 0 <= i < |rs| && rs[i] == r;
      LookupUnique(rs, cap, i, x);
      TranslationIsLookup(rs, cap, x);
    }
  }

  /** Guest memory: every backed address with the byte behind it. */
  ghost function View(t: imap<int, nat>, mem: seq<u8>): imap<int, u8>
    requires Within(t, |mem|)
  {
    imap a: int | a in t :: mem[t[a]]
  }

  lemma ViewAt(t: imap<int, nat>, mem: seq<u8>, a: int)
    requires Within(t, |mem|) && a in t
    ensures a in View(t, mem) && View(t, mem)[a] == mem[t[a]]
  {
  }

  /** Guest memory with a run of bytes laid over it, where there is memory to take them. */
  ghost function Overlay(view: imap<int, u8>, at: int, s: seq<u8>): imap<int, u8> {
    imap a: int | a in view :: if at <= a < at + |s| then s[a - at] else view[a]
  }

  /** How many of the `n` addresses from `a` are backed before the first that is not. */
  ghost function BackedLen(t: imap<int, nat>, a: int, n: nat): (k: nat)
    ensures k <= n
    ensures forall x :: a <= x < a + k ==> x in t
    ensures k < n ==> a + k !in t
    decreases n
  {
    if n == 0 || a !in t then 0 else 1 + BackedLen(t, a + 1, n - 1)
  }

  lemma {:induction false} BackedRun(t: imap<int, nat>, a: int, k: nat, n: nat)
    requires k <= n && forall x :: a <= x < a + k ==> x in t
    ensures BackedLen(t, a, n) == k + BackedLen(t, a + k, n - k)
    decreases k
  {
    if k > 0 {
      BackedRun(t, a + 1, k - 1, n - 1);
      assert a + 1 + (k - 1) == a + k;
    }
  }

  /** Memory after a copy of `s` to guest address `a`: byte by byte, up to the first unbacked address. */
  ghost function LoadWalk(t: imap<int, nat>, mem: seq<u8>, a: int, s: seq<u8>): (r: seq<u8>)
    requires Within(t, |mem|)
    ensures |r| == |mem|
    decreases |s|
  {
    if s == [] || a !in t then mem
    else LoadWalk(t, mem[t[a] := s[0]], a + 1, s[1..])
  }

  /** A chunk behind consecutive host bytes may be copied at once. */
  lemma {:induction false} ChunkWalk(t: imap<int, nat>, mem: seq<u8>, a: int, s: seq<u8>, n: nat, p: nat)
    requires Within(t, |mem|) && n <= |s| && Linear(t, a, n, p) && p + n <= |mem|
    ensures LoadWalk(t, mem, a, s) == LoadWalk(t, Splice(mem, p, s[..n]), a + n, s[n..])
    decreases n
  {
    if n == 0 {
      assert Splice(mem, p, s[..0]) == mem && s[0..] == s;
    } else {
      ChunkWalk(t, mem[p := s[0]], a + 1, s[1..], n - 1, p + 1);
      assert Splice(mem, p, s[..n]) == Splice(mem[p := s[0]], p + 1, s[1..][..n - 1]);
      assert s[1..][n - 1..] == s[n..] && a + 1 + (n - 1) == a + n;
    }
  }

  lemma LoadStops(t: imap<int, nat>, mem: seq<u8>, a: int, s: seq<u8>)
    requires Within(t, |mem|) && (s == [] || a !in t)
    ensures LoadWalk(t, mem, a, s) == mem && BackedLen(t, a, |s|) == 0
  {
  }

  lemma {:induction false} LoadWalkAppend(t: imap<int, nat>, mem: seq<u8>, a: int, s: seq<u8>, r: seq<u8>)
    requires Within(t, |mem|) && BackedLen(t, a, |s|) == |s|
    ensures LoadWalk(t, LoadWalk(t, mem, a, s), a + |s|, r) == LoadWalk(t, mem, a, s + r)
    decreases |s|
  {
    if s == [] {
      assert s + r == r;
    } else {
      LoadWalkAppend(t, mem[t[a] := s[0]], a + 1, s[1..], r);
      assert (s + r)[1..] == s[1..] + r && a + 1 + |s[1..]| == a + |s|;
    }
  }

  // ---- copies where addresses share host bytes ----

  /** The last of the `n` addresses from `a` that host byte `p` is behind, counted from `a`. */
  ghost function Behind(t: imap<int, nat>, a: int, n: nat, p: nat): (i: Option<nat>)
    ensures i.Some? ==> i.value < n && a + i.value in t && t[a + i.value] == p
    ensures i.Some? ==> forall x :: a + i.value < x < a + n && x in t ==> t[x] != p
    ensures i.None? ==> forall x :: a <= x < a + n && x in t ==> t[x] != p
    decreases n
  {
    if n == 0 then None
    else
      var later := Behind(t, a + 1, n - 1, p);
      if later.Some? then Some(later.value + 1) else if a in t && t[a] == p then Some(0) else None
  }

  /** Guest memory after a copy: each address reads the last byte written behind its host byte, or its old one. */
  ghost function Laid(t: imap<int, nat>, view: imap<int, u8>, at: int, s: seq<u8>): imap<int, u8> {
    imap a: int | a in view && a in t ::
      var i := Behind(t, at, |s|, t[a]); if i.Some? then s[i.value] else view[a]
  }

  lemma LaidNone(t: imap<int, nat>, mem: seq<u8>, a: int)
    requires Within(t, |mem|)
    ensures Laid(t, View(t, mem), a, []) == View(t, mem)
  {
    var laid := Laid(t, View(t, mem), a, []);
    forall x | x in t
      ensures laid[x] == View(t, mem)[x]
    {
      assert Behind(t, a, 0, t[x]) == None;
    }
  }

  lemma LaidCons(t: imap<int, nat>, mem: seq<u8>, a: int, s: seq<u8>)
    requires Within(t, |mem|) && a in t && s != []
    ensures Laid(t, View(t, mem[t[a] := s[0]]), a + 1, s[1..]) == Laid(t, View(t, mem), a, s)
  {
    var left, right := Laid(t, View(t, mem[t[a] := s[0]]), a + 1, s[1..]), Laid(t, View(t, mem), a, s);
    forall x | x in t
      ensures left[x] == right[x]
    {
      var later := Behind(t, a + 1, |s| - 1, t[x]);
      assert later.Some? ==> s[1..][later.value] == s[later.value + 1];
    }
  }

  /** A copy lays its bytes so, whatever the translation. */
  lemma {:induction false} LoadLays(t: imap<int, nat>, mem: seq<u8>, a: int, s: seq<u8>)
    requires Within(t, |mem|)
    ensures View(t, LoadWalk(t, mem, a, s)) == Laid(t, View(t, mem), a, s[..BackedLen(t, a, |s|)])
    decreases |s|
  {
    if s == [] || a !in t {
      assert s[..0] == [];
      LaidNone(t, mem, a);
    } else {
      var k := BackedLen(t, a + 1, |s[1..]|);
      var next := mem[t[a] := s[0]];
      assert LoadWalk(t, mem, a, s) == LoadWalk(t, next, a + 1, s[1..]) && BackedLen(t, a, |s|) == k + 1;
      hide *;
      LoadLays(t, next, a + 1, s[1..]);
      LaidCons(t, mem, a, s[..k + 1]);
      assert s[..k + 1][1..] == s[1..][..k] && s[..k + 1][0] == s[0];
    }
  }

  /** The `n` addresses from `a` share host bytes neither with one another nor with any other address. */
  ghost predicate Unshared(t: imap<int, nat>, a: int, n: nat) {
    forall x, y :: x in t && y in t && a <= y < a + n && t[x] == t[y] ==> x == y
  }

  /** Over such addresses a copy leaves every other byte. */
  lemma UnsharedLaid(t: imap<int, nat>, view: imap<int, u8>, a: int, s: seq<u8>)
    requires Unshared(t, a, |s|) && (forall x :: x in view <==> x in t) && forall x :: a <= x < a + |s| ==> x in t
    ensures Laid(t, view, a, s) == Overlay(view, a, s)
  {
    var left, right := Laid(t, view, a, s), Overlay(view, a, s);
    forall x | x in t
      ensures left[x] == right[x]
    {
      var i := Behind(t, a, |s|, t[x]);
      assert i.Some? ==> a + i.value == x;
    }
  }

  /** A copy of any `n` bytes over any memory of `cap` bytes is the plain overlay. */
  ghost predicate AlwaysOverlays(t: imap<int, nat>, cap: nat, a: int, n: nat)
    requires Within(t, cap)
  {
    forall mem: seq<u8>, s: seq<u8> :: |mem| == cap && |s| == n ==> Overlays(t, mem, a, s)
  }

  ghost predicate Overlays(t: imap<int, nat>, mem: seq<u8>, a: int, s: seq<u8>)
    requires Within(t, |mem|)
  {
    View(t, LoadWalk(t, mem, a, s)) == Overlay(View(t, mem), a, s)
  }

  function Marked(n: nat, j: int): (s: seq<u8>)
    ensures |s| == n && forall i :: 0 <= i < n ==> s[i] == if i == j then 0 else 1
  {
    seq(n, i => if i == j then 0 else 1)
  }

  /** Two addresses over one host byte, one of them in the range: some copy is not the plain overlay. */
  lemma SharedByteShows(t: imap<int, nat>, cap: nat, a: int, n: nat, x: int, y: int)
    requires Within(t, cap) && BackedLen(t, a, n) == n && x in t && a <= y < a + n && t[x] == t[y] && x != y
    ensures !AlwaysOverlays(t, cap, a, n)
  {
    var mem: seq<u8>, s := seq(cap, i => 0), Marked(n, if a <= x < a + n then x - a else n);
    LoadLays(t, mem, a, s);
    assert s[..n] == s;
    var now := View(t, LoadWalk(t, mem, a, s));
    assert now[x] == now[y];
    assert Overlay(View(t, mem), a, s)[y] == 1 && Overlay(View(t, mem), a, s)[x] == 0;
    assert !Overlays(t, mem, a, s);
  }

  /** The plain overlay is what every copy to a range does exactly when the range is unshared. */
  lemma OverlaysIffUnshared(t: imap<int, nat>, cap: nat, a: int, n: nat)
    requires Within(t, cap) && BackedLen(t, a, n) == n
    ensures AlwaysOverlays(t, cap, a, n) <==> Unshared(t, a, n)
  {
    if Unshared(t, a, n) {
      forall mem: seq<u8>, s: seq<u8> | |mem| == cap && |s| == n
        ensures Overlays(t, mem, a, s)
      {
        LoadLays(t, mem, a, s);
        assert s[..n] == s;
        UnsharedLaid(t, View(t, mem), a, s);
      }
    } else {
      var x, y :| x in t && y in t && a <= y < a + n && t[x] == t[y] && x != y;
      SharedByteShows(t, cap, a, n, x, y);
    }
  }

  /** A copy changes no host byte but those behind the backed prefix, aliased or not. */
  lemma {:induction false} LoadOnlyBehind(t: imap<int, nat>, mem: seq<u8>, a: int, s: seq<u8>, p: nat)
    requires Within(t, |mem|) && p < |mem| && LoadWalk(t, mem, a, s)[p] != mem[p]
    ensures exists x :: a <= x < a + BackedLen(t, a, |s|) && t[x] == p
    decreases |s|
  {
    if p == t[a] {
      assert a <= a < a + BackedLen(t, a, |s|);
    } else {
      LoadOnlyBehind(t, mem[t[a] := s[0]], a + 1, s[1..], p);
      var x :| a + 1 <= x < a + 1 + BackedLen(t, a + 1, |s[1..]|) && t[x] == p;
    }
  }

  /** The addresses from `a` are backed and hold `s`. */
  ghost predicate Reads(t: imap<int, nat>, mem: seq<u8>, a: int, s: seq<u8>) {
    Within(t, |mem|) && forall x :: a <= x < a + |s| ==> x in t && mem[t[x]] == s[x - a]
  }

  /** A read goes on with the bytes of a linear stretch. */
  lemma ReadsMore(t: imap<int, nat>, mem: seq<u8>, a: int, s: seq<u8>, at: int, n: nat, p: nat)
    requires Reads(t, mem, a, s) && at == a + |s| && Linear(t, at, n, p) && p + n <= |mem|
    ensures Reads(t, mem, a, s + mem[p..p + n])
  {
  }

  /** No two of the `n` addresses from `a` share a host byte. */
  ghost predicate OneToOne(t: imap<int, nat>, a: int, n: nat) {
    forall x, y :: a <= x < a + n && a <= y < a + n && x in t && y in t && t[x] == t[y] ==> x == y
  }

  lemma LaidAt(t: imap<int, nat>, view: imap<int, u8>, a: int, s: seq<u8>, x: int)
    requires OneToOne(t, a, |s|) && a <= x < a + |s| && x in t && x in view
    ensures Laid(t, view, a, s)[x] == s[x - a]
  {
    var i := Behind(t, a, |s|, t[x]);
    assert i.Some? && a + i.value == x;
  }

  lemma LoadedAt(t: imap<int, nat>, mem: seq<u8>, a: int, s: seq<u8>, x: int)
    requires Within(t, |mem|) && BackedLen(t, a, |s|) == |s| && OneToOne(t, a, |s|) && a <= x < a + |s|
    ensures x in t && LoadWalk(t, mem, a, s)[t[x]] == s[x - a]
  {
    assert x in t;
    LoadLays(t, mem, a, s);
    assert s[..|s|] == s;
    ViewAt(t, mem, x);
    ViewAt(t, LoadWalk(t, mem, a, s), x);
    LaidAt(t, View(t, mem), a, s, x);
    hide *;
  }

  /** What a copy put at a range is what a read of the range gives, when it is one to one. */
  lemma LoadedReads(t: imap<int, nat>, mem: seq<u8>, a: int, s: seq<u8>)
    requires Within(t, |mem|) && BackedLen(t, a, |s|) == |s| && OneToOne(t, a, |s|)
    ensures Reads(t, LoadWalk(t, mem, a, s), a, s)
  {
    hide LoadWalk, OneToOne, BackedLen;
    var now := LoadWalk(t, mem, a, s);
    forall x | a <= x < a + |s|
      ensures x in t && now[t[x]] == s[x - a]
    {
      LoadedAt(t, mem, a, s, x);
    }
  }

  lemma ReadsOnce(t: imap<int, nat>, mem: seq<u8>, a: int, s: seq<u8>, r: seq<u8>)
    requires Reads(t, mem, a, s) && Reads(t, mem, a, r) && |s| == |r|
    ensures s == r
  {
    forall i | 0 <= i < |s|
      ensures s[i] == r[i]
    {
      var x := a + i;
      assert x in t && mem[t[x]] == s[x - a];
      assert mem[t[x]] == r[x - a];
    }
  }

  /** Whatever is copied to the range can be read back. */
  ghost predicate AlwaysReads(t: imap<int, nat>, cap: nat, a: int, n: nat)
    requires Within(t, cap)
  {
    forall mem: seq<u8>, s: seq<u8> :: |mem| == cap && |s| == n ==> ReadsBack(t, mem, a, s)
  }

  ghost predicate ReadsBack(t: imap<int, nat>, mem: seq<u8>, a: int, s: seq<u8>)
    requires Within(t, |mem|)
  {
    Reads(t, LoadWalk(t, mem, a, s), a, s)
  }

  /** Which is so exactly when the range is one to one. */
  lemma ReadsIffOneToOne(t: imap<int, nat>, cap: nat, a: int, n: nat)
    requires Within(t, cap) && BackedLen(t, a, n) == n
    ensures AlwaysReads(t, cap, a, n) <==> OneToOne(t, a, n)
  {
    if OneToOne(t, a, n) {
      forall mem: seq<u8>, s: seq<u8> | |mem| == cap && |s| == n
        ensures ReadsBack(t, mem, a, s)
      {
        LoadedReads(t, mem, a, s);
      }
    } else {
      var x, y :| a <= x < a + n && a <= y < a + n && x in t && y in t && t[x] == t[y] && x != y;
      var mem: seq<u8>, s := seq(cap, i => 0), Marked(n, x - a);
      assert s[x - a] != s[y - a];
      assert !ReadsBack(t, mem, a, s);
    }
  }

  /** Regions that share no buffer translate every range one to one and share none of it. */
  lemma InjectiveUnshared(t: imap<int, nat>, a: int, n: nat)
    requires Injective(t)
    ensures Unshared(t, a, n) && OneToOne(t, a, n)
  {
  }

  /** Two RAM regions over one buffer, as a core's own view of its local RAM and the shared one are. */
  function TwoViews(): seq<Region> {
    [Region(0x1000, 16, Ram, 0, RWX, ANY_WIDTH), Region(0x2000, 16, Ram, 0, RWX, ANY_WIDTH)]
  }

  lemma TwoViewsTable()
    ensures Table(TwoViews(), 16)
  {
    var rs := TwoViews();
    var one := rs[..1];
    assert Table(one[..0], 16);
    assert Fits(one[0], 16) && Table(one, 16);
    assert Fits(rs[1], 16) && Disjoint(rs[0], rs[1]);
  }

  lemma TwoViewsLinear()
    ensures Linear(Translation(TwoViews()), 0x1000, 16, 0) && Linear(Translation(TwoViews()), 0x2000, 16, 0)
  {
    var rs := TwoViews();
    TwoViewsTable();
    LookupUnique(rs, 16, 0, 0x1000);
    LookupUnique(rs, 16, 1, 0x2000);
    hide Table, Lookup, Translation;
    RegionLinear(rs, 16, rs[0], 0x1000, 16);
    RegionLinear(rs, 16, rs[1], 0x2000, 16);
  }

  lemma SharedRuns(t: imap<int, nat>, cap: nat, a: int, b: int, n: nat, p: nat)
    requires Within(t, cap) && Linear(t, a, n, p) && Linear(t, b, n, p) && n > 0 && a != b
    ensures BackedLen(t, a, n) == n && OneToOne(t, a, n) && !AlwaysOverlays(t, cap, a, n)
  {
    BackedRun(t, a, n, n);
    SharedByteShows(t, cap, a, n, b, a);
  }

  /** A copy through one of them is not a plain overlay: the byte moves in the other too. */
  lemma TwoViewsShare()
    ensures Table(TwoViews(), 16) && Within(Translation(TwoViews()), 16)
    ensures BackedLen(Translation(TwoViews()), 0x1000, 16) == 16
    ensures OneToOne(Translation(TwoViews()), 0x1000, 16) && !AlwaysOverlays(Translation(TwoViews()), 16, 0x1000, 16)
  {
    TwoViewsTable();
    TranslationWithin(TwoViews(), 16);
    TwoViewsLinear();
    SharedRuns(Translation(TwoViews()), 16, 0x1000, 0x2000, 16, 0);
    hide *;
  }
}
