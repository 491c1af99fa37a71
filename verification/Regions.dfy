/** Lists of mmap regions as values: canonical form, the addresses a list covers, and the
    effect of inserting one region and of cutting a range out. */
module Regions {
  import opened Layout
  import opened Outcomes

  datatype Region = Region(begin: nat, npages: nat) {
    function End(): nat { begin + npages * 4096 }
  }

  /** A non-empty page-aligned piece of the mmap area. */
  predicate Proper(r: Region) {
    r.npages > 0 && r.begin % 4096 == 0 && MMAP_BEGIN <= r.begin && r.End() <= MMAP_END
  }

  /** Sorted with a gap between neighbours: nothing overlaps and nothing can be merged. */
  predicate Gapped(rs: seq<Region>) {
    forall i, j :: 0 <= i < j < |rs| ==> rs[i].End() < rs[j].begin
  }

  predicate Canonical(rs: seq<Region>) {
    (forall i :: 0 <= i < |rs| ==> Proper(rs[i])) && Gapped(rs)
  }

  predicate In(r: Region, a: int) { r.begin <= a < r.End() }

  predicate Covers(rs: seq<Region>, a: int) {
    exists i :: 0 <= i < |rs| && In(rs[i], a)
  }

  lemma CoversCat(xs: seq<Region>, ys: seq<Region>, a: int)
    ensures Covers(xs + ys, a) <==> Covers(xs, a) || Covers(ys, a)
  {
    if Covers(xs, a) {
      var i :| 0 <= i < |xs| && In(xs[i], a);
      assert In((xs + ys)[i], a);
    }
    if Covers(ys, a) {
      var i :| 0 <= i < |ys| && In(ys[i], a);
      assert In((xs + ys)[|xs| + i], a);
    }
  }

  lemma CoversCons(r: Region, rs: seq<Region>, a: int)
    ensures Covers([r] + rs, a) <==> In(r, a) || Covers(rs, a)
  {
    CoversCat([r], rs, a);
    assert In([r][0], a) == In(r, a);
  }

  lemma CoversOne(x: Region, a: int)
    ensures Covers([x], a) <==> In(x, a)
  {
    assert In([x][0], a) == In(x, a);
  }

  lemma CoversTwo(x: Region, y: Region, a: int)
    ensures Covers([x, y], a) <==> In(x, a) || In(y, a)
  {
    assert [x, y] == [x] + [y];
    CoversCons(x, [y], a);
    CoversOne(y, a);
  }

  lemma CoversThree(xs: seq<Region>, ys: seq<Region>, zs: seq<Region>, a: int)
    ensures Covers(xs + (ys + zs), a) <==> Covers(xs, a) || Covers(ys, a) || Covers(zs, a)
  {
    CoversCat(xs, ys + zs, a);
    CoversCat(ys, zs, a);
  }

  lemma CanonicalTail(rs: seq<Region>)
    requires Canonical(rs) && rs != []
    ensures Canonical(rs[1..]) && Proper(rs[0]) && rs == [rs[0]] + rs[1..]
    ensures forall i :: 0 <= i < |rs[1..]| ==> rs[0].End() < rs[1..][i].begin
  {
  }

  lemma CatCanonical(xs: seq<Region>, ys: seq<Region>)
    requires Canonical(xs) && Canonical(ys)
    requires forall i, j :: 0 <= i < |xs| && 0 <= j < |ys| ==> xs[i].End() < ys[j].begin
    ensures Canonical(xs + ys)
  {
  }

  // ---------- canonical form is unique ----------

  /** Same coverage, same first region. */
  lemma SameHead(xs: seq<Region>, ys: seq<Region>)
    requires Canonical(xs) && Canonical(ys) && xs != [] && ys != []
    requires forall a :: Covers(xs, a) <==> Covers(ys, a)
    ensures xs[0] == ys[0]
  {
    var x, y := xs[0], ys[0];
    assert In(xs[0], x.begin) && In(ys[0], y.begin);
    assert Covers(xs, x.begin) && Covers(ys, y.begin);
    assert x.begin == y.begin;
    HeadEnd(xs);
    HeadEnd(ys);
    assert !Covers(ys, x.End()) && !Covers(xs, y.End());
    assert !In(ys[0], x.End()) && !In(xs[0], y.End());
  }

  lemma HeadEnd(xs: seq<Region>)
    requires Canonical(xs) && xs != []
    ensures !Covers(xs, xs[0].End())
  {
  }

  /** Two canonical lists that cover the same addresses are the same list. */
  lemma {:induction false} CanonicalUnique(xs: seq<Region>, ys: seq<Region>)
    requires Canonical(xs) && Canonical(ys)
    requires forall a :: Covers(xs, a) <==> Covers(ys, a)
    ensures xs == ys
  {
    if xs == [] {
      if ys != [] {
        assert In(ys[0], ys[0].begin);
        assert Covers(ys, ys[0].begin);
      }
    } else {
      assert In(xs[0], xs[0].begin);
      assert Covers(xs, xs[0].begin);
      assert ys != [];
      SameHead(xs, ys);
      CanonicalTail(xs);
      CanonicalTail(ys);
      forall a
        ensures Covers(xs[1..], a) <==> Covers(ys[1..], a)
      {
        CoversCons(xs[0], xs[1..], a);
        CoversCons(ys[0], ys[1..], a);
      }
      CanonicalUnique(xs[1..], ys[1..]);
    }
  }

  // ---------- insertion with merging ----------

  /** k is the number of regions that start below r. */
  predicate Position(rs: seq<Region>, r: Region, k: nat) {
    && k <= |rs|
    && (forall i :: 0 <= i < k ==> rs[i].begin < r.begin)
    && (forall i :: k <= i < |rs| ==> r.begin <= rs[i].begin)
  }

  predicate Overlaps(r: Region, q: Region) {
    r.begin < q.End() && r.End() > q.begin
  }

  predicate Free(rs: seq<Region>, r: Region) {
    forall i :: 0 <= i < |rs| ==> !Overlaps(r, rs[i])
  }

  predicate TouchesPrev(rs: seq<Region>, r: Region, k: nat) {
    0 < k <= |rs| && rs[k - 1].End() == r.begin
  }

  predicate TouchesNext(rs: seq<Region>, r: Region, k: nat) {
    k < |rs| && r.End() == rs[k].begin
  }

  /** rs with its elements from lo up to hi replaced by m. */
  function Splice(rs: seq<Region>, lo: nat, hi: nat, m: Region): seq<Region>
    requires lo <= hi <= |rs|
  {
    rs[..lo] + ([m] + rs[hi..])
  }

  /** Which regions the merged one replaces, and what it is. */
  function Lo(rs: seq<Region>, r: Region, k: nat): nat {
    if TouchesPrev(rs, r, k) then k - 1 else k
  }

  function Hi(rs: seq<Region>, r: Region, k: nat): nat {
    if TouchesNext(rs, r, k) then k + 1 else k
  }

  /** The region that stands for r and the neighbours it touches. */
  function Merged(rs: seq<Region>, r: Region, k: nat): Region
    requires k <= |rs|
  {
    var p := if TouchesPrev(rs, r, k) then rs[k - 1].npages else 0;
    var n := if TouchesNext(rs, r, k) then rs[k].npages else 0;
    Region(if TouchesPrev(rs, r, k) then rs[k - 1].begin else r.begin, p + r.npages + n)
  }

  /** The list after inserting r at k and merging it with the neighbours it touches: the
      four shapes of mmap_merge (uvm.c:189-214). */
  function Insert(rs: seq<Region>, r: Region, k: nat): seq<Region>
    requires k <= |rs|
  {
    Splice(rs, Lo(rs, r, k), Hi(rs, r, k), Merged(rs, r, k))
  }

  /** r touches the region that will follow it and not the one before it. */
  predicate OnlyNext(rs: seq<Region>, r: Region, k: nat) {
    TouchesNext(rs, r, k) && !TouchesPrev(rs, r, k)
  }

  /** Some region starts where r ends, and none ends where r starts. */
  predicate OnlyNextTouched(rs: seq<Region>, r: Region) {
    && (exists i :: 0 <= i < |rs| && rs[i].begin == r.End())
    && (forall i :: 0 <= i < |rs| ==> rs[i].End() != r.begin)
  }

  /** The code, taken in this version, leaves a freed node on the list. */
  predicate Spoils(version: Version, rs: seq<Region>, r: Region, k: nat) {
    version.AsWritten? && OnlyNext(rs, r, k)
  }

  /** As written, the merge gets this region wrong. */
  predicate Spoilt(version: Version, rs: seq<Region>, r: Region) {
    version.AsWritten? && OnlyNextTouched(rs, r)
  }

  /** Regions that pass the range check of uvm_mmap: inside the mmap area, at any alignment,
      or so far above it that the check's sum wraps. Their size may be 0 pages when the
      32-bit size of the request is. */
  predicate Placeable(r: Region) {
    r.npages < 0x10_0000 && MMAP_BEGIN <= r.begin && (r.begin > MMAP_END || r.End() <= MMAP_END)
  }

  function Wider(r: Region, extra: nat): Region { Region(r.begin, r.npages + extra) }

  /** What mmap_merge makes of the list when the new node claims `extra` pages more than the
      r.npages its 32-bit size stands for. As written, a region that only touches its
      successor takes that one's pages, but the list still runs through it. */
  function Placed(version: Version, rs: seq<Region>, r: Region, extra: nat, k: nat): seq<Region>
    requires k <= |rs|
  {
    if version.AsWritten? && OnlyNext(rs, r, k) then
      rs[..k] + ([Region(r.begin, r.npages + extra + rs[k].npages)] + rs[k..])
    else
      Splice(rs, Lo(rs, r, k), Hi(rs, r, k), Wider(Merged(rs, r, k), extra))
  }

  lemma MergedEnds(rs: seq<Region>, r: Region, k: nat)
    requires k <= |rs|
    ensures Merged(rs, r, k).begin == if TouchesPrev(rs, r, k) then rs[k - 1].begin else r.begin
    ensures Merged(rs, r, k).End() == if TouchesNext(rs, r, k) then rs[k].End() else r.End()
  {
  }

  /** A region behind the first lo regions. */
  lemma PrefixCanonical(rs: seq<Region>, lo: nat, m: Region)
    requires Canonical(rs) && Proper(m) && lo <= |rs|
    requires lo > 0 ==> rs[lo - 1].End() < m.begin
    ensures Canonical(rs[..lo] + [m])
  {
    forall i | 0 <= i < lo
      ensures rs[i].End() < m.begin
    {
      if i < lo - 1 {
        assert rs[i].End() < rs[lo - 1].begin;
      }
    }
  }

  lemma SpliceCanonical(rs: seq<Region>, lo: nat, hi: nat, m: Region)
    requires Canonical(rs) && Proper(m) && lo <= hi <= |rs|
    requires lo > 0 ==> rs[lo - 1].End() < m.begin
    requires hi < |rs| ==> m.End() < rs[hi].begin
    ensures Canonical(Splice(rs, lo, hi, m))
  {
    PrefixCanonical(rs, lo, m);
    forall j | hi <= j < |rs|
      ensures m.End() < rs[j].begin
    {
      if j > hi {
        assert rs[hi].End() < rs[j].begin;
      }
    }
    CatCanonical(rs[..lo] + [m], rs[hi..]);
    assert Splice(rs, lo, hi, m) == rs[..lo] + [m] + rs[hi..];
  }

  lemma InsertCanonical(rs: seq<Region>, r: Region, k: nat)
    requires Canonical(rs) && Proper(r) && Position(rs, r, k) && Free(rs, r)
    ensures Canonical(Insert(rs, r, k))
  {
    MergedEnds(rs, r, k);
    if k > 0 {
      assert !Overlaps(r, rs[k - 1]);
    }
    if k < |rs| {
      assert !Overlaps(r, rs[k]);
    }
    SpliceCanonical(rs, Lo(rs, r, k), Hi(rs, r, k), Merged(rs, r, k));
  }

  lemma SpliceCovers(rs: seq<Region>, lo: nat, hi: nat, m: Region, a: int)
    requires lo <= hi <= |rs|
    ensures Covers(Splice(rs, lo, hi, m), a) <==> Covers(rs[..lo], a) || In(m, a) || Covers(rs[hi..], a)
    ensures Covers(rs, a) <==> Covers(rs[..lo], a) || Covers(rs[lo..hi], a) || Covers(rs[hi..], a)
  {
    CoversThree(rs[..lo], [m], rs[hi..], a);
    CoversOne(m, a);
    CoversThree(rs[..lo], rs[lo..hi], rs[hi..], a);
    assert rs == rs[..lo] + (rs[lo..hi] + rs[hi..]);
  }

  lemma InsertCovers(rs: seq<Region>, r: Region, k: nat, a: int)
    requires k <= |rs|
    ensures Covers(Insert(rs, r, k), a) <==> Covers(rs, a) || In(r, a)
  {
    var lo, hi := Lo(rs, r, k), Hi(rs, r, k);
    Middle(rs, r, k, lo, hi, a);
    SpliceCovers(rs, lo, hi, Merged(rs, r, k), a);
  }

  /** The merged region covers exactly r and the neighbours it swallowed. */
  lemma Middle(rs: seq<Region>, r: Region, k: nat, lo: nat, hi: nat, a: int)
    requires k <= |rs|
    requires lo == Lo(rs, r, k) && hi == Hi(rs, r, k)
    ensures In(Merged(rs, r, k), a) <==> In(r, a) || Covers(rs[lo..hi], a)
  {
    MergedEnds(rs, r, k);
    var s := rs[lo..hi];
    if TouchesPrev(rs, r, k) {
      assert s[0] == rs[k - 1];
      assert In(s[0], a) == In(rs[k - 1], a);
    }
    if TouchesNext(rs, r, k) {
      assert s[|s| - 1] == rs[k];
      assert In(s[|s| - 1], a) == In(rs[k], a);
    }
    assert |s| <= 2;
    assert forall i :: 0 <= i < |s| ==> s[i] == (if TouchesPrev(rs, r, k) && i == 0 then rs[k - 1] else rs[k]);
  }

  lemma InsertMeans(rs: seq<Region>, r: Region, k: nat)
    requires Canonical(rs) && Proper(r) && Position(rs, r, k) && Free(rs, r)
    ensures Canonical(Insert(rs, r, k))
    ensures forall a :: Covers(Insert(rs, r, k), a) <==> Covers(rs, a) || In(r, a)
  {
    InsertCanonical(rs, r, k);
    forall a
      ensures Covers(Insert(rs, r, k), a) <==> Covers(rs, a) || In(r, a)
    {
      InsertCovers(rs, r, k, a);
    }
  }

  /** Which neighbours a region touches does not depend on how its position is named. */
  lemma OnlyNextMeans(rs: seq<Region>, r: Region, k: nat)
    requires Canonical(rs) && Position(rs, r, k) && Free(rs, r)
    ensures OnlyNext(rs, r, k) <==> OnlyNextTouched(rs, r)
  {
    assert forall i :: 0 <= i < |rs| ==> Proper(rs[i]) && !Overlaps(r, rs[i]);
    forall i | 0 <= i < |rs|
      ensures rs[i].begin == r.End() ==> i == k
      ensures rs[i].End() == r.begin ==> i + 1 == k
    {
      assert k < i ==> rs[k].End() < rs[i].begin;
      assert i < k - 1 ==> rs[i].End() < rs[k - 1].begin;
    }
  }

  /** With nothing extra and no freed node left on the list, the merge is the insertion. */
  lemma PlacedSound(version: Version, rs: seq<Region>, r: Region, k: nat)
    requires Canonical(rs) && Proper(r) && Position(rs, r, k) && Free(rs, r) && !Spoilt(version, rs, r)
    ensures Placed(version, rs, r, 0, k) == Insert(rs, r, k) && !Spoils(version, rs, r, k)
    ensures Canonical(Insert(rs, r, k))
    ensures forall a :: Covers(Insert(rs, r, k), a) <==> Covers(rs, a) || In(r, a)
  {
    OnlyNextMeans(rs, r, k);
    InsertMeans(rs, r, k);
  }

  /** Otherwise the list is no longer canonical. */
  lemma PlacedBroken(version: Version, rs: seq<Region>, r: Region, extra: nat, k: nat)
    requires Canonical(rs) && Placeable(r) && Position(rs, r, k) && Free(rs, r)
    requires extra >= 0x10_0000 || r.begin > MMAP_END || Spoilt(version, rs, r)
    ensures !Canonical(Placed(version, rs, r, extra, k))
  {
    OnlyNextMeans(rs, r, k);
    if Spoils(version, rs, r, k) {
      SpoiltBroken(rs, r, extra, k);
    } else {
      TooBig(version, rs, r, extra, k);
    }
  }

  lemma SpoiltBroken(rs: seq<Region>, r: Region, extra: nat, k: nat)
    requires Canonical(rs) && OnlyNext(rs, r, k)
    ensures k <= |rs| && !Canonical(Placed(AsWritten, rs, r, extra, k))
  {
    var out := Placed(AsWritten, rs, r, extra, k);
    assert out[k] == Region(r.begin, r.npages + extra + rs[k].npages) && out[k + 1] == rs[k];
    assert out[k].End() >= rs[k].End() && Proper(rs[k]);
  }

  lemma TooBig(version: Version, rs: seq<Region>, r: Region, extra: nat, k: nat)
    requires Canonical(rs) && Placeable(r) && Position(rs, r, k) && !Spoils(version, rs, r, k)
    requires extra >= 0x10_0000 || r.begin > MMAP_END
    ensures !Canonical(Placed(version, rs, r, extra, k))
  {
    var out, lo := Placed(version, rs, r, extra, k), Lo(rs, r, k);
    assert out[lo] == Wider(Merged(rs, r, k), extra);
    assert k > 0 ==> Proper(rs[k - 1]);
    assert !Proper(out[lo]);
  }

  // ---------- cutting a range out ----------

  /** What is left of one region: the six shapes of uvm_munmap (uvm.c:333-403). */
  function CutOne(r: Region, b: nat, e: nat): seq<Region> {
    if r.End() <= b || r.begin >= e then [r]
    else if b <= r.begin && r.End() <= e then []
    else if r.begin < b && e < r.End() then [Region(r.begin, (b - r.begin) / 4096), Region(e, (r.End() - e) / 4096)]
    else if b <= r.begin then [Region(e, (r.End() - e) / 4096)]
    else [Region(r.begin, (b - r.begin) / 4096)]
  }

  function Cut(rs: seq<Region>, b: nat, e: nat): seq<Region> {
    if rs == [] then [] else CutOne(rs[0], b, e) + Cut(rs[1..], b, e)
  }

  lemma WholePages(a: nat, b: nat)
    requires a % 4096 == 0 && b % 4096 == 0 && a < b
    ensures a + (b - a) / 4096 * 4096 == b && (b - a) / 4096 > 0
  {
  }

  /** A boundary of [b, e) lies strictly inside r. */
  predicate Cuts(r: Region, b: nat, e: nat) {
    r.begin < b < r.End() || r.begin < e < r.End()
  }

  /** The whole-page arithmetic of a cut is exact: the range is page aligned, or leaves the
      region alone or takes it whole. */
  predicate Clean(r: Region, b: nat, e: nat) {
    b <= e && ((b % 4096 == 0 && e % 4096 == 0 && b < e) || !Cuts(r, b, e))
  }

  lemma CutOneProper(r: Region, b: nat, e: nat)
    requires Proper(r) && Clean(r, b, e)
    ensures Canonical(CutOne(r, b, e))
    ensures forall i :: 0 <= i < |CutOne(r, b, e)| ==>
      r.begin <= CutOne(r, b, e)[i].begin && CutOne(r, b, e)[i].End() <= r.End()
  {
    if r.begin < b < r.End() {
      WholePages(r.begin, b);
    }
    if r.begin < e < r.End() {
      WholePages(e, r.End());
    }
  }

  lemma CutOneCovers(r: Region, b: nat, e: nat, a: int)
    requires Proper(r) && Clean(r, b, e)
    ensures Covers(CutOne(r, b, e), a) <==> In(r, a) && !(b <= a < e)
  {
    var left, right := r.begin < b < r.End(), r.begin < e < r.End();
    if left {
      WholePages(r.begin, b);
    }
    if right {
      WholePages(e, r.End());
    }
    if left && right {
      CoversTwo(Region(r.begin, (b - r.begin) / 4096), Region(e, (r.End() - e) / 4096), a);
    } else if left {
      CoversOne(Region(r.begin, (b - r.begin) / 4096), a);
    } else if right {
      CoversOne(Region(e, (r.End() - e) / 4096), a);
    } else {
      UncutCovers(r, b, e, a);
    }
  }

  lemma UncutCovers(r: Region, b: nat, e: nat, a: int)
    requires b <= e && !Cuts(r, b, e)
    ensures Covers(CutOne(r, b, e), a) <==> In(r, a) && !(b <= a < e)
  {
    CoversOne(r, a);
  }

  /** Cutting [b, e) out of a canonical list leaves a canonical list that covers exactly
      the other addresses, and no region of it reaches below the original first one. */
  lemma {:induction false} CutRemoves(rs: seq<Region>, b: nat, e: nat)
    requires Canonical(rs) && forall i :: 0 <= i < |rs| ==> Clean(rs[i], b, e)
    ensures Canonical(Cut(rs, b, e))
    ensures forall a :: Covers(Cut(rs, b, e), a) <==> Covers(rs, a) && !(b <= a < e)
    ensures rs != [] ==> forall i :: 0 <= i < |Cut(rs, b, e)| ==> rs[0].begin <= Cut(rs, b, e)[i].begin
  {
    if rs != [] {
      CanonicalTail(rs);
      CutOneProper(rs[0], b, e);
      CutRemoves(rs[1..], b, e);
      CatCanonical(CutOne(rs[0], b, e), Cut(rs[1..], b, e));
      forall a
        ensures Covers(Cut(rs, b, e), a) <==> Covers(rs, a) && !(b <= a < e)
      {
        CutOneCovers(rs[0], b, e, a);
        CoversCat(CutOne(rs[0], b, e), Cut(rs[1..], b, e), a);
        CoversCons(rs[0], rs[1..], a);
      }
    }
  }

  /** Regions at or above e are left alone. */
  lemma {:induction false} CutAbove(rs: seq<Region>, b: nat, e: nat)
    requires Gapped(rs) && (rs != [] ==> e <= rs[0].begin)
    ensures Cut(rs, b, e) == rs
  {
    if rs != [] {
      assert Gapped(rs[1..]);
      if rs[1..] != [] {
        assert rs[0].End() < rs[1].begin;
      }
      CutAbove(rs[1..], b, e);
      assert CutOne(rs[0], b, e) == [rs[0]];
    }
  }

  // ---------- ranges that do not start on a page boundary ----------

  /** The cut takes exactly [b, e) out of the region. */
  ghost predicate CutsOneExactly(r: Region, b: nat, e: nat) {
    forall a :: Covers(CutOne(r, b, e), a) <==> In(r, a) && !(b <= a < e)
  }

  /** The whole-page arithmetic cuts exactly the range out of a region if and only if the
      range starts on a page boundary or has no end inside the region. (The code halts on an
      unaligned start inside a region, so of these failures it reaches the one at the end of
      the range; Calls.MunmapCovers.) */
  lemma CutOneExact(r: Region, b: nat, n: nat)
    requires Proper(r) && n > 0
    ensures CutsOneExactly(r, b, b + n * 4096) <==> b % 4096 == 0 || !Cuts(r, b, b + n * 4096)
  {
    var e := b + n * 4096;
    assert b % 4096 == e % 4096;
    if b % 4096 == 0 || !Cuts(r, b, e) {
      CleanExact(r, b, e);
    } else if r.begin < b < r.End() {
      LowPieceShort(r, b, e);
    } else {
      HighPieceShort(r, b, e);
    }
  }

  lemma CleanExact(r: Region, b: nat, e: nat)
    requires Proper(r) && Clean(r, b, e)
    ensures CutsOneExactly(r, b, e)
  {
    forall a
      ensures Covers(CutOne(r, b, e), a) <==> In(r, a) && !(b <= a < e)
    {
      CutOneCovers(r, b, e, a);
    }
  }

  /** The piece kept below an unaligned start loses its last, partial page. */
  lemma LowPieceShort(r: Region, b: nat, e: nat)
    requires Proper(r) && b < e && b % 4096 != 0 && r.begin < b < r.End()
    ensures In(r, b - 1) && !Covers(CutOne(r, b, e), b - 1)
  {
    var left := Region(r.begin, (b - r.begin) / 4096);
    var out := CutOne(r, b, e);
    assert left.End() < b;
    forall i | 0 <= i < |out|
      ensures !In(out[i], b - 1)
    {
    }
  }

  /** The piece kept above an unaligned end loses the same number of bytes at its end. */
  lemma HighPieceShort(r: Region, b: nat, e: nat)
    requires Proper(r) && b < e && e % 4096 != 0 && b <= r.begin < e < r.End()
    ensures In(r, r.End() - 1) && !Covers(CutOne(r, b, e), r.End() - 1) && !(b <= r.End() - 1 < e)
  {
    var right := Region(e, (r.End() - e) / 4096);
    assert CutOne(r, b, e) == [right];
    assert right.End() < r.End();
    forall i | 0 <= i < |CutOne(r, b, e)|
      ensures !In(CutOne(r, b, e)[i], r.End() - 1)
    {
    }
  }

  /** No piece of a cut lies outside the region it was cut from. */
  lemma CutOneWithin(r: Region, b: nat, e: nat, a: int)
    requires Proper(r) && b < e && Covers(CutOne(r, b, e), a)
    ensures In(r, a)
  {
  }

  lemma {:induction false} CutWithin(rs: seq<Region>, b: nat, e: nat, a: int)
    requires Canonical(rs) && b < e && Covers(Cut(rs, b, e), a)
    ensures Covers(rs, a)
  {
    CanonicalTail(rs);
    CoversCons(rs[0], rs[1..], a);
    CoversCat(CutOne(rs[0], b, e), Cut(rs[1..], b, e), a);
    if Covers(CutOne(rs[0], b, e), a) {
      CutOneWithin(rs[0], b, e, a);
    } else {
      CutWithin(rs[1..], b, e, a);
    }
  }

  /** The cut takes exactly [b, e) out of the list. */
  ghost predicate CutsExactly(rs: seq<Region>, b: nat, e: nat) {
    forall a :: Covers(Cut(rs, b, e), a) <==> Covers(rs, a) && !(b <= a < e)
  }

  /** Regions are apart, so a list is cut exactly when each of its regions is. */
  lemma CutApart(rs: seq<Region>, b: nat, e: nat, a: int)
    requires Canonical(rs) && b < e && rs != []
    ensures Covers(rs, a) <==> In(rs[0], a) || Covers(rs[1..], a)
    ensures Covers(Cut(rs, b, e), a) <==> Covers(CutOne(rs[0], b, e), a) || Covers(Cut(rs[1..], b, e), a)
    ensures !(In(rs[0], a) && Covers(rs[1..], a))
    ensures Covers(CutOne(rs[0], b, e), a) ==> In(rs[0], a)
    ensures Covers(Cut(rs[1..], b, e), a) ==> Covers(rs[1..], a)
  {
    CanonicalTail(rs);
    CoversCons(rs[0], rs[1..], a);
    CoversCat(CutOne(rs[0], b, e), Cut(rs[1..], b, e), a);
    if Covers(CutOne(rs[0], b, e), a) {
      CutOneWithin(rs[0], b, e, a);
    }
    if Covers(Cut(rs[1..], b, e), a) {
      CutWithin(rs[1..], b, e, a);
    }
  }

  lemma CutsExactlyCons(rs: seq<Region>, b: nat, e: nat)
    requires Canonical(rs) && b < e && rs != []
    ensures CutsExactly(rs, b, e) <==> CutsOneExactly(rs[0], b, e) && CutsExactly(rs[1..], b, e)
  {
    forall a
      ensures (Covers(Cut(rs, b, e), a) <==> Covers(rs, a) && !(b <= a < e))
              <==> (Covers(CutOne(rs[0], b, e), a) <==> In(rs[0], a) && !(b <= a < e))
                   && (Covers(Cut(rs[1..], b, e), a) <==> Covers(rs[1..], a) && !(b <= a < e))
    {
      CutApart(rs, b, e, a);
    }
  }

  predicate NoneCut(rs: seq<Region>, b: nat, e: nat) {
    forall i :: 0 <= i < |rs| ==> !Cuts(rs[i], b, e)
  }

  lemma NoneCutCons(rs: seq<Region>, b: nat, e: nat)
    requires rs != []
    ensures NoneCut(rs, b, e) <==> !Cuts(rs[0], b, e) && NoneCut(rs[1..], b, e)
  {
    assert forall i :: 1 <= i < |rs| ==> rs[i] == rs[1..][i - 1];
  }

  /** The same for a list. */
  lemma {:induction false} CutExact(rs: seq<Region>, b: nat, n: nat)
    requires Canonical(rs) && n > 0
    ensures CutsExactly(rs, b, b + n * 4096) <==> b % 4096 == 0 || NoneCut(rs, b, b + n * 4096)
  {
    var e := b + n * 4096;
    if rs != [] {
      CanonicalTail(rs);
      CutOneExact(rs[0], b, n);
      CutExact(rs[1..], b, n);
      CutsExactlyCons(rs, b, e);
      NoneCutCons(rs, b, e);
    }
  }
}
