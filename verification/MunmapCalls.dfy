/** uvm_munmap (src/kernel/mem/uvm.c:312-420): one pass over the region list that cuts a
    range out of it, unmapping as it goes. */
module MunmapCalls {
  import opened Layout
  import opened Outcomes
  import opened Kvm
  import opened Regions
  import opened RegionPool
  import opened RegionList
  import opened Spaces
  import opened Calls
  import opened Uvm
  import opened MmapCalls

  // ---------- one region against the range ----------

  function From(r: Region, b: nat): nat { if r.begin < b then b else r.begin }

  function To(r: Region, e: nat): nat { if e < r.End() then e else r.End() }

  /** The pages of r inside [b, e). */
  ghost function OnePages(r: Region, b: nat, e: nat): set<nat> {
    Pages(Page(From(r, b)), Page(To(r, e)))
  }

  lemma InOnePages(r: Region, b: nat, e: nat, v: nat)
    requires b <= e && (Proper(r) || e <= r.begin)
    ensures v in OnePages(r, b, e) <==> Between(b / 4096, v, e / 4096) && In(r, v * 4096)
  {
    assert v in OnePages(r, b, e) <==> Between(Page(From(r, b)), v, Page(To(r, e)));
  }

  lemma NoPagesOutside(r: Region, b: nat, e: nat)
    requires b <= e && ((Proper(r) && r.End() <= b) || e <= r.begin)
    ensures OnePages(r, b, e) == {}
  {
    forall v
      ensures v !in OnePages(r, b, e)
    {
      if v in OnePages(r, b, e) {
        InOnePages(r, b, e, v);
        assert false;
      }
    }
  }

  lemma CutPagesCons(r: Region, rest: seq<Region>, b: nat, e: nat)
    requires b <= e && (Proper(r) || e <= r.begin)
    ensures CutPages([r] + rest, b, e) == OnePages(r, b, e) + CutPages(rest, b, e)
  {
    forall v: nat
      ensures v in CutPages([r] + rest, b, e) <==> v in OnePages(r, b, e) || v in CutPages(rest, b, e)
    {
      CoversCons(r, rest, v * 4096);
      InOnePages(r, b, e, v);
      assert v in CutPages(rest, b, e) <==> Between(b / 4096, v, e / 4096) && IsMmap(rest, v);
      assert v in CutPages([r] + rest, b, e) <==> Between(b / 4096, v, e / 4096) && IsMmap([r] + rest, v);
    }
  }

  lemma HaltsCons(r: Region, rest: seq<Region>, b: nat, e: nat)
    ensures AnyHalts([r] + rest, b, e) <==> Halts(r, b, e) || AnyHalts(rest, b, e)
  {
    var all := [r] + rest;
    assert all[0] == r && all[1..] == rest;
    if AnyHalts(rest, b, e) {
      var i :| 0 <= i < |rest| && Halts(rest[i], b, e);
      assert Halts(all[i + 1], b, e);
    }
  }

  predicate Meets(r: Region, b: nat, e: nat) { b < r.End() && r.begin < e }

  /** The arithmetic of a region that the range meets and that does not halt the pass. */
  lemma OneCase(r: Region, b: nat, e: nat)
    requires Proper(r) && Meets(r, b, e) && b <= e && (e - b) % 4096 == 0 && !Halts(r, b, e)
    ensures var lo, hi := From(r, b), To(r, e);
      && lo % 4096 == 0 && lo < hi && Page(hi) <= TF_PAGE && hi <= MMAP_END
      && OnePages(r, b, e) == Pages(Page(lo), Page(lo) + (hi - lo) / 4096)
      && 0 < (hi - lo) / 4096 * 4096 && Bytes32((hi - lo) / 4096) == (hi - lo) / 4096 * 4096
    ensures OnePages(r, b, e) != {}
  {
    var lo, hi := From(r, b), To(r, e);
    assert Page(hi) == Page(lo) + (hi - lo) / 4096;
    assert Between(Page(lo), Page(lo), Page(hi));
    assert Page(lo) in OnePages(r, b, e);
  }

  // ---------- how far the pass has come ----------

  /** What a pass is about: the regions, the free nodes and the list behind the dummy head that it
      started with, the range [b, e), the page table at the start, and the first node. */
  datatype Pass = Pass(original: seq<Region>, free: seq<MmapRegion>, list: seq<MmapRegion>, b: nat, e: nat,
                       base: Snapshot, dummy: MmapRegion, first: MmapRegion?) {
    ghost predicate Ok() { b <= e && (e - b) % 4096 == 0 }

    ghost function Nodes(): nat { |free| }

    ghost function Total(): nat { 1 + |original| + Nodes() }

    ghost predicate Sound() { Nodes() > 0 || forall i: nat :: !StrictlyInside(original, b, e, i) }

    /** The list at the start: behind the dummy nodes of the pool, none of them free. */
    ghost predicate Begun(nodes: set<MmapRegion>) {
      list != [] && list[0] == dummy && RegionList.Roster(nodes, free, list) && FromPool(nodes, free)
    }
  }

  ghost predicate FromPool(nodes: set<MmapRegion>, free: seq<MmapRegion>) {
    forall k {:trigger Opened(Closed.Roster, k)} :: Sealed(Closed.Roster, k) ==> forall n :: n in free ==> n in nodes
  }

  /** What a cut has left of a region's end. */
  predicate Leftover(r: Region, b: nat, e: nat) { b < e <= r.begin && b <= MMAP_END }

  /** Regions still to be looked at: proper ones, except for a leftover in front. */
  predicate Ahead(rest: seq<Region>, b: nat, e: nat) {
    Gapped(rest) && forall i :: 0 <= i < |rest| ==> Proper(rest[i]) || (i == 0 && Leftover(rest[i], b, e))
  }

  /** The pass has dealt with everything before `rest`, leaving `kept` and dropping the pages
      `done`; whether it will halt is decided by what is left. */
  ghost predicate CutSoFar(c: Pass, kept: seq<Region>, rest: seq<Region>, done: set<nat>) {
    forall k {:trigger Opened(Closed.Cutting, k)} :: Sealed(Closed.Cutting, k) ==>
      && Ahead(rest, c.b, c.e)
      && Cut(c.original, c.b, c.e) == kept + Cut(rest, c.b, c.e)
      && CutPages(c.original, c.b, c.e) == done + CutPages(rest, c.b, c.e)
      && (AnyHalts(c.original, c.b, c.e) <==> AnyHalts(rest, c.b, c.e))
  }

  lemma CutStart(c: Pass)
    requires Canonical(c.original)
    ensures CutSoFar(c, [], c.original, {})
  {
    assert [] + Cut(c.original, c.b, c.e) == Cut(c.original, c.b, c.e);
    assert Ahead(c.original, c.b, c.e);
  }

  lemma AheadTail(r: Region, rest: seq<Region>, b: nat, e: nat)
    requires Ahead([r] + rest, b, e)
    ensures Ahead(rest, b, e) && (Proper(r) || Leftover(r, b, e))
    ensures forall i :: 0 <= i < |rest| ==> Proper(rest[i]) && r.End() < rest[i].begin
  {
    var all := [r] + rest;
    assert all[0] == r && forall i :: 0 <= i < |rest| ==> rest[i] == all[i + 1];
  }

  lemma MoveOut(kept: seq<Region>, out: seq<Region>, xs: seq<Region>, ys: seq<Region>, all: seq<Region>)
    requires all == kept + ys && ys == out + xs
    ensures all == kept + out + xs
  {
  }

  /** Dealing with one more region. */
  lemma CutAdvance(c: Pass, kept: seq<Region>, r: Region, rest: seq<Region>, done: set<nat>)
    requires CutSoFar(c, kept, [r] + rest, done) && c.Ok() && !Halts(r, c.b, c.e)
    ensures CutSoFar(c, kept + CutOne(r, c.b, c.e), rest, done + OnePages(r, c.b, c.e))
  {
    assert Opened(Closed.Cutting, 0);
    var b, e, out := c.b, c.e, CutOne(r, c.b, c.e);
    AheadTail(r, rest, b, e);
    CutPagesCons(r, rest, b, e);
    HaltsCons(r, rest, b, e);
    CutCons(r, rest, b, e);
    MoveOut(kept, out, Cut(rest, b, e), Cut([r] + rest, b, e), Cut(c.original, b, e));
    assert CutPages(c.original, b, e) == (done + OnePages(r, b, e)) + CutPages(rest, b, e);
  }

  lemma CutCons(r: Region, rest: seq<Region>, b: nat, e: nat)
    ensures Cut([r] + rest, b, e) == CutOne(r, b, e) + Cut(rest, b, e)
  {
    assert ([r] + rest)[1..] == rest && ([r] + rest)[0] == r;
  }

  lemma AheadMore(r: Region, rest: seq<Region>, b: nat, e: nat)
    requires Ahead(rest, b, e) && Leftover(r, b, e) && (rest != [] ==> r.End() < rest[0].begin && Proper(rest[0]))
    ensures Ahead([r] + rest, b, e)
  {
    var all := [r] + rest;
    forall j | 1 <= j < |all|
      ensures r.End() < all[j].begin && Proper(all[j])
    {
      assert all[j] == rest[j - 1];
      assert j > 1 ==> rest[0].End() < rest[j - 1].begin;
    }
    forall i, j | 1 <= i < j < |all|
      ensures all[i].End() < all[j].begin
    {
      assert all[i] == rest[i - 1] && all[j] == rest[j - 1];
    }
  }

  lemma CutMore(r: Region, rest: seq<Region>, b: nat, e: nat)
    requires b <= e <= r.begin
    ensures Cut([r] + rest, b, e) == [r] + Cut(rest, b, e) && OnePages(r, b, e) == {}
  {
    assert ([r] + rest)[1..] == rest && ([r] + rest)[0] == r;
    NoPagesOutside(r, b, e);
  }

  lemma PagesMore(r: Region, rest: seq<Region>, b: nat, e: nat)
    requires b <= e <= r.begin
    ensures CutPages([r] + rest, b, e) == CutPages(rest, b, e)
    ensures AnyHalts([r] + rest, b, e) <==> AnyHalts(rest, b, e)
  {
    CutPagesCons(r, rest, b, e);
    CutMore(r, rest, b, e);
    HaltsCons(r, rest, b, e);
  }

  lemma RetreatAhead(c: Pass, kept: seq<Region>, r: Region, rest: seq<Region>, done: set<nat>)
    requires CutSoFar(c, kept + [r], rest, done) && Leftover(r, c.b, c.e)
    requires rest != [] ==> r.End() < rest[0].begin && Proper(rest[0])
    ensures Ahead([r] + rest, c.b, c.e)
  {
    assert Opened(Closed.Cutting, 0);
    AheadMore(r, rest, c.b, c.e);
  }

  lemma MoveOver(kept: seq<Region>, r: Region, xs: seq<Region>, ys: seq<Region>, all: seq<Region>)
    requires all == kept + [r] + xs && ys == [r] + xs
    ensures all == kept + ys
  {
  }

  lemma RetreatCut(c: Pass, kept: seq<Region>, r: Region, rest: seq<Region>, done: set<nat>)
    requires CutSoFar(c, kept + [r], rest, done) && c.Ok() && c.e <= r.begin
    ensures Cut(c.original, c.b, c.e) == kept + Cut([r] + rest, c.b, c.e)
    ensures CutPages(c.original, c.b, c.e) == done + CutPages([r] + rest, c.b, c.e)
    ensures AnyHalts(c.original, c.b, c.e) <==> AnyHalts([r] + rest, c.b, c.e)
  {
    assert Opened(Closed.Cutting, 0);
    CutMore(r, rest, c.b, c.e);
    PagesMore(r, rest, c.b, c.e);
    MoveOver(kept, r, Cut(rest, c.b, c.e), Cut([r] + rest, c.b, c.e), Cut(c.original, c.b, c.e));
  }

  /** What a cut leaves behind the range may be looked at again without effect. */
  lemma CutRetreat(c: Pass, kept: seq<Region>, r: Region, rest: seq<Region>, done: set<nat>)
    requires CutSoFar(c, kept + [r], rest, done) && c.Ok() && Leftover(r, c.b, c.e)
    requires rest != [] ==> r.End() < rest[0].begin && Proper(rest[0])
    ensures CutSoFar(c, kept, [r] + rest, done)
  {
    RetreatAhead(c, kept, r, rest, done);
    RetreatCut(c, kept, r, rest, done);
  }

  /** What the pass knows about the region it is looking at. */
  lemma NextRegion(c: Pass, rs: seq<Region>, k: nat, done: set<nat>)
    requires 1 <= k < |rs| && CutSoFar(c, rs[1..k], rs[k..], done)
    ensures rs[k..] == [rs[k]] + rs[k + 1..] && (Proper(rs[k]) || Leftover(rs[k], c.b, c.e))
    ensures k + 1 < |rs| ==> rs[k].End() < rs[k + 1].begin && Proper(rs[k + 1])
    ensures Halts(rs[k], c.b, c.e) ==> AnyHalts(c.original, c.b, c.e)
  {
    assert Opened(Closed.Cutting, 0);
    assert rs[k..] == [rs[k]] + rs[k + 1..];
    AheadTail(rs[k], rs[k + 1..], c.b, c.e);
    HaltsCons(rs[k], rs[k + 1..], c.b, c.e);
    if k + 1 < |rs| {
      assert rs[k + 1..][0] == rs[k + 1];
    }
  }

  /** What is still to do, as a number that every step lowers. */
  ghost function ToDo(rs: seq<Region>, k: nat, e: nat): nat
    requires k <= |rs|
  {
    2 * (|rs| - k) + if k < |rs| && rs[k].begin < e then 1 else 0
  }

  /** The pass has moved on, and the region it looks at next does not start below the range. */
  ghost predicate Onward(rs: seq<Region>, k: nat, rs': seq<Region>, k': nat, c: Pass)
    requires k <= |rs|
  {
    k' <= |rs'| && ToDo(rs', k', c.e) < ToDo(rs, k, c.e) && (k' < |rs'| ==> c.b <= rs'[k'].begin)
  }

  /** The pass stands at region k, a proper one that meets the range and does not halt it. */
  ghost predicate AtCut(c: Pass, rs: seq<Region>, k: nat, done: set<nat>) {
    && 1 <= k < |rs| && CutSoFar(c, rs[1..k], rs[k..], done) && c.Ok()
    && Meets(rs[k], c.b, c.e) && !Halts(rs[k], c.b, c.e)
  }

  /** The four ways a step changes the list, as the code's splices. */
  lemma AdvanceDrop(c: Pass, rs: seq<Region>, k: nat, done: set<nat>)
    requires AtCut(c, rs, k, done) && c.b <= rs[k].begin && rs[k].End() <= c.e
    ensures var rs' := rs[..k] + rs[k + 1..];
      CutSoFar(c, rs'[1..k], rs'[k..], done + OnePages(rs[k], c.b, c.e)) && Onward(rs, k, rs', k, c)
  {
    var rs' := rs[..k] + rs[k + 1..];
    NextRegion(c, rs, k, done);
    CutAdvance(c, rs[1..k], rs[k], rs[k + 1..], done);
    assert rs'[1..k] == rs[1..k] + [] && rs'[k..] == rs[k + 1..];
  }

  lemma AdvanceHead(c: Pass, rs: seq<Region>, k: nat, done: set<nat>)
    requires AtCut(c, rs, k, done) && c.b <= rs[k].begin && c.e < rs[k].End()
    ensures var rs' := rs[..k] + ([Region(c.e, (rs[k].End() - c.e) / 4096)] + rs[k + 1..]);
      CutSoFar(c, rs'[1..k], rs'[k..], done + OnePages(rs[k], c.b, c.e)) && Onward(rs, k, rs', k, c)
  {
    var right := Region(c.e, (rs[k].End() - c.e) / 4096);
    var rs' := rs[..k] + ([right] + rs[k + 1..]);
    NextRegion(c, rs, k, done);
    CutAdvance(c, rs[1..k], rs[k], rs[k + 1..], done);
    CutRetreat(c, rs[1..k], right, rs[k + 1..], done + OnePages(rs[k], c.b, c.e));
    assert rs'[1..k] == rs[1..k] && rs'[k..] == [right] + rs[k + 1..];
  }

  lemma AdvanceTail(c: Pass, rs: seq<Region>, k: nat, done: set<nat>)
    requires AtCut(c, rs, k, done) && rs[k].begin < c.b && rs[k].End() <= c.e
    ensures var rs' := rs[..k] + ([Region(rs[k].begin, (c.b - rs[k].begin) / 4096)] + rs[k + 1..]);
      CutSoFar(c, rs'[1..k + 1], rs'[k + 1..], done + OnePages(rs[k], c.b, c.e)) && Onward(rs, k, rs', k + 1, c)
  {
    var left := Region(rs[k].begin, (c.b - rs[k].begin) / 4096);
    var rs' := rs[..k] + ([left] + rs[k + 1..]);
    NextRegion(c, rs, k, done);
    CutAdvance(c, rs[1..k], rs[k], rs[k + 1..], done);
    assert rs'[1..k + 1] == rs[1..k] + [left] && rs'[k + 1..] == rs[k + 1..];
  }

  lemma AdvanceSplit(c: Pass, rs: seq<Region>, k: nat, done: set<nat>)
    requires AtCut(c, rs, k, done) && rs[k].begin < c.b && c.e < rs[k].End()
    ensures var rs' := rs[..k] + ([Region(rs[k].begin, (c.b - rs[k].begin) / 4096)]
                                  + ([Region(c.e, (rs[k].End() - c.e) / 4096)] + rs[k + 1..]));
      CutSoFar(c, rs'[1..k + 2], rs'[k + 2..], done + OnePages(rs[k], c.b, c.e)) && Onward(rs, k, rs', k + 2, c)
  {
    var left, right := Region(rs[k].begin, (c.b - rs[k].begin) / 4096), Region(c.e, (rs[k].End() - c.e) / 4096);
    var rs' := rs[..k] + ([left] + ([right] + rs[k + 1..]));
    NextRegion(c, rs, k, done);
    CutAdvance(c, rs[1..k], rs[k], rs[k + 1..], done);
    assert rs'[1..k + 2] == rs[1..k] + [left, right] && rs'[k + 2..] == rs[k + 1..];
  }

  lemma AllAbove(rest: seq<Region>, b: nat, e: nat)
    requires Gapped(rest) && b <= e && (rest != [] ==> e <= rest[0].begin)
    ensures CutPages(rest, b, e) == {} && !AnyHalts(rest, b, e)
  {
    forall i | 0 <= i < |rest|
      ensures e <= rest[i].begin
    {
      assert i > 0 ==> rest[0].End() < rest[i].begin;
    }
    forall v: nat | v < e / 4096
      ensures !IsMmap(rest, v)
    {
      assert v * 4096 < e;
    }
  }

  /** Nothing is left to cut from a list that starts at or above e. */
  lemma CutEnd(c: Pass, kept: seq<Region>, rest: seq<Region>, done: set<nat>)
    requires CutSoFar(c, kept, rest, done) && c.Ok() && (rest != [] ==> c.e <= rest[0].begin)
    ensures Cut(c.original, c.b, c.e) == kept + rest && CutPages(c.original, c.b, c.e) == done
    ensures !AnyHalts(c.original, c.b, c.e)
  {
    assert Opened(Closed.Cutting, 0);
    CutAbove(rest, c.b, c.e);
    AllAbove(rest, c.b, c.e);
  }

  /** The state of the pass between two steps: node k is next on the list l behind a dummy
      head, and no node has come or gone. */
  ghost predicate Cutting(p: Proc, c: Pass, l: seq<MmapRegion>, rs: seq<Region>, k: nat, done: set<nat>)
    reads p, p.pt, p.pm, p.pm.kern, p.pm.user, p.pool, p.pool.nodes, p.pool.free, l
  {
    && p.pt.pm == p.pm
    && p.pool.Valid() && Headed(p.pool, l, rs) && 1 <= k <= |l| && |l| + |p.pool.free| == c.Total()
    && CutSoFar(c, rs[1..k], rs[k..], done)
    && Shrunk(p.pt, c.base, done)
    && SameNodes(p.pool.free, l, c.free, c.list)
  }

  /** The node of region k, which meets the range. */
  ghost predicate Cuttable(p: Proc, c: Pass, cur: MmapRegion, l: seq<MmapRegion>, rs: seq<Region>, k: nat,
                           done: set<nat>)
    reads p, p.pt, p.pm, p.pm.kern, p.pm.user, p.pool, p.pool.nodes, p.pool.free, l, cur
  {
    && Cutting(p, c, l, rs, k, done) && k < |l| && cur == l[k] && Is(cur, rs[k])
    && Proper(rs[k]) && c.Ok() && Meets(rs[k], c.b, c.e)
  }

  /** vm_unmappages on a range in the mmap area. */
  method ReleaseBelow(pt: PageTable, va: nat, len: nat, ghost base: Snapshot, ghost done: set<nat>)
    returns (r: Outcome<()>)
    requires Shrunk(pt, base, done) && len % 4096 == 0 && va + len <= MMAP_END && Page(va) + len / 4096 <= TF_PAGE
    modifies pt`flat, pt.pm, pt.pm.user
    ensures r.Panicked? <==> va % 4096 != 0 || len == 0
    ensures r.Returned? ==> Shrunk(pt, base, done + Pages(Page(va), Page(va) + len / 4096))
  {
    r := TryRelease(pt, va, len, base, done);
  }

  /** uvm.c:345-351, the range covers the whole region. */
  method CutWhole(p: Proc, pre: MmapRegion, cur: MmapRegion,
                  ghost c: Pass, ghost l: seq<MmapRegion>, ghost rs: seq<Region>, ghost k: nat, ghost done: set<nat>)
    returns (ghost l': seq<MmapRegion>, ghost rs': seq<Region>)
    requires Cuttable(p, c, cur, l, rs, k, done) && pre == l[k - 1] && c.b <= rs[k].begin && rs[k].End() <= c.e
    modifies p.pt`flat, p.pm, p.pm.user, p.pool, pre`next, cur`freeNext
    ensures Cutting(p, c, l', rs', k, done + OnePages(rs[k], c.b, c.e)) && Onward(rs, k, rs', k, c)
    ensures l' == l[..k] + l[k + 1..]
  {
    OneCase(rs[k], c.b, c.e);
    Release(p.pt, cur.begin, Bytes32(cur.npages), c.base, done);
    SameDrop(p.pool.free, l, k);
    SameTrans([cur] + p.pool.free, l[..k] + l[k + 1..], p.pool.free, l, c.free, c.list);
    l', rs' := DropNode(p.pool, pre, cur, l, rs, k);
    AdvanceDrop(c, rs, k, done);
  }

  /** uvm.c:379-389, the range covers the start of the region: the rest moves up and is
      looked at again. */
  method CutHead(p: Proc, cur: MmapRegion, end: nat,
                 ghost c: Pass, ghost l: seq<MmapRegion>, ghost rs: seq<Region>, ghost k: nat, ghost done: set<nat>)
    returns (r: Outcome<()>, ghost rs': seq<Region>)
    requires Cuttable(p, c, cur, l, rs, k, done) && end == c.e && c.b <= rs[k].begin && end < rs[k].End()
    modifies p.pt`flat, p.pm, p.pm.user, cur`begin, cur`npages
    ensures r.Panicked? <==> Halts(rs[k], c.b, c.e)
    ensures r.Returned? ==> Cutting(p, c, l, rs', k, done + OnePages(rs[k], c.b, c.e)) && Onward(rs, k, rs', k, c)
  {
    rs' := rs;
    ProperBytes(rs[k]);
    HeadSize(rs[k], c.b, c.e);
    var curEnd := cur.begin + Bytes32(cur.npages);
    var unmapNpages := (end - cur.begin) / 4096;
    r := ReleaseBelow(p.pt, cur.begin, Bytes32(unmapNpages), c.base, done);
    if r.Returned? {
      rs' := TrimNode(p.pool, cur, end, (curEnd - end) / 4096, l, rs, k);
      AdvanceHead(c, rs, k, done);
    }
  }

  lemma HeadSize(r: Region, b: nat, e: nat)
    requires Proper(r) && b <= r.begin < e < r.End() && (e - b) % 4096 == 0
    ensures var bytes := Bytes32((e - r.begin) / 4096);
      && bytes % 4096 == 0 && r.begin + bytes <= MMAP_END && Page(r.begin) + bytes / 4096 <= TF_PAGE
      && (bytes == 0 <==> Halts(r, b, e))
      && r.begin % 4096 == 0
      && (bytes != 0 ==> Pages(Page(r.begin), Page(r.begin) + bytes / 4096) == OnePages(r, b, e))
  {
    if !Halts(r, b, e) {
      OneCase(r, b, e);
    }
  }

  /** uvm.c:392-403, the range covers the end of the region. */
  method CutTail(p: Proc, cur: MmapRegion, begin: nat,
                 ghost c: Pass, ghost l: seq<MmapRegion>, ghost rs: seq<Region>, ghost k: nat, ghost done: set<nat>)
    returns (r: Outcome<()>, ghost rs': seq<Region>)
    requires Cuttable(p, c, cur, l, rs, k, done) && begin == c.b && rs[k].begin < begin && rs[k].End() <= c.e
    modifies p.pt`flat, p.pm, p.pm.user, cur`begin, cur`npages
    ensures r.Panicked? <==> Halts(rs[k], c.b, c.e)
    ensures r.Returned? ==>
      Cutting(p, c, l, rs', k + 1, done + OnePages(rs[k], c.b, c.e)) && Onward(rs, k, rs', k + 1, c)
  {
    rs' := rs;
    ProperBytes(rs[k]);
    TailSize(rs[k], c.b, c.e);
    var curEnd := cur.begin + Bytes32(cur.npages);
    var unmapNpages := (curEnd - begin) / 4096;
    r := ReleaseBelow(p.pt, begin, Bytes32(unmapNpages), c.base, done);
    if r.Returned? {
      rs' := TrimNode(p.pool, cur, cur.begin, (begin - cur.begin) / 4096, l, rs, k);
      AdvanceTail(c, rs, k, done);
    }
  }

  lemma TailSize(r: Region, b: nat, e: nat)
    requires Proper(r) && r.begin < b < r.End() <= e && (e - b) % 4096 == 0
    ensures var bytes := Bytes32((r.End() - b) / 4096);
      && bytes % 4096 == 0 && b + bytes <= MMAP_END && Page(b) + bytes / 4096 <= TF_PAGE
      && (b % 4096 != 0 || bytes == 0 <==> Halts(r, b, e))
      && (!Halts(r, b, e) ==> Pages(Page(b), Page(b) + bytes / 4096) == OnePages(r, b, e))
  {
    if !Halts(r, b, e) {
      OneCase(r, b, e);
    }
  }

  /** uvm.c:354-376, the range lies strictly inside the region. Without a free node the
      region has already lost everything from `begin` on when the pass gives up; with one, the
      pass halts on an unaligned or empty range after it has split the region. */
  method CutInside(p: Proc, cur: MmapRegion, begin: nat, end: nat, bytes: nat,
                   ghost c: Pass, ghost l: seq<MmapRegion>, ghost rs: seq<Region>, ghost k: nat, ghost done: set<nat>)
    returns (r: Outcome<()>, node: MmapRegion?, ghost l': seq<MmapRegion>, ghost rs': seq<Region>)
    requires Cuttable(p, c, cur, l, rs, k, done) && begin == c.b && end == c.e && bytes == end - begin
    requires rs[k].begin < begin && end < rs[k].End()
    modifies p.pt`flat, p.pm, p.pm.user, p.pool, p.pool.free, cur`begin, cur`npages, cur`next
    ensures node == null <==> old(p.pool.free) == []
    ensures r.Panicked? <==> node != null && Halts(rs[k], c.b, c.e)
    ensures node == null ==>
      && p.pt.pm == p.pm && p.pool.Valid() && Shrunk(p.pt, c.base, done) && p.pool.free == []
      && SameNodes(p.pool.free, l, c.free, c.list)
      && Headed(p.pool, l, rs') && rs' == rs[..k] + ([Region(rs[k].begin, (begin - rs[k].begin) / 4096)] + rs[k + 1..])
    ensures node != null && r.Returned? ==>
      && Cutting(p, c, l', rs', k + 2, done + OnePages(rs[k], c.b, c.e))
      && l'[0] == l[0] && k + 1 < |l'| && l'[k + 1] == node
      && Onward(rs, k, rs', k + 2, c)
  {
    r := Returned(());
    node, l', rs' := SplitNode(p.pool, cur, begin, end, l, rs, k);
    if node == null {
      return;
    }
    SameAdd(p.pool.free, l, k + 1, node);
    SameTrans(p.pool.free, l', [node] + p.pool.free, l, c.free, c.list);
    InsideSize(rs[k], c.b, c.e);
    r := ReleaseBelow(p.pt, begin, bytes, c.base, done);
    if r.Returned? {
      AdvanceSplit(c, rs, k, done);
    }
  }

  lemma InsideSize(r: Region, b: nat, e: nat)
    requires Proper(r) && r.begin < b <= e < r.End() && (e - b) % 4096 == 0
    ensures e <= MMAP_END && Page(b) + (e - b) / 4096 <= TF_PAGE && (b % 4096 != 0 || e == b <==> Halts(r, b, e))
    ensures !Halts(r, b, e) ==> Pages(Page(b), Page(b) + (e - b) / 4096) == OnePages(r, b, e)
  {
    if !Halts(r, b, e) {
      OneCase(r, b, e);
    }
  }

  // ---------- when the pass can fail ----------

  /** Either the pass has only skipped regions below the range so far, or no split will fail:
      a node is there, or no region needs one. */
  ghost predicate Phase(c: Pass, rs: seq<Region>, k: nat, done: set<nat>)
    requires 1 <= k <= |rs|
  {
    || (rs[1..] == c.original && done == {} && forall j :: 0 <= j < k - 1 ==> c.original[j].End() <= c.b)
    || (c.Sound() && (k < |rs| ==> c.b <= rs[k].begin))
  }

  lemma SkipAdvance(c: Pass, rs: seq<Region>, k: nat, done: set<nat>)
    requires 1 <= k < |rs| && CutSoFar(c, rs[1..k], rs[k..], done) && Phase(c, rs, k, done)
    requires c.Ok() && rs[k].End() <= c.b && Proper(rs[k])
    ensures CutSoFar(c, rs[1..k + 1], rs[k + 1..], done) && Phase(c, rs, k + 1, done)
  {
    NextRegion(c, rs, k, done);
    CutAdvance(c, rs[1..k], rs[k], rs[k + 1..], done);
    assert rs[1..k + 1] == rs[1..k] + [rs[k]];
    NoPagesOutside(rs[k], c.b, c.e);
    assert done + {} == done;
    assert rs[1..][k - 1] == rs[k];
  }

  /** Once a region meets the range and does not need a missing node, no region does. */
  lemma PhaseMeets(c: Pass, rs: seq<Region>, k: nat, done: set<nat>)
    requires 1 <= k < |rs| && Phase(c, rs, k, done) && Gapped(c.original)
    requires c.Ok() && rs[k].End() > c.b && (c.Nodes() > 0 || !(rs[k].begin < c.b && c.e < rs[k].End()))
    ensures c.Sound()
  {
    assert rs[1..][k - 1] == rs[k];
    if c.Nodes() == 0 && rs[1..] == c.original && forall j :: 0 <= j < k - 1 ==> c.original[j].End() <= c.b {
      forall i: nat
        ensures !StrictlyInside(c.original, c.b, c.e, i)
      {
        assert k - 1 < i < |c.original| ==> c.original[k - 1].End() < c.original[i].begin;
      }
    }
  }

  /** A split without a node happens only while the list is still the original one. */
  lemma PhaseFails(c: Pass, rs: seq<Region>, k: nat, done: set<nat>)
    requires 1 <= k < |rs| && Phase(c, rs, k, done) && c.Nodes() == 0
    requires rs[k].begin < c.b && c.e < rs[k].End()
    ensures done == {} && StrictlyInside(c.original, c.b, c.e, k - 1)
    ensures var left := Region(c.original[k - 1].begin, (c.b - c.original[k - 1].begin) / 4096);
      left == Region(rs[k].begin, (c.b - rs[k].begin) / 4096)
      && (rs[..k] + ([left] + rs[k + 1..]))[1..] == c.original[k - 1 := left]
  {
    assert rs[1..][k - 1] == rs[k];
  }

  /** A finished pass never needed a missing node. */
  lemma PhaseEnds(c: Pass, rs: seq<Region>, k: nat, done: set<nat>)
    requires 1 <= k <= |rs| && Phase(c, rs, k, done) && Gapped(c.original) && c.Ok()
    requires (k < |rs| ==> c.e <= rs[k].begin)
    ensures c.Sound()
  {
    if rs[1..] == c.original && forall j :: 0 <= j < k - 1 ==> c.original[j].End() <= c.b {
      forall i: nat
        ensures !StrictlyInside(c.original, c.b, c.e, i)
      {
        assert k < |rs| ==> rs[1..][k - 1] == rs[k];
        assert k - 1 < i < |c.original| ==> c.original[k - 1].End() < c.original[i].begin;
      }
    }
  }

  // ---------- the loop ----------

  datatype Verdict = Continue | Break | Fail | Halt

  /** pre and cur are where the pass stands on the list. */
  ghost predicate Stands(l: seq<MmapRegion>, k: nat, pre: MmapRegion, cur: MmapRegion?) {
    1 <= k <= |l| && pre == l[k - 1] && cur == Next(l, k - 1, null)
  }

  /** The invariant of the loop. */
  ghost predicate Passing(p: Proc, c: Pass, pre: MmapRegion, cur: MmapRegion?, l: seq<MmapRegion>, rs: seq<Region>,
                          k: nat, done: set<nat>)
    reads p, p.pt, p.pm, p.pm.kern, p.pm.user, p.pool, p.pool.nodes, p.pool.free, l
  {
    && |rs| == |l| && Stands(l, k, pre, cur) && c.dummy == l[0] && (done == {} ==> Next(l, 0, null) == c.first)
    && forall j {:trigger Opened(Closed.Passing, j)} :: Sealed(Closed.Passing, j) ==>
         Cutting(p, c, l, rs, k, done) && Phase(c, rs, k, done)
  }

  /** The range of a pass as the code has it: `end` may have wrapped. */
  ghost predicate Ranged(c: Pass, begin: nat, end: nat, bytes: nat) {
    && c.Ok() && Gapped(c.original) && begin == c.b && bytes == c.e - c.b && (end == c.e || begin > MMAP_END)
  }

  /** The pass has given up on region k - 1 of the original list, already shortened. */
  ghost predicate Failed(p: Proc, c: Pass, l: seq<MmapRegion>, rs: seq<Region>, k: nat)
    reads p, p.pt, p.pm, p.pm.kern, p.pm.user, p.pool, p.pool.nodes, p.pool.free, l
  {
    && p.pt.pm == p.pm && p.pool.Valid() && Shrunk(p.pt, c.base, {}) && p.pool.free == [] && c.Nodes() == 0
    && Headed(p.pool, l, rs) && 1 <= k && Next(l, 0, null) == c.first
    && StrictlyInside(c.original, c.b, c.e, k - 1)
    && SameNodes(p.pool.free, l, c.free, c.list) && l[0] == c.dummy
    && rs[1..] == c.original[k - 1 := Region(c.original[k - 1].begin, (c.b - c.original[k - 1].begin) / 4096)]
  }

  /** The pass has halted the kernel: some region of the original list makes it, and no split
      had failed before. */
  ghost predicate Halted(c: Pass) {
    AnyHalts(c.original, c.b, c.e) && c.Sound()
  }

  /** The comparisons of cases 1 and 2, with the end as the code has it. */
  lemma EndBelow(c: Pass, r: Region, begin: nat, end: nat, bytes: nat)
    requires Ranged(c, begin, end, bytes) && (Proper(r) || Leftover(r, c.b, c.e))
    ensures r.begin + Bytes32(r.npages) <= begin ==> Proper(r) && r.End() <= c.b
    ensures r.begin + Bytes32(r.npages) > begin ==> end == c.e
    ensures r.begin + Bytes32(r.npages) > begin && r.begin < end ==> Proper(r) && Meets(r, c.b, c.e)
  {
    if Proper(r) {
      ProperBytes(r);
    }
  }

  /** Cases 1 and 2 of a round: skip a region below the range, stop at one above it. */
  method Visit(p: Proc, pre: MmapRegion, cur: MmapRegion, begin: nat, end: nat, bytes: nat,
               ghost c: Pass, ghost l: seq<MmapRegion>, ghost rs: seq<Region>, ghost k: nat, ghost done: set<nat>)
    returns (verdict: Verdict, pre': MmapRegion, cur': MmapRegion?,
             ghost l': seq<MmapRegion>, ghost rs': seq<Region>, ghost k': nat, ghost done': set<nat>)
    requires Passing(p, c, pre, cur, l, rs, k, done) && Ranged(c, begin, end, bytes)
    modifies p.pt`flat, p.pm, p.pm.user, p.pool, c.free, c.list
    ensures verdict.Continue? ==> Passing(p, c, pre', cur', l', rs', k', done') && ToDo(rs', k', c.e) < ToDo(rs, k, c.e)
    ensures verdict.Break? ==> Passing(p, c, pre', cur', l', rs', k', done') && k' < |rs'| && c.e <= rs'[k'].begin
    ensures verdict.Fail? ==> Failed(p, c, l', rs', k')
    ensures verdict.Halt? ==> Halted(c)
  {
    assert Opened(Closed.Passing, 0);
    NodeIs(l, rs, k);
    NextRegion(c, rs, k, done);
    EndBelow(c, rs[k], begin, end, bytes);
    var curEnd := cur.begin + Bytes32(cur.npages);
    if curEnd <= begin {
      SkipAdvance(c, rs, k, done);
      return Continue, cur, cur.next, l, rs, k + 1, done;
    }
    if cur.begin >= end {
      return Break, pre, cur, l, rs, k, done;
    }
    verdict, pre', cur', l', rs', k', done' := CutNode(p, pre, cur, begin, end, bytes, c, l, rs, k, done);
  }

  /** Case 4 of a round. */
  method SplitAt(p: Proc, pre: MmapRegion, cur: MmapRegion, begin: nat, end: nat, bytes: nat,
                 ghost c: Pass, ghost l: seq<MmapRegion>, ghost rs: seq<Region>, ghost k: nat, ghost done: set<nat>)
    returns (verdict: Verdict, pre': MmapRegion, cur': MmapRegion?, ghost l': seq<MmapRegion>, ghost rs': seq<Region>,
             ghost k': nat)
    requires Cuttable(p, c, cur, l, rs, k, done) && Phase(c, rs, k, done) && Ranged(c, begin, end, bytes) && end == c.e
    requires (done == {} ==> Next(l, 0, null) == c.first) && c.dummy == l[0]
    requires rs[k].begin < begin && end < rs[k].End()
    modifies p.pt`flat, p.pm, p.pm.user, p.pool, p.pool.free, cur`begin, cur`npages, cur`next
    ensures !verdict.Break?
    ensures verdict.Continue? ==>
      && Passing(p, c, pre', cur', l', rs', k', done + OnePages(rs[k], c.b, c.e))
      && ToDo(rs', k', c.e) < ToDo(rs, k, c.e)
    ensures verdict.Fail? ==> Failed(p, c, l', rs', k')
    ensures verdict.Halt? ==> Halted(c)
  {
    verdict, pre', cur', k' := Fail, pre, cur, k;
    NextRegion(c, rs, k, done);
    var r, node;
    r, node, l', rs' := CutInside(p, cur, begin, end, bytes, c, l, rs, k, done);
    if node == null {
      PhaseFails(c, rs, k, done);
      l' := l;
      return;
    }
    assert c.Nodes() > 0;
    PhaseMeets(c, rs, k, done);
    if r.Panicked? {
      verdict := Halt;
      return;
    }
    OneCase(rs[k], c.b, c.e);
    NodeIs(l', rs', k + 1);
    verdict, pre', cur', k' := Continue, node, node.next, k + 2;
    assert Phase(c, rs', k', done + OnePages(rs[k], c.b, c.e));
  }

  /** Case 3 of a round. */
  method DropAt(p: Proc, pre: MmapRegion, cur: MmapRegion,
                ghost c: Pass, ghost l: seq<MmapRegion>, ghost rs: seq<Region>, ghost k: nat, ghost done: set<nat>)
    returns (cur': MmapRegion?, ghost l': seq<MmapRegion>, ghost rs': seq<Region>)
    requires Cuttable(p, c, cur, l, rs, k, done) && Phase(c, rs, k, done) && Gapped(c.original)
    requires c.dummy == l[0] && pre == l[k - 1] && c.b <= rs[k].begin && rs[k].End() <= c.e
    modifies p.pt`flat, p.pm, p.pm.user, p.pool, pre`next, cur`freeNext
    ensures Passing(p, c, pre, cur', l', rs', k, done + OnePages(rs[k], c.b, c.e))
    ensures ToDo(rs', k, c.e) < ToDo(rs, k, c.e)
  {
    PhaseMeets(c, rs, k, done);
    OneCase(rs[k], c.b, c.e);
    l', rs' := CutWhole(p, pre, cur, c, l, rs, k, done);
    NodeIs(l', rs', k - 1);
    cur' := pre.next;
    assert Phase(c, rs', k, done + OnePages(rs[k], c.b, c.e));
  }

  /** Case 5 of a round. */
  method HeadAt(p: Proc, pre: MmapRegion, cur: MmapRegion, end: nat,
                ghost c: Pass, ghost l: seq<MmapRegion>, ghost rs: seq<Region>, ghost k: nat, ghost done: set<nat>)
    returns (r: Outcome<()>, ghost rs': seq<Region>)
    requires Cuttable(p, c, cur, l, rs, k, done) && Phase(c, rs, k, done) && Gapped(c.original)
    requires c.dummy == l[0] && pre == l[k - 1] && end == c.e && c.b <= rs[k].begin && end < rs[k].End()
    modifies p.pt`flat, p.pm, p.pm.user, cur`begin, cur`npages
    ensures r.Panicked? ==> Halted(c)
    ensures r.Returned? ==>
      Passing(p, c, pre, cur, l, rs', k, done + OnePages(rs[k], c.b, c.e)) && ToDo(rs', k, c.e) < ToDo(rs, k, c.e)
  {
    NextRegion(c, rs, k, done);
    PhaseMeets(c, rs, k, done);
    r, rs' := CutHead(p, cur, end, c, l, rs, k, done);
    if r.Returned? {
      OneCase(rs[k], c.b, c.e);
      assert Phase(c, rs', k, done + OnePages(rs[k], c.b, c.e));
    }
  }

  /** Case 6 of a round. */
  method TailAt(p: Proc, cur: MmapRegion, begin: nat,
                ghost c: Pass, ghost l: seq<MmapRegion>, ghost rs: seq<Region>, ghost k: nat, ghost done: set<nat>)
    returns (r: Outcome<()>, cur': MmapRegion?, ghost rs': seq<Region>)
    requires Cuttable(p, c, cur, l, rs, k, done) && Phase(c, rs, k, done) && Gapped(c.original)
    requires c.dummy == l[0] && begin == c.b && rs[k].begin < begin && rs[k].End() <= c.e
    modifies p.pt`flat, p.pm, p.pm.user, cur`begin, cur`npages
    ensures r.Panicked? ==> Halted(c)
    ensures r.Returned? ==>
      Passing(p, c, cur, cur', l, rs', k + 1, done + OnePages(rs[k], c.b, c.e))
        && ToDo(rs', k + 1, c.e) < ToDo(rs, k, c.e)
  {
    cur' := cur;
    NextRegion(c, rs, k, done);
    PhaseMeets(c, rs, k, done);
    r, rs' := CutTail(p, cur, begin, c, l, rs, k, done);
    if r.Returned? {
      OneCase(rs[k], c.b, c.e);
      NodeIs(l, rs', k);
      cur' := cur.next;
      assert Phase(c, rs', k + 1, done + OnePages(rs[k], c.b, c.e));
    }
  }

  /** Cases 3 to 6 of a round (uvm.c:345-403): the region meets the range. */
  method CutNode(p: Proc, pre: MmapRegion, cur: MmapRegion, begin: nat, end: nat, bytes: nat,
                 ghost c: Pass, ghost l: seq<MmapRegion>, ghost rs: seq<Region>, ghost k: nat, ghost done: set<nat>)
    returns (verdict: Verdict, pre': MmapRegion, cur': MmapRegion?,
             ghost l': seq<MmapRegion>, ghost rs': seq<Region>, ghost k': nat, ghost done': set<nat>)
    requires Passing(p, c, pre, cur, l, rs, k, done) && Ranged(c, begin, end, bytes) && end == c.e
    requires k < |rs| && Proper(rs[k]) && Meets(rs[k], c.b, c.e)
    modifies p.pt`flat, p.pm, p.pm.user, p.pool, c.free, c.list
    ensures !verdict.Break?
    ensures verdict.Continue? ==> Passing(p, c, pre', cur', l', rs', k', done') && ToDo(rs', k', c.e) < ToDo(rs, k, c.e)
    ensures verdict.Fail? ==> Failed(p, c, l', rs', k')
    ensures verdict.Halt? ==> Halted(c)
  {
    assert Opened(Closed.Passing, 0);
    NodeIs(l, rs, k);
    ProperBytes(rs[k]);
    SameReach(p.pool.free, l, c.free, c.list);
    verdict, pre', cur', l', rs', k', done' := Continue, pre, cur, l, rs, k, done + OnePages(rs[k], c.b, c.e);
    var curEnd := cur.begin + Bytes32(cur.npages);
    var r := Returned(());
    if begin <= cur.begin && end >= curEnd {
      cur', l', rs' := DropAt(p, pre, cur, c, l, rs, k, done);
    } else if cur.begin < begin && curEnd > end {
      verdict, pre', cur', l', rs', k' := SplitAt(p, pre, cur, begin, end, bytes, c, l, rs, k, done);
    } else if begin <= cur.begin && end < curEnd {
      r, rs' := HeadAt(p, pre, cur, end, c, l, rs, k, done);
      verdict := if r.Panicked? then Halt else Continue;
    } else if begin > cur.begin && end >= curEnd {
      r, cur', rs' := TailAt(p, cur, begin, c, l, rs, k, done);
      verdict, pre', k' := if r.Panicked? then Halt else Continue, cur, k + 1;
    } else {
      assert false;                       // the debugging case 7 cannot be reached
    }
  }

  /** What the finished pass means for the address space. */
  lemma PassMeans(s: Space, len: nat, c: Pass, rs: seq<Region>, k: nat, done: set<nat>, t: Space)
    requires PageCount32(len) > 0 && c.Ok() && c.e == RangeEnd(c.b, len) && c.original == s.regs && c.Nodes() == s.nodes
    requires Gapped(s.regs)
    requires 1 <= k <= |rs| && CutSoFar(c, rs[1..k], rs[k..], done) && Phase(c, rs, k, done)
    requires k < |rs| ==> c.e <= rs[k].begin
    requires t == s.(regs := rs[1..], flat := t.flat, uowned := t.uowned, nodes := t.nodes)
    requires |t.regs| + t.nodes == |s.regs| + s.nodes
    requires Dropped(s.flat, s.uowned, t.flat, t.uowned, done)
    ensures Munmap(s, c.b, len, t, 0)
  {
    assert rs[1..k] + rs[k..] == rs[1..];
    CutEnd(c, rs[1..k], rs[k..], done);
    PhaseEnds(c, rs, k, done);
  }

  /** What giving up means. */
  lemma FailMeans(s: Space, len: nat, k: nat, b: nat, e: nat, t: Space)
    requires PageCount32(len) > 0 && e == RangeEnd(b, len) && 1 <= k && s.nodes == 0
    requires StrictlyInside(s.regs, b, e, k - 1)
    requires t == s.(regs := s.regs[k - 1 := Region(s.regs[k - 1].begin, (b - s.regs[k - 1].begin) / 4096)],
                     flat := t.flat, uowned := t.uowned)
    requires Dropped(s.flat, s.uowned, t.flat, t.uowned, {})
    ensures Munmap(s, b, len, t, -1)
  {
    assert FramesOf(s.flat, {}) == {};
    assert t.flat == s.flat && t.uowned == s.uowned;
    assert TruncatedAt(s, b, e, t, k - 1);
  }

  /** uvm.c:319-325: the loop's invariant holds at its start. */
  lemma PassStarts(p: Proc, c: Pass, rs: seq<Region>)
    requires p.Valid() && Inv(p.View()) && HeadOf(rs, p.regs) && Headed(p.pool, [c.dummy] + p.list, rs)
    requires c == Pass(p.regs, p.pool.free, [c.dummy] + p.list, c.b, c.e, Snap(p.pt), c.dummy, p.mmap)
    ensures c.Begun(p.pool.nodes)
    ensures Passing(p, c, c.dummy, p.mmap, [c.dummy] + p.list, rs, 1, {})
  {
    var l := [c.dummy] + p.list;
    ShrunkNone(p.pt);
    CutStart(c);
    SameRefl(p.pool.free, l);
    assert forall n :: n in p.pool.free ==> n in p.pool.nodes;
    assert rs[1..1] == [] && rs[1..] == p.regs;
    assert Next(l, 0, null) == First(p.list, null);
    assert Cutting(p, c, l, rs, 1, {});
    assert Phase(c, rs, 1, {});
  }

  /** A finished list behind the dummy is the process's list. */
  ghost method Adopt(p: Proc, c: Pass, l: seq<MmapRegion>, rs: seq<Region>)
    requires p.pool.Valid() && Headed(p.pool, l, rs) && p.mmap == Next(l, 0, null)
    requires SameNodes(p.pool.free, l, c.free, c.list) && c.Begun(p.pool.nodes) && l[0] == c.dummy
    modifies p`list, p`regs
    ensures p.ListOk() && p.regs == rs[1..] && p.list == l[1..]
    ensures SameNodes(p.pool.free, p.list, c.free, c.list[1..])
  {
    assert forall n :: n in c.free ==> n in p.pool.nodes by {
      assert Opened(Closed.Roster, 0);
    }
    SameBehind(p.pool.nodes, p.pool.free, l, p.pool.free, c.free, c.list, c.free);
    SegSplit(l, rs, 1, null);
    MembersOfRoster(p.pool.nodes, p.pool.free, l);
    p.list, p.regs := l[1..], rs[1..];
  }

  /** s is the address space that the pass started on. */
  ghost predicate Started(p: Proc, c: Pass, s: Space)
    reads p, p.pt, p.pm, p.pm.kern, p.pm.user, p.pool
  {
    && c.original == s.regs && c.Nodes() == s.nodes && Gapped(s.regs) && c.Begun(p.pool.nodes)
    && s == p.View().(regs := s.regs, flat := c.base.flat, uowned := c.base.uowned, nodes := s.nodes,
                      kothers := c.base.kothers)
  }

  /** uvm.c:411: the new head of the list. */
  method Finish(p: Proc, dummy: MmapRegion, ghost pre: MmapRegion, ghost cur: MmapRegion?, ghost len: nat,
                ghost s: Space, ghost c: Pass, ghost l: seq<MmapRegion>, ghost rs: seq<Region>, ghost k: nat,
                ghost done: set<nat>)
    requires Passing(p, c, pre, cur, l, rs, k, done) && Started(p, c, s) && dummy == c.dummy && c.Ok()
    requires (k < |rs| ==> c.e <= rs[k].begin) && PageCount32(len) > 0 && c.e == RangeEnd(c.b, len)
    modifies p`mmap, p`list, p`regs
    ensures p.Valid() && Munmap(s, c.b, len, p.View(), 0)
    ensures p.Kept(c.base.mem, c.base.uowned) && SameNodes(p.pool.free, p.list, c.free, c.list[1..])
  {
    assert Opened(Closed.Passing, 0);
    assert Opened(Closed.Unmapping, 0);
    NodeIs(l, rs, 0);
    p.mmap := dummy.next;
    Adopt(p, c, l, rs);
    PassMeans(s, len, c, rs, k, done, p.View());
    SteadyLess(c.base.mem, c.base.kothers + p.pm.user.owned, p.pm.mem,
               c.base.kothers + (c.base.uowned * p.pm.user.owned));
  }

  /** uvm.c:363: give up; the head of the list has not changed. */
  ghost method GiveUp(p: Proc, len: nat, s: Space, c: Pass, l: seq<MmapRegion>, rs: seq<Region>, k: nat)
    requires Failed(p, c, l, rs, k) && Started(p, c, s) && p.mmap == c.first
    requires PageCount32(len) > 0 && c.e == RangeEnd(c.b, len)
    modifies p`list, p`regs
    ensures p.Valid() && Munmap(s, c.b, len, p.View(), -1)
    ensures p.Kept(c.base.mem, c.base.uowned) && SameNodes(p.pool.free, p.list, c.free, c.list[1..])
  {
    assert Opened(Closed.Unmapping, 0);
    Adopt(p, c, l, rs);
    FailMeans(s, len, k, c.b, c.e, p.View());
    SteadyLess(c.base.mem, c.base.kothers + p.pm.user.owned, p.pm.mem,
               c.base.kothers + (c.base.uowned * p.pm.user.owned));
  }

  /** The range as the code computes it. */
  lemma RangeIs(begin: nat, len: nat, c: Pass)
    requires begin < TWO64 && Gapped(c.original) && c.b == begin && c.e == RangeEnd(begin, len)
    ensures var bytes := Bytes32(PageCount32(len)); Ranged(c, begin, (begin + bytes) % 0x1_0000_0000_0000_0000, bytes)
  {
    BytesSeen(PageCount32(len));
    SeenExact(PageCount32(len));
  }

  /** uvm_munmap (uvm.c:312-420), for every start address and every length. It halts exactly
      when MunmapHalts says so; otherwise it returns what Munmap says. */
  method UvmMunmap(p: Proc, begin: nat, len: nat) returns (r: Outcome<int>)
    requires p.Valid() && Inv(p.View()) && begin < TWO64 && len < TWO64
    modifies p`mmap, p`list, p`regs, p.pt`flat, p.pm, p.pm.user, p.pool, p.pool.free, p.list
    ensures r.Panicked? <==> MunmapHalts(old(p.View()), begin, len)
    ensures r.Returned? ==>
      && p.Valid() && Munmap(old(p.View()), begin, len, p.View(), r.value)
      && p.Kept(old(p.pm.mem), old(p.pm.user.owned))
      && SameNodes(p.pool.free, p.list, old(p.pool.free), old(p.list))
  {
    var npages := PageCount32(len);
    var end := (begin + Bytes32(npages)) % 0x1_0000_0000_0000_0000;
    ghost var s, base := p.View(), Snap(p.pt);
    if npages == 0 {
      SteadyRefl(base.mem, base.kothers + (base.uowned * base.uowned));
      SameRefl(p.pool.free, p.list);
      return Returned(0);
    }
    var dummy;
    ghost var rs0;
    dummy, rs0 := DummyHead(p);
    ghost var c := Pass(p.regs, p.pool.free, [dummy] + p.list, begin, RangeEnd(begin, len), base, dummy, p.mmap);
    PassStarts(p, c, rs0);
    assert c.list[1..] == p.list;
    RangeIs(begin, len, c);
    var verdict, pre, cur;
    ghost var l, rs, k, done;
    verdict, pre, cur, l, rs, k, done := Scan(p, dummy, begin, end, Bytes32(npages), c, rs0);
    if verdict == Halt {
      return Panicked;
    }
    if verdict == Fail {
      GiveUp(p, len, s, c, l, rs, k);
      return Returned(-1);
    }
    Finish(p, dummy, pre, cur, len, s, c, l, rs, k, done);
    return Returned(0);
  }

  /** The loop of uvm_munmap (uvm.c:327-409). */
  method Scan(p: Proc, dummy: MmapRegion, begin: nat, end: nat, bytes: nat, ghost c: Pass, ghost rs0: seq<Region>)
    returns (verdict: Verdict, pre: MmapRegion, cur: MmapRegion?, ghost l: seq<MmapRegion>, ghost rs: seq<Region>,
             ghost k: nat, ghost done: set<nat>)
    requires Passing(p, c, dummy, p.mmap, [dummy] + p.list, rs0, 1, {})
    requires Ranged(c, begin, end, bytes) && dummy == c.dummy
    modifies p.pt`flat, p.pm, p.pm.user, p.pool, c.free, c.list
    ensures !verdict.Continue?
    ensures verdict.Break? ==> Passing(p, c, pre, cur, l, rs, k, done) && (k < |rs| ==> c.e <= rs[k].begin)
    ensures verdict.Fail? ==> Failed(p, c, l, rs, k)
    ensures verdict.Halt? ==> Halted(c)
  {
    pre, cur, verdict := dummy, p.mmap, Break;
    l, rs, k, done := [dummy] + p.list, rs0, 1, {};
    while cur != null
      invariant |rs| == |l| && k <= |rs| && verdict == Break
      invariant Passing(p, c, pre, cur, l, rs, k, done)
      decreases ToDo(rs, k, c.e)
    {
      verdict, pre, cur, l, rs, k, done := Visit(p, pre, cur, begin, end, bytes, c, l, rs, k, done);
      if verdict != Continue {
        return;
      }
      verdict := Break;
    }
  }
}
