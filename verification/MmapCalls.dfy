/** uvm_mmap (src/kernel/mem/uvm.c:217-309): first fit, insertion, backing. */
module MmapCalls {
  import opened Layout
  import opened Outcomes
  import opened Kvm
  import opened Regions
  import opened RegionPool
  import opened RegionList
  import opened Spaces
  import opened Calls
  import opened Uvm

  // ---------- first fit ----------

  /** Where the scan looks next after passing i regions. */
  function ScanFrom(regs: seq<Region>, i: nat): nat
    requires i <= |regs|
  {
    if i == 0 then MMAP_BEGIN else regs[i - 1].End()
  }

  predicate NoneBelow(regs: seq<Region>, a: nat, n: nat) {
    forall b: nat :: b < a ==> !Fits(regs, b, n)
  }

  /** The gap behind i regions is large enough: it starts the lowest fit. */
  lemma GapFits(regs: seq<Region>, i: nat, n: nat)
    requires Canonical(regs) && i <= |regs| && NoneBelow(regs, ScanFrom(regs, i), n)
    requires ScanFrom(regs, i) + n * 4096 <= if i < |regs| then regs[i].begin else MMAP_END
    ensures Lowest(regs, ScanFrom(regs, i), n)
  {
    var r := Region(ScanFrom(regs, i), n);
    forall j | 0 <= j < |regs|
      ensures !Overlaps(r, regs[j]) && regs[j].End() <= MMAP_END && MMAP_BEGIN <= regs[j].begin
    {
      assert Proper(regs[j]);
      assert j < i - 1 ==> regs[j].End() < regs[i - 1].begin;
      assert i < j ==> regs[i].End() < regs[j].begin;
    }
  }

  /** The gap before region i is too small: nothing fits below that region's end. */
  lemma GapTooSmall(regs: seq<Region>, i: nat, n: nat)
    requires Canonical(regs) && i < |regs| && NoneBelow(regs, ScanFrom(regs, i), n)
    requires ScanFrom(regs, i) + n * 4096 > regs[i].begin
    ensures NoneBelow(regs, ScanFrom(regs, i + 1), n)
  {
    forall b: nat | b < regs[i].End()
      ensures !Fits(regs, b, n)
    {
      if b >= ScanFrom(regs, i) {
        assert Overlaps(Region(b, n), regs[i]);
      }
    }
  }

  /** No room behind the last region either. */
  lemma NoRoom(regs: seq<Region>, n: nat)
    requires NoneBelow(regs, ScanFrom(regs, |regs|), n)
    requires ScanFrom(regs, |regs|) + n * 4096 > MMAP_END
    ensures forall a: nat :: !Fits(regs, a, n)
  {
  }

  /** The search of uvm.c:228-247: the lowest address where the request fits, or 0. */
  method FindGap(head: MmapRegion?, npages: nat, ghost list: seq<MmapRegion>, ghost regs: seq<Region>)
    returns (begin: nat)
    requires head == First(list, null) && Seg(list, regs, null) && Canonical(regs)
    ensures begin != 0 ==> Lowest(regs, begin, Seen(npages))
    ensures begin == 0 <==> forall a: nat :: !Fits(regs, a, Seen(npages))
  {
    begin := 0;
    var searchBegin := MMAP_BEGIN;
    var cur := head;
    ghost var i, m := 0, Seen(npages);
    BytesSeen(npages);
    while cur != null
      invariant 0 <= i <= |list| && cur == Next(list, i - 1, null)
      invariant searchBegin == ScanFrom(regs, i) && NoneBelow(regs, searchBegin, m)
      invariant begin == 0
      decreases |list| - i
    {
      NodeAt(list, regs, i);
      if searchBegin + Bytes32(npages) <= cur.begin {
        GapFits(regs, i, m);
        begin := searchBegin;
        return;
      }
      GapTooSmall(regs, i, m);
      searchBegin := cur.begin + Bytes32(cur.npages);
      cur := cur.next;
      i := i + 1;
    }
    if searchBegin + Bytes32(npages) <= MMAP_END {
      GapFits(regs, i, m);
      begin := searchBegin;
    } else {
      NoRoom(regs, m);
    }
  }

  /** What the code reads in the i-th node of a well-formed list. */
  lemma NodeAt(list: seq<MmapRegion>, regs: seq<Region>, i: nat)
    requires Seg(list, regs, null) && i < |list| && Canonical(regs)
    ensures list[i].next == Next(list, i, null) && list[i].begin == regs[i].begin && list[i].npages == regs[i].npages
    ensures Bytes32(list[i].npages) == regs[i].npages * 4096 && regs[i].npages * 4096 == regs[i].End() - regs[i].begin
    ensures Proper(regs[i])
  {
    assert Opened(Closed.Links, 0);
    assert list[i].next == Next(list, i, null);
    ProperBytes(regs[i]);
  }

  /** The two comparisons of the scan, with the 64-bit end of the range. */
  lemma OverlapTest(begin: nat, m: nat, q: Region)
    requires Proper(q) && begin < TWO64 && m < 0x10_0000
    ensures begin < q.End() && (begin + m * 4096) % 0x1_0000_0000_0000_0000 > q.begin <==> Overlaps(Region(begin, m), q)
  {
    if begin < q.End() {
      assert (begin + m * 4096) % 0x1_0000_0000_0000_0000 == begin + m * 4096;
    }
  }

  /** The overlap scan of uvm.c:251-261, with its 64-bit end of range. */
  method AnyOverlap(head: MmapRegion?, begin: nat, npages: nat, ghost list: seq<MmapRegion>, ghost regs: seq<Region>)
    returns (hit: bool)
    requires head == First(list, null) && Seg(list, regs, null) && Canonical(regs) && begin < TWO64
    ensures hit <==> !Regions.Free(regs, Region(begin, Seen(npages)))
  {
    var cur := head;
    ghost var i := 0;
    BytesSeen(npages);
    SeenExact(npages);
    while cur != null
      invariant 0 <= i <= |list| && cur == Next(list, i - 1, null)
      invariant forall j :: 0 <= j < i ==> !Overlaps(Region(begin, Seen(npages)), regs[j])
      decreases |list| - i
    {
      NodeAt(list, regs, i);
      OverlapTest(begin, Seen(npages), regs[i]);
      var curEnd := cur.begin + Bytes32(cur.npages);
      var reqEnd := (begin + Bytes32(npages)) % 0x1_0000_0000_0000_0000;
      if begin < curEnd && reqEnd > cur.begin {
        return true;
      }
      cur := cur.next;
      i := i + 1;
    }
    return false;
  }

  // ---------- insertion ----------

  lemma SpliceBehind(d: Region, regs: seq<Region>, lo: nat, hi: nat, m: Region)
    requires lo <= hi <= |regs|
    ensures Splice([d] + regs, lo + 1, hi + 1, m) == [d] + Splice(regs, lo, hi, m)
  {
    assert ([d] + regs)[..lo + 1] == [d] + regs[..lo];
    assert ([d] + regs)[hi + 1..] == regs[hi..];
  }

  lemma DummyPrev(d: Region, regs: seq<Region>, r: Region, k: nat)
    requires LiesBelow(d) && k <= |regs| && r.begin >= MMAP_BEGIN
    ensures TouchesPrev([d] + regs, r, k + 1) == TouchesPrev(regs, r, k)
    ensures TouchesNext([d] + regs, r, k + 1) == TouchesNext(regs, r, k)
    ensures ([d] + regs)[k] == (if k > 0 then regs[k - 1] else d) && (k < |regs| ==> ([d] + regs)[k + 1] == regs[k])
  {
    var rs := [d] + regs;
    assert k < |regs| ==> rs[k + 1] == regs[k];
    assert k > 0 ==> rs[k] == regs[k - 1];
    assert d.End() < MMAP_BEGIN by {
      assert Opened(Closed.Links, 0);
    }
  }

  lemma DummyTouches(d: Region, regs: seq<Region>, r: Region, k: nat)
    requires LiesBelow(d) && k <= |regs| && r.begin >= MMAP_BEGIN
    ensures var rs := [d] + regs;
      && Lo(rs, r, k + 1) == Lo(regs, r, k) + 1 && Hi(rs, r, k + 1) == Hi(regs, r, k) + 1
      && Merged(rs, r, k + 1) == Merged(regs, r, k)
      && (OnlyNext(rs, r, k + 1) <==> OnlyNext(regs, r, k))
  {
    DummyPrev(d, regs, r, k);
  }

  /** The dummy head changes neither the position nor the result of an insertion. */
  lemma DummyInsert(version: Version, d: Region, regs: seq<Region>, r: Region, extra: nat, k: nat)
    requires LiesBelow(d) && k <= |regs| && r.begin >= MMAP_BEGIN
    ensures var rs := [d] + regs;
      && Placed(version, rs, r, extra, k + 1) == [d] + Placed(version, regs, r, extra, k)
      && (Spoils(version, rs, r, k + 1) <==> Spoils(version, regs, r, k))
  {
    DummyTouches(d, regs, r, k);
    if Spoils(version, regs, r, k) {
      assert ([d] + regs)[k + 1] == regs[k];
      SpliceBehind(d, regs, k, k, Region(r.begin, r.npages + extra + regs[k].npages));
    } else {
      SpliceBehind(d, regs, Lo(regs, r, k), Hi(regs, r, k), Wider(Merged(regs, r, k), extra));
    }
  }

  ghost predicate Listing(regs: seq<Region>) {
    forall j {:trigger Opened(Closed.Placing, j)} :: Sealed(Closed.Placing, j) ==> Canonical(regs)
  }

  /** k regions start below r. */
  ghost predicate Spot(regs: seq<Region>, r: Region, k: nat) {
    forall j {:trigger Opened(Closed.Placing, j)} :: Sealed(Closed.Placing, j) ==> Position(regs, r, k)
  }

  /** The search for the predecessor (uvm.c:279-282): the last node that starts below begin. */
  method FindPre(dummy: MmapRegion, begin: nat, ghost l: seq<MmapRegion>, ghost rs: seq<Region>,
                 ghost regs: seq<Region>, ghost r: Region)
    returns (pre: MmapRegion, ghost k: nat)
    requires l != [] && dummy == l[0] && Seg(l, rs, null) && begin == r.begin && HeadOf(rs, regs) && Listing(regs)
    ensures k < |l| && pre == l[k] && Spot(regs, r, k)
  {
    assert Opened(Closed.Links, 0);
    assert Opened(Closed.Placing, 0);
    pre, k := dummy, 0;
    while pre.next != null && pre.next.begin < begin
      invariant k < |l| && pre == l[k]
      invariant forall i :: 0 <= i < k ==> regs[i].begin < begin
      decreases |l| - k
    {
      assert pre.next == Next(l, k, null);
      assert l[k + 1].next == Next(l, k + 1, null);
      assert rs[k + 1] == regs[k];
      pre, k := pre.next, k + 1;
    }
    assert pre.next == Next(l, k, null);
    if k < |regs| {
      assert l[k + 1].next == Next(l, k + 1, null);
      assert rs[k + 1] == regs[k];
      forall i | k <= i < |regs|
        ensures begin <= regs[i].begin
      {
        assert k < i ==> regs[k].End() < regs[i].begin;
      }
    }
    assert Position(regs, r, k);
  }

  /** uvm.c:274-276, 319-321 */
  method NewDummy() returns (dummy: MmapRegion, ghost zero: Region)
    ensures fresh(dummy) && Is(dummy, zero) && LiesBelow(zero)
  {
    dummy := new MmapRegion();
    zero := Region(dummy.begin, dummy.npages);
    assert zero.npages < 0x10_0000 && zero.End() < MMAP_BEGIN;
  }

  /** The dummy head that uvm_mmap and uvm_munmap put in front of the list. */
  method DummyHead(p: Proc) returns (dummy: MmapRegion, ghost rs: seq<Region>)
    requires p.ListOk()
    ensures fresh(dummy) && HeadOf(rs, p.regs) && Headed(p.pool, [dummy] + p.list, rs)
  {
    ghost var zero;
    dummy, zero := NewDummy();
    dummy.next := p.mmap;
    rs := [zero] + p.regs;
    SegOne(dummy, zero, First(p.list, null));
    SegJoin([dummy], [zero], p.list, p.regs, null);
    RosterOfMembers(p.pool.nodes, p.pool.free, p.list, dummy);
  }

  /** The list is as the merge should leave it, or, spoilt, runs through a node just freed. List and
      free list hold the nodes they held. */
  ghost predicate Listed(p: Proc, spoilt: bool, free: seq<MmapRegion>, list: seq<MmapRegion>)
    reads p, p.pool, p.pool.nodes, p.pool.free, p.list
  {
    && p.pool.Valid() && p.mmap == First(p.list, null) && Seg(p.list, p.regs, null)
    && SameNodes(p.pool.free, p.list, free, list)
    && if spoilt then p.Dangling() else p.ListOk() && |p.list| + |p.pool.free| == |list| + |free|
  }

  /** What the merge makes of the list behind the dummy, and of the number of free nodes. */
  ghost predicate Merges(version: Version, rs: seq<Region>, nodes: nat, r: Region, extra: nat, k: nat,
                         regs': seq<Region>, nodes': nat) {
    forall j {:trigger Opened(Closed.Placing, j)} :: Sealed(Closed.Placing, j) ==>
      && k + 1 <= |rs|
      && [rs[0]] + regs' == Placed(version, rs, r, extra, k + 1)
      && nodes' == if Spoils(version, rs, r, k + 1) then nodes else |rs| + nodes - 1 - |regs'|
  }

  /** uvm.c:285-286: merge at the place found and store the new head. */
  method MergeAt(p: Proc, dummy: MmapRegion, pre: MmapRegion, node: MmapRegion, version: Version,
                 ghost l: seq<MmapRegion>, ghost rs: seq<Region>, ghost k: nat)
    requires p.pool.Valid() && Headed(p.pool, l, rs) && k < |l| && pre == l[k] && dummy == l[0] && ProperBehind(rs)
    requires node in p.pool.nodes && node !in p.pool.free && node !in l
    requires Placeable(SeenRegion(node)) && node.npages < TWO32
    modifies p`mmap, p`list, p`regs, p.pool, l, node
    ensures var r := old(SeenRegion(node));
      && Merges(version, rs, |old(p.pool.free)| + 1, r, old(node.npages) - r.npages, k, p.regs, |p.pool.free|)
      && Listed(p, Spoils(version, rs, r, k + 1), [node] + old(p.pool.free), l[1..])
  {
    ghost var r, extra, free := SeenRegion(node), node.npages - Seen(node.npages), p.pool.free;
    ghost var spoilt := Spoils(version, rs, r, k + 1);
    ghost var l', rs' := MmapMerge(p.pool, pre, node, l, rs, k, version);
    MergesIs(version, rs, |free| + 1, r, extra, k, rs', |p.pool.free|);
    SecondBehind(l, k, node);
    StoreHead(p, dummy, l', rs', spoilt, k + 2, [node] + free, l, free);
  }

  lemma SecondBehind(l: seq<MmapRegion>, k: nat, n: MmapRegion)
    requires k < |l|
    ensures var l' := l[..k + 1] + ([n] + l[k + 1..]); |l'| == |l| + 1 && (k + 1 < |l| ==> l'[k + 2] == l[k + 1])
  {
  }

  lemma MergesIs(version: Version, rs: seq<Region>, nodes: nat, r: Region, extra: nat, k: nat, rs': seq<Region>,
                 nodes': nat)
    requires k < |rs| && LiesBelow(rs[0]) && MMAP_BEGIN <= r.begin
    requires rs' == Placed(version, rs, r, extra, k + 1)
    requires nodes' == if Spoils(version, rs, r, k + 1) then nodes else |rs| + nodes - |rs'|
    ensures rs' != [] && rs'[0] == rs[0] && Merges(version, rs, nodes, r, extra, k, rs'[1..], nodes')
  {
    assert rs[0].End() < MMAP_BEGIN by {
      assert Opened(Closed.Links, 0);
    }
    PlacedHead(version, rs, r, extra, k);
    assert [rs[0]] + rs'[1..] == rs';
  }

  /** uvm.c:286; what stands behind the dummy is the process's list. */
  method StoreHead(p: Proc, dummy: MmapRegion, ghost l: seq<MmapRegion>, ghost rs: seq<Region>, ghost spoilt: bool,
                   ghost at: nat, ghost free: seq<MmapRegion>, ghost l0: seq<MmapRegion>, ghost f0: seq<MmapRegion>)
    requires p.pool.Valid() && l != [] && dummy == l[0] && Seg(l, rs, null)
    requires SameNodes(p.pool.free, l, free, l0) && l0 != [] && l0[0] == dummy
    requires RegionList.Roster(p.pool.nodes, f0, l0) && exists f :: RegionList.Roster(p.pool.nodes, f, l)
    requires forall n :: n in free ==> n in p.pool.nodes
    requires if spoilt then 1 <= at < |l| && l[at] in p.pool.free
             else Headed(p.pool, l, rs) && |l| + |p.pool.free| == |free| + |l0|
    modifies p`mmap, p`list, p`regs
    ensures Listed(p, spoilt, free, l0[1..]) && p.regs == rs[1..]
  {
    p.mmap := dummy.next;
    RestOf(l, rs);
    ghost var g :| RegionList.Roster(p.pool.nodes, g, l);
    SameBehind(p.pool.nodes, p.pool.free, l, g, free, l0, f0);
    p.list, p.regs := l[1..], rs[1..];
    if spoilt {
      assert p.list[at - 1] == l[at];
    } else {
      MembersOfRoster(p.pool.nodes, p.pool.free, l);
    }
  }

  lemma RestOf(l: seq<MmapRegion>, rs: seq<Region>)
    requires Seg(l, rs, null) && l != []
    ensures l[0].next == First(l[1..], null) && Seg(l[1..], rs[1..], null) && rs == [rs[0]] + rs[1..]
  {
    Around(l, rs, 0);
  }

  lemma SpliceHead(rs: seq<Region>, lo: nat, hi: nat, m: Region)
    requires 0 < lo <= hi <= |rs|
    ensures Splice(rs, lo, hi, m) != [] && Splice(rs, lo, hi, m)[0] == rs[0]
  {
  }

  /** The dummy keeps its place. */
  lemma PlacedHead(version: Version, rs: seq<Region>, r: Region, extra: nat, k: nat)
    requires k < |rs| && (TouchesPrev(rs, r, k + 1) ==> k > 0)
    ensures var out := Placed(version, rs, r, extra, k + 1); out != [] && out[0] == rs[0]
  {
    if Spoils(version, rs, r, k + 1) {
      SpliceHead(rs, k + 1, k + 1, Region(r.begin, r.npages + extra + rs[k + 1].npages));
    } else {
      SpliceHead(rs, Lo(rs, r, k + 1), Hi(rs, r, k + 1), Wider(Merged(rs, r, k + 1), extra));
    }
  }

  /** The list half of an accepted request: where r stands, the new list and the free nodes. */
  ghost predicate Reserved(version: Version, regs: seq<Region>, nodes: nat, r: Region, extra: nat, k: nat,
                           regs': seq<Region>, nodes': nat) {
    forall j {:trigger Opened(Closed.Placing, j)} :: Sealed(Closed.Placing, j) ==>
      && Position(regs, r, k)
      && regs' == Placed(version, regs, r, extra, k)
      && nodes' == if Spoils(version, regs, r, k) then nodes else |regs| + nodes - |regs'|
  }

  /** A canonical list, and the place that a request of m pages is granted. */
  ghost predicate Chosen(regs: seq<Region>, begin: nat, m: nat, at: nat) {
    forall j {:trigger Opened(Closed.Placing, j)} :: Sealed(Closed.Placing, j) ==>
      Canonical(regs) && Granted(regs, begin, m, at)
  }

  lemma ChosenMeans(regs: seq<Region>, begin: nat, m: nat, at: nat)
    requires Chosen(regs, begin, m, at) && m < 0x10_0000 && begin < TWO64
    ensures Listing(regs) && Placeable(Region(at, m)) && Regions.Free(regs, Region(at, m))
  {
    assert Opened(Closed.Placing, 0);
    GrantedFits(regs, begin, m, at);
  }

  lemma AgreedIs(version: Version, regs: seq<Region>, nodes: nat, begin: nat, n: nat, at: nat, k: nat,
                 regs': seq<Region>, nodes': nat)
    requires Chosen(regs, begin, Seen(n), at) && nodes > 0
    requires Reserved(version, regs, nodes, Region(at, Seen(n)), Extra(n), k, regs', nodes')
    ensures Agreed(version, regs, nodes, begin, n, at, k, regs', nodes')
  {
    assert Opened(Closed.Placing, 0);
  }

  /** A request of n pages has been granted at `at`, and its list half is done. */
  ghost predicate Agreed(version: Version, regs: seq<Region>, nodes: nat, begin: nat, n: nat, at: nat, k: nat,
                         regs': seq<Region>, nodes': nat) {
    forall j {:trigger Opened(Closed.Placing, j)} :: Sealed(Closed.Placing, j) ==>
      && Canonical(regs) && nodes > 0 && Granted(regs, begin, Seen(n), at)
      && Reserved(version, regs, nodes, Region(at, Seen(n)), Extra(n), k, regs', nodes')
  }

  /** What the merge behind a dummy head means for the list itself. */
  lemma ReservedBehind(version: Version, rs: seq<Region>, regs: seq<Region>, nodes: nat, r: Region, extra: nat, k: nat,
                       regs': seq<Region>, nodes': nat)
    requires HeadOf(rs, regs) && Listing(regs) && Spot(regs, r, k) && Regions.Free(regs, r) && r.begin >= MMAP_BEGIN
    requires Merges(version, rs, nodes, r, extra, k, regs', nodes')
    ensures Reserved(version, regs, nodes, r, extra, k, regs', nodes')
    ensures Spoils(version, rs, r, k + 1) <==> Spoilt(version, regs, r)
  {
    assert Opened(Closed.Placing, 0);
    DummyInsert(version, rs[0], regs, r, extra, k);
    OnlyNextMeans(regs, r, k);
    assert regs' == ([rs[0]] + regs')[1..];
    assert regs' == Placed(version, regs, r, extra, k) && Position(regs, r, k);
    assert nodes' == if Spoils(version, regs, r, k) then nodes else |regs| + nodes - |regs'|;
  }

  lemma DummyTail(regs: seq<Region>, rs: seq<Region>)
    requires HeadOf(rs, regs) && Listing(regs)
    ensures rs[1..] == regs && ProperBehind(rs)
  {
    assert Opened(Closed.Placing, 0);
    assert forall i :: 1 <= i < |rs| ==> rs[i] == regs[i - 1];
  }

  /** uvm.c:270-286: put the new node in its place on the process's list. */
  method Place(p: Proc, node: MmapRegion, version: Version) returns (ghost k: nat)
    requires p.pool.Valid() && p.ListOk() && Listing(p.regs)
    requires node in p.pool.nodes && node !in p.pool.free && node !in p.list
    requires Placeable(SeenRegion(node)) && node.npages < TWO32 && Regions.Free(p.regs, SeenRegion(node))
    modifies p`mmap, p`list, p`regs, p.pool, p.list, node
    ensures var r := old(SeenRegion(node));
      && Reserved(version, old(p.regs), |old(p.pool.free)| + 1, r, old(node.npages) - r.npages, k, p.regs,
                  |p.pool.free|)
      && Listed(p, Spoilt(version, old(p.regs), r), [node] + old(p.pool.free), old(p.list))
  {
    ghost var r, extra, regs, nodes := SeenRegion(node), node.npages - Seen(node.npages), p.regs, |p.pool.free| + 1;
    var dummy, pre;
    ghost var rs;
    dummy, rs := DummyHead(p);
    ghost var l := [dummy] + p.list;
    assert l[1..] == p.list;
    pre, k := FindPre(dummy, node.begin, l, rs, regs, r);
    DummyTail(regs, rs);
    MergeAt(p, dummy, pre, node, version, l, rs, k);
    ReservedBehind(version, rs, regs, nodes, r, extra, k, p.regs, |p.pool.free|);
  }

  // ---------- uvm_mmap ----------

  /** uvm.c:228-268: where the request goes; None when it is refused. */
  method Choose(p: Proc, begin: nat, npages: nat) returns (r: Option<nat>)
    requires p.ListOk() && Canonical(p.regs) && begin < TWO64
    ensures r.None? <==> Refused(p.regs, begin, Seen(npages))
    ensures r.Some? ==> Granted(p.regs, begin, Seen(npages), r.value)
  {
    BytesSeen(npages);
    SeenExact(npages);
    var at := begin;
    if begin == 0 {
      at := FindGap(p.mmap, npages, p.list, p.regs);
      if at == 0 {
        return None;
      }
    } else {
      var hit := AnyOverlap(p.mmap, begin, npages, p.list, p.regs);
      if hit {
        return None;
      }
    }
    if at < MMAP_BEGIN || (at + Bytes32(npages)) % 0x1_0000_0000_0000_0000 > MMAP_END {
      return None;
    }
    return Some(at);
  }

  /** uvm.c:290-300: back the pages that the 32-bit size of an accepted range stands for. The
      first vm_mappages rejects an unaligned address. */
  method Back(p: Proc, begin: nat, npages: nat, prot: nat) returns (r: Outcome<()>)
    requires p.TableOk() && prot < 1024 && Placeable(Region(begin, Seen(npages))) && begin < TWO64
    requires begin > MMAP_END ==> begin + Seen(npages) * 4096 >= TWO64
    modifies p.pt, p.pm, p.pm.kern, p.pm.user
    ensures r.Panicked? ==>
      begin <= MMAP_END && MmapShort(begin, Seen(npages), |old(p.pm.user.chain)|, |old(p.pm.kern.chain)|)
    ensures r.Returned? ==>
      && p.TableOk() && p.Kept(old(p.pm.mem), old(p.pm.user.owned)) && NewZeroed(old(p.pt.flat), p.pm.mem, p.pt.flat)
      && p.View() == old(p.View()).(flat := p.pt.flat, uowned := p.pm.user.owned)
      && (begin <= MMAP_END && Seen(npages) > 0 ==> begin % 4096 == 0)
      && BackedOrNot(old(p.pt.flat), old(p.pm.user.owned), p.pt.flat, p.pm.user.owned, Region(begin, Seen(npages)),
                     OrFlag(prot, PTE_U))
  {
    OrUser(prot);
    BytesSeen(npages);
    SeenExact(npages);
    var vaEnd := (begin + Bytes32(npages)) % 0x1_0000_0000_0000_0000;
    ghost var base := Snap(p.pt);
    if begin >= vaEnd {
      SteadyRefl(base.mem, base.kothers + (base.uowned * base.uowned));
      PagesNext(Page(begin), Page(begin));
      BackedNone(base.flat, base.uowned, OrFlag(prot, PTE_U));
      NewZeroedNone(base.flat, base.mem, base.flat);
      return Returned(());
    }
    if begin % 4096 != 0 {
      return Panicked;
    }
    PageStep(begin, Seen(npages));
    var _ :- MapUp(p.pt, begin, vaEnd, OrFlag(prot, PTE_U));
    assert Opened(Closed.Mapping, 0);
    SteadyLess(base.mem, base.kothers + base.uowned, p.pm.mem, base.kothers + (base.uowned * p.pm.user.owned));
    NewZeroedIs(base.flat, base.uowned, p.pm.mem, p.pt.flat, p.pm.user.owned, Pages(Page(begin), Page(vaEnd)),
                OrFlag(prot, PTE_U));
    return Returned(());
  }

  /** uvm.c:222-270: take a node and choose the place; a refused request gives the node back. */
  method Prepare(p: Proc, begin: nat, npages: nat) returns (at: nat, node: MmapRegion?)
    requires p.pool.Valid() && p.ListOk() && Canonical(p.regs) && npages < TWO32 && begin < TWO64
    modifies p.pool, p.pool.free
    ensures p.pool.Valid() && p.ListOk()
    ensures node == null ==>
      p.pool.free == old(p.pool.free) && (p.pool.free == [] || Refused(p.regs, begin, Seen(npages)))
    ensures node != null ==>
      && Chosen(p.regs, begin, Seen(npages), at) && old(p.pool.free) == [node] + p.pool.free
      && node in p.pool.nodes && node !in p.pool.free && node !in p.list && node.begin == at && node.npages == npages
  {
    at := 0;
    node := TakeNode(p.pool, p.list, p.regs);
    if node == null {
      return;
    }
    assert node == old(p.pool.free)[0];
    node.npages := npages;
    assert Seg(p.list, p.regs, null);
    var place := Choose(p, begin, npages);
    if place.None? {
      p.pool.Release(node);
      node := null;
      return;
    }
    at := place.value;
    node.begin := at;
  }

  /** uvm.c:222-286, the list half of uvm_mmap. */
  method Reserve(p: Proc, begin: nat, npages: nat, version: Version) returns (at: Option<nat>, ghost k: nat)
    requires p.pool.Valid() && p.ListOk() && Canonical(p.regs) && npages < TWO32 && begin < TWO64
    modifies p`mmap, p`list, p`regs, p.pool, p.pool.free, p.list
    ensures at.None? ==>
      && p.pool.Valid() && p.ListOk() && p.pool.free == old(p.pool.free) && p.list == old(p.list)
      && p.regs == old(p.regs)
      && (p.pool.free == [] || Refused(p.regs, begin, Seen(npages)))
    ensures at.Some? ==>
      && Agreed(version, old(p.regs), |old(p.pool.free)|, begin, npages, at.value, k, p.regs, |p.pool.free|)
      && Listed(p, Spoilt(version, old(p.regs), Region(at.value, Seen(npages))), old(p.pool.free), old(p.list))
  {
    k := 0;
    var begin', node := Prepare(p, begin, npages);
    if node == null {
      return None, k;
    }
    ChosenMeans(p.regs, begin, Seen(npages), begin');
    ghost var regs, nodes := p.regs, |p.pool.free| + 1;
    assert node == old(p.pool.free)[0];
    k := Place(p, node, version);
    AgreedIs(version, regs, nodes, begin, npages, begin', k, p.regs, |p.pool.free|);
    return Some(begin'), k;
  }

  /** The list half and the page half together do what Mmap says. */
  lemma GrantedMeans(version: Version, s: Space, begin: nat, len: nat, perm: nat, at: nat, k: nat, t: Space)
    requires PageCount32(len) > 0 && Agreed(version, s.regs, s.nodes, begin, PageCount32(len), at, k, t.regs, t.nodes)
    requires t == s.(regs := t.regs, nodes := t.nodes, flat := t.flat, uowned := t.uowned)
    requires var r := Region(at, Seen(PageCount32(len)));
      BackedOrNot(s.flat, s.uowned, t.flat, t.uowned, r, perm) && (at <= MMAP_END && r.npages > 0 ==> at % 4096 == 0)
    ensures Mmap(version, s, begin, len, perm, t, at)
  {
    assert Opened(Closed.Placing, 0);
    var n := PageCount32(len);
    assert AcceptedAt(version, s, Region(at, Seen(n)), Extra(n), perm, t, k);
  }

  lemma GrantedWhere(version: Version, regs: seq<Region>, nodes: nat, begin: nat, n: nat, at: nat, k: nat,
                     regs': seq<Region>, nodes': nat)
    requires begin < TWO64 && Agreed(version, regs, nodes, begin, n, at, k, regs', nodes')
    ensures Placeable(Region(at, Seen(n))) && at < TWO64
    ensures at > MMAP_END ==> at + Seen(n) * 4096 >= TWO64
    ensures Seen(n) > 0 && at % 4096 != 0 ==> begin % 4096 != 0
  {
    assert Opened(Closed.Placing, 0);
    SeenExact(n);
    GrantedFits(regs, begin, Seen(n), at);
    if begin == 0 && Seen(n) > 0 {
      LowestAligned(regs, at, Seen(n));
    }
  }

  /** uvm_mmap (uvm.c:217-309), for every start address and every length. It halts only on an
      unaligned start or for want of memory, a refusal changes nothing, and everything else
      is what Mmap says. As written, a request that touches only the region behind it leaves
      a free node on the list. */
  method UvmMmap(p: Proc, begin: nat, len: nat, prot: nat, version: Version) returns (r: Outcome<int>)
    requires p.Valid() && Inv(p.View()) && begin < TWO64 && len < TWO64 && prot < 1024
    modifies p`mmap, p`list, p`regs, p.pool, p.pool.free, p.list, p.pt, p.pm, p.pm.kern, p.pm.user
    ensures r.Panicked? ==> MmapShort(begin, Seen(PageCount32(len)), |old(p.pm.user.chain)|, |old(p.pm.kern.chain)|)
    ensures r.Returned? ==>
      && p.Standing() && Mmap(version, old(p.View()), begin, len, OrFlag(prot, PTE_U), p.View(), r.value)
      && p.Kept(old(p.pm.mem), old(p.pm.user.owned)) && NewZeroed(old(p.pt.flat), p.pm.mem, p.pt.flat)
      && SameNodes(p.pool.free, p.list, old(p.pool.free), old(p.list))
      && (if r.value >= 0 && Spoilt(version, old(p.regs), Region(r.value, Seen(PageCount32(len)))) then p.Dangling()
          else p.ListOk())
      && (r.value == -1 ==> p.pool.free == old(p.pool.free) && p.list == old(p.list))
  {
    var npages := PageCount32(len);
    ghost var s := p.View();
    ghost var free, list := p.pool.free, p.list;
    SteadyRefl(p.pm.mem, s.kothers + (s.uowned * s.uowned));
    NewZeroedNone(s.flat, p.pm.mem, s.flat);
    SameRefl(free, list);
    if npages == 0 {
      return Returned(-1);
    }
    var at, k := Reserve(p, begin, npages, version);
    if at.None? {
      return Returned(-1);
    }
    r := Commit(p, begin, len, at.value, prot, version, s, k, free, list);
  }

  /** Only these requests halt the kernel. */
  predicate MmapShort(begin: nat, m: nat, ufree: nat, kfree: nat) {
    m > 0 && (begin % 4096 != 0 || Short(m, ufree, kfree))
  }

  /** The page half of uvm_mmap, after the list half has run on the address space s. */
  method Commit(p: Proc, begin: nat, len: nat, at: nat, prot: nat, ghost version: Version, ghost s: Space, ghost k: nat,
                ghost free: seq<MmapRegion>, ghost list: seq<MmapRegion>)
    returns (r: Outcome<int>)
    requires prot < 1024 && begin < TWO64 && PageCount32(len) > 0
    requires Agreed(version, s.regs, s.nodes, begin, PageCount32(len), at, k, p.regs, |p.pool.free|)
    requires Listed(p, Spoilt(version, s.regs, Region(at, Seen(PageCount32(len)))), free, list)
    requires p.TableOk() && p.View() == s.(regs := p.regs, nodes := |p.pool.free|)
    modifies p.pt, p.pm, p.pm.kern, p.pm.user
    ensures r.Panicked? ==> MmapShort(begin, Seen(PageCount32(len)), |old(p.pm.user.chain)|, |old(p.pm.kern.chain)|)
    ensures r.Returned? ==>
      && r.value == at && p.Standing() && Mmap(version, s, begin, len, OrFlag(prot, PTE_U), p.View(), at)
      && p.Kept(old(p.pm.mem), old(p.pm.user.owned)) && NewZeroed(old(p.pt.flat), p.pm.mem, p.pt.flat)
      && Listed(p, Spoilt(version, s.regs, Region(at, Seen(PageCount32(len)))), free, list)
  {
    var npages := PageCount32(len);
    GrantedWhere(version, s.regs, s.nodes, begin, npages, at, k, p.regs, |p.pool.free|);
    var _ :- Back(p, at, npages, prot);
    GrantedMeans(version, s, begin, len, OrFlag(prot, PTE_U), at, k, p.View());
    return Returned(at);
  }
}
