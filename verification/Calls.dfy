/** What each memory call does to an address space, and that it keeps the invariant. */
module Calls {
  import opened Layout
  import opened Outcomes
  import opened Regions
  import opened Kvm
  import opened Spaces

  // ---------- heap (uvm.c:84-130, sysfunc.c:90-113) ----------

  ghost predicate HeapGrow(s: Space, newTop: nat, t: Space, ret: int) {
    var o, n := PgRoundUp(s.heapTop), PgRoundUp(newTop);
    if n <= o then
      ret == 0 && t == s.(heapTop := newTop)
    else if n > MMAP_BEGIN then
      ret == -1 && t == s
    else
      && ret == 0
      && t == s.(heapTop := newTop, flat := t.flat, uowned := t.uowned)
      && Backed(s.flat, s.uowned, t.flat, t.uowned, Pages(o / 4096, n / 4096), RWU)
  }

  ghost predicate HeapShrink(s: Space, newTop: nat, t: Space) {
    && t == s.(heapTop := newTop, flat := t.flat, uowned := t.uowned)
    && Dropped(s.flat, s.uowned, t.flat, t.uowned, Pages(PgRoundUp(newTop) / 4096, HeapEnd(s)))
  }

  ghost predicate Brk(s: Space, newTop: nat, t: Space, ret: int) {
    if newTop == 0 then t == s && ret == s.heapTop
    else if newTop > s.heapTop then
      (HeapGrow(s, newTop, t, 0) && ret == newTop) || (HeapGrow(s, newTop, t, -1) && ret == -1)
    else if newTop < s.heapTop then HeapShrink(s, newTop, t) && ret == newTop
    else t == s && ret == newTop
  }

  /** New tops for which the heap code does what it is meant to do. */
  predicate SaneTop(newTop: nat) {
    newTop == 0 || USER_BASE < newTop <= TWO64 - PGSIZE
  }

  lemma HeapPages(s: Space, v: nat)
    requires Ordered(s)
    ensures HEAP_PAGE <= HeapEnd(s) && HeapEnd(s) * 4096 <= MMAP_BEGIN
    ensures IsHeap(s, v) <==> Between(HEAP_PAGE, v, HeapEnd(s))
  {
    PgRoundUpExact(s.heapTop);
  }

  lemma GrowKeeps(s: Space, newTop: nat, t: Space)
    requires Inv(s) && HeapGrow(s, newTop, t, 0) && s.heapTop < newTop <= TWO64 - PGSIZE
    ensures Inv(t) && OtherFrames(t) == OtherFrames(s)
  {
    PgRoundUpExact(s.heapTop);
    PgRoundUpExact(newTop);
    assert Ordered(t);
    if PgRoundUp(newTop) > PgRoundUp(s.heapTop) {
      GrownHeap(s, t);
    } else {
      assert HeapEnd(s) == HeapEnd(t);
      assert forall v: nat :: IsHeap(t, v) == IsHeap(s, v) && IsStack(t, v) == IsStack(s, v);
      DroppedNone(s.flat, s.uowned);
      LossKeeps(s, t, {});
    }
  }

  lemma GrownHeap(s: Space, t: Space)
    requires Inv(s) && Ordered(t) && HeapEnd(s) <= HeapEnd(t)
    requires t == s.(heapTop := t.heapTop, flat := t.flat, uowned := t.uowned)
    requires Backed(s.flat, s.uowned, t.flat, t.uowned, Pages(HeapEnd(s), HeapEnd(t)), RWU)
    ensures Inv(t) && OtherFrames(t) == OtherFrames(s)
  {
    var pages := Pages(HeapEnd(s), HeapEnd(t));
    forall v: nat
      ensures v in pages ==> v < TF_PAGE && !Wanted(s, v)
      ensures IsHeap(t, v) <==> IsHeap(s, v) || v in pages
      ensures IsStack(t, v) == IsStack(s, v)
    {
      AreasApart(s, v);
      AreasApart(t, v);
      HeapPages(s, v);
      HeapPages(t, v);
      assert v in pages <==> Between(HeapEnd(s), v, HeapEnd(t));
    }
    GainKeeps(s, t, pages, RWU);
  }

  lemma ShrinkKeeps(s: Space, newTop: nat, t: Space)
    requires Inv(s) && HeapShrink(s, newTop, t) && USER_BASE < newTop < s.heapTop
    ensures Inv(t) && OtherFrames(t) == OtherFrames(s)
  {
    PgRoundUpExact(s.heapTop);
    PgRoundUpExact(newTop);
    assert Ordered(t);
    var pages := Pages(HeapEnd(t), HeapEnd(s));
    forall v: nat
      ensures v in pages ==> v < TF_PAGE && IsHeap(s, v) && !(v in s.fixed || IsMmap(s.regs, v) || IsStack(s, v))
      ensures IsHeap(t, v) <==> IsHeap(s, v) && v !in pages
      ensures IsStack(t, v) == IsStack(s, v)
    {
      AreasApart(s, v);
      HeapPages(s, v);
      HeapPages(t, v);
      assert v in pages <==> Between(HeapEnd(t), v, HeapEnd(s));
    }
    LossKeeps(s, t, pages);
  }

  /** sys_brk keeps the invariant exactly for sane arguments. A top at or below USER_BASE
      unmaps the code page; a top within 4095 bytes of 2^64 is accepted with nothing mapped. */
  lemma BrkExact(s: Space, newTop: nat, t: Space, ret: int)
    requires Inv(s) && newTop < TWO64 && Brk(s, newTop, t, ret)
    ensures Inv(t) <==> SaneTop(newTop)
    ensures SaneTop(newTop) ==> OtherFrames(t) == OtherFrames(s)
    ensures 0 < newTop <= USER_BASE ==> CODE_PAGE !in t.flat
    ensures newTop > TWO64 - PGSIZE ==> ret == newTop == t.heapTop && t.flat == s.flat
  {
    PgRoundUpExact(newTop);
    PgRoundUpExact(s.heapTop);
    if newTop > s.heapTop {
      if newTop <= TWO64 - PGSIZE && ret != -1 {
        GrowKeeps(s, newTop, t);
      }
    } else if 0 < newTop < s.heapTop {
      if newTop > USER_BASE {
        ShrinkKeeps(s, newTop, t);
      } else {
        assert Between(1, CODE_PAGE, HeapEnd(s));
      }
    }
  }

  // ---------- stack (uvm.c:137-181, trap_user.c:44-54) ----------

  ghost predicate Fault(s: Space, va: nat, t: Space, ret: int) {
    if va < MMAP_END || Page(va) >= TF_PAGE - s.ustack then
      ret == -1 && t == s
    else
      && ret == 0
      && t == s.(ustack := TF_PAGE - Page(va), flat := t.flat, uowned := t.uowned)
      && Backed(s.flat, s.uowned, t.flat, t.uowned, Pages(Page(va), TF_PAGE - s.ustack), RWU)
  }

  /** A fault keeps the invariant; a handled one grows the stack, contiguously and to at
      most 4096 pages, to the faulting page, which is then user read-write. */
  lemma FaultKeeps(s: Space, va: nat, t: Space, ret: int)
    requires Inv(s) && Fault(s, va, t, ret)
    ensures Inv(t) && OtherFrames(t) == OtherFrames(s)
    ensures s.ustack <= t.ustack <= 4096
    ensures ret == 0 ==> Page(va) == TF_PAGE - t.ustack
    ensures ret == 0 ==> Page(va) in t.flat && PteFlags(t.flat[Page(va)]) == RWU + PTE_V
  {
    if ret == 0 {
      var pages := Pages(Page(va), TF_PAGE - s.ustack);
      assert Ordered(t);
      forall v: nat
        ensures v in pages ==> v < TF_PAGE && !Wanted(s, v)
        ensures IsStack(t, v) <==> IsStack(s, v) || v in pages
        ensures IsHeap(t, v) == IsHeap(s, v)
      {
        AreasApart(s, v);
        AreasApart(t, v);
        assert v in pages <==> Between(Page(va), v, TF_PAGE - s.ustack);
      }
      GainKeeps(s, t, pages, RWU);
      assert Opened(Closed.Agreement, 0);
      assert IsStack(t, Page(va));
    }
  }

  // ---------- mmap (uvm.c:217-309) ----------

  /** A request of n pages fits at address a. */
  predicate Fits(regs: seq<Region>, a: nat, n: nat) {
    MMAP_BEGIN <= a && a + n * 4096 <= MMAP_END && Free(regs, Region(a, n))
  }

  predicate Lowest(regs: seq<Region>, a: nat, n: nat) {
    Fits(regs, a, n) && forall b: nat :: b < a ==> !Fits(regs, b, n)
  }

  ghost function RegionPages(r: Region): set<nat> {
    Pages(Page(r.begin), Page(r.begin) + r.npages)
  }

  /** The list grows by r and nothing else, stays canonical and returns the nodes that
      merging sets free; the new pages are backed. */
  ghost predicate Mapped(s: Space, r: Region, perm: nat, t: Space) {
    && t == s.(regs := t.regs, flat := t.flat, uowned := t.uowned, nodes := t.nodes)
    && Canonical(t.regs)
    && (forall a :: Covers(t.regs, a) <==> Covers(s.regs, a) || In(r, a))
    && |t.regs| + t.nodes == |s.regs| + s.nodes
    && Backed(s.flat, s.uowned, t.flat, t.uowned, RegionPages(r), perm)
  }

  /** The request is refused although a node is free. m is the number of pages that the
      32-bit size of the request stands for. */
  ghost predicate Refused(regs: seq<Region>, begin: nat, m: nat) {
    if begin == 0 then forall a: nat :: !Fits(regs, a, m)
    else !Free(regs, Region(begin, m)) || !InAreaCheck(begin, m * 4096)
  }

  /** The address a request that is not refused is granted at. */
  ghost predicate Granted(regs: seq<Region>, begin: nat, m: nat, at: nat) {
    !Refused(regs, begin, m) && if begin == 0 then Lowest(regs, at, m) else at == begin
  }

  /** What the code does with a granted request of n pages: the node claims n pages, the
      merge goes by the pages its 32-bit size stands for, and those are backed, unless the
      range ends beyond 2^64: then none is. */
  ghost predicate Accepted(version: Version, s: Space, r: Region, extra: nat, perm: nat, t: Space) {
    exists k: nat :: AcceptedAt(version, s, r, extra, perm, t, k)
  }

  /** The pages a node claims beyond those its 32-bit size stands for. */
  function Extra(n: nat): nat { n - Seen(n) }

  ghost predicate AcceptedAt(version: Version, s: Space, r: Region, extra: nat, perm: nat, t: Space, k: nat) {
    && (r.begin <= MMAP_END && r.npages > 0 ==> r.begin % 4096 == 0)
    && Position(s.regs, r, k)
    && t == s.(regs := Placed(version, s.regs, r, extra, k), flat := t.flat, uowned := t.uowned, nodes := t.nodes)
    && t.nodes == NodesLeft(version, s, t, r, k)
    && BackedOrNot(s.flat, s.uowned, t.flat, t.uowned, r, perm)
  }

  /** Nodes on the list and free nodes keep their total; as written, a node that stays on the
      list although it was freed counts twice. */
  ghost function NodesLeft(version: Version, s: Space, t: Space, r: Region, k: nat): int {
    if Spoils(version, s.regs, r, k) then s.nodes else |s.regs| + s.nodes - |t.regs|
  }

  ghost predicate BackedOrNot(flat: map<nat, nat>, uowned: set<nat>, flat': map<nat, nat>, uowned': set<nat>, r: Region,
                              perm: nat) {
    if r.begin <= MMAP_END then Backed(flat, uowned, flat', uowned', RegionPages(r), perm)
    else flat' == flat && uowned' == uowned
  }

  ghost predicate Mmap(version: Version, s: Space, begin: nat, len: nat, perm: nat, t: Space, ret: int) {
    var n := PageCount32(len);
    if n == 0 || s.nodes == 0 || Refused(s.regs, begin, Seen(n)) then
      ret == -1 && t == s
    else
      ret >= 0 && Granted(s.regs, begin, Seen(n), ret) && Accepted(version, s, Region(ret, Seen(n)), Extra(n), perm, t)
  }

  /** Requests that the code handles as intended: those it refuses, and those whose 32-bit
      size is exact, whose range does not wrap, and which the merge gets right. */
  ghost predicate SaneMmap(version: Version, s: Space, begin: nat, len: nat) {
    || PageCount32(len) == 0 || s.nodes == 0 || Refused(s.regs, begin, Seen(PageCount32(len)))
    || (PageCount32(len) < 0x10_0000 && begin <= MMAP_END && NeverSpoilt(version, s.regs, begin, PageCount32(len)))
  }

  /** Wherever the request is granted, the merge gets it right. */
  ghost predicate NeverSpoilt(version: Version, regs: seq<Region>, begin: nat, n: nat) {
    forall at: nat :: Granted(regs, begin, n, at) ==> !Spoilt(version, regs, Region(at, n))
  }

  lemma PageMultiple(v: nat, r: Region)
    requires Proper(r)
    ensures v in RegionPages(r) <==> In(r, v * 4096)
  {
    assert v in RegionPages(r) <==> Between(Page(r.begin), v, Page(r.begin) + r.npages);
  }

  lemma MappedKeeps(s: Space, r: Region, perm: nat, t: Space)
    requires Inv(s) && Proper(r) && Free(s.regs, r) && Mapped(s, r, perm, t) && perm < 1024 && HasU(perm)
    ensures Inv(t) && OtherFrames(t) == OtherFrames(s)
  {
    assert Ordered(t);
    var pages := RegionPages(r);
    forall v: nat
      ensures v in pages ==> v < TF_PAGE && !Wanted(s, v)
      ensures IsMmap(t.regs, v) <==> IsMmap(s.regs, v) || v in pages
      ensures IsHeap(t, v) == IsHeap(s, v) && IsStack(t, v) == IsStack(s, v)
    {
      PageMultiple(v, r);
      AreasApart(s, v);
      AreasApart(t, v);
    }
    GainKeeps(s, t, pages, perm);
  }

  /** The lowest fit starts on a page boundary: at the area's start or at the end of a region. */
  lemma LowestAligned(regs: seq<Region>, a: nat, n: nat)
    requires Canonical(regs) && n > 0 && Lowest(regs, a, n)
    ensures Proper(Region(a, n))
  {
    if a % 4096 != 0 {
      var b := PgRoundDown(a);
      forall i | 0 <= i < |regs|
        ensures !Overlaps(Region(b, n), regs[i])
      {
        assert Proper(regs[i]) && !Overlaps(Region(a, n), regs[i]);
        if regs[i].End() <= a {
          PgGap(a, regs[i].End());
        }
      }
      assert Fits(regs, b, n);
    }
  }

  /** No page boundary lies strictly between an address and its page's start. */
  lemma PgGap(a: nat, e: nat)
    requires e % 4096 == 0 && e <= a
    ensures e <= PgRoundDown(a)
  {
  }

  lemma FreeUncovered(regs: seq<Region>, r: Region, a: int)
    requires Free(regs, r) && In(r, a)
    ensures !Covers(regs, a)
  {
    forall i | 0 <= i < |regs|
      ensures !In(regs[i], a)
    {
      assert !Overlaps(r, regs[i]);
    }
  }

  /** Where a granted request lies. */
  lemma GrantedFits(regs: seq<Region>, begin: nat, m: nat, at: nat)
    requires Canonical(regs) && m < 0x10_0000 && begin < TWO64 && Granted(regs, begin, m, at)
    ensures Free(regs, Region(at, m)) && Placeable(Region(at, m)) && at < TWO64
    ensures at > MMAP_END ==> begin == at && at + m * 4096 >= TWO64
    ensures begin > MMAP_END ==> at > MMAP_END
  {
    InAreaCheckExact(begin, m * 4096);
  }

  /** A sane request that is granted becomes part of the list as it should. */
  lemma SaneAccepted(version: Version, s: Space, r: Region, perm: nat, t: Space, k: nat)
    requires Canonical(s.regs) && 0 < r.npages && Placeable(r) && r.begin <= MMAP_END && Free(s.regs, r)
    requires !Spoilt(version, s.regs, r) && AcceptedAt(version, s, r, 0, perm, t, k)
    ensures Proper(r) && Mapped(s, r, perm, t)
  {
    PlacedSound(version, s.regs, r, k);
  }

  /** Requests that the code mishandles once it has granted them. */
  ghost predicate Mishandled(version: Version, regs: seq<Region>, begin: nat, at: nat, n: nat) {
    n >= 0x10_0000 || begin > MMAP_END || Spoilt(version, regs, Region(at, n))
  }

  /** They leave a list that is not canonical. */
  lemma MishandledBreaks(version: Version, s: Space, begin: nat, at: nat, n: nat, perm: nat, t: Space)
    requires Canonical(s.regs) && 0 < n && begin < TWO64 && Granted(s.regs, begin, Seen(n), at)
    requires Accepted(version, s, Region(at, Seen(n)), Extra(n), perm, t)
    requires Mishandled(version, s.regs, begin, at, n)
    ensures !Canonical(t.regs)
  {
    var r := Region(at, Seen(n));
    SeenExact(n);
    GrantedFits(s.regs, begin, Seen(n), at);
    var k: nat :| AcceptedAt(version, s, r, Extra(n), perm, t, k);
    PlacedBroken(version, s.regs, r, Extra(n), k);
  }

  lemma GrantedKeeps(version: Version, s: Space, begin: nat, at: nat, n: nat, perm: nat, t: Space)
    requires Inv(s) && 0 < n && begin < TWO64 && perm < 1024 && HasU(perm)
    requires Granted(s.regs, begin, Seen(n), at) && Accepted(version, s, Region(at, Seen(n)), Extra(n), perm, t)
    requires !Mishandled(version, s.regs, begin, at, n)
    ensures Inv(t) && OtherFrames(t) == OtherFrames(s) && Mapped(s, Region(at, n), perm, t)
  {
    SeenExact(n);
    GrantedFits(s.regs, begin, n, at);
    var k: nat :| AcceptedAt(version, s, Region(at, n), 0, perm, t, k);
    SaneAccepted(version, s, Region(at, n), perm, t, k);
    MappedKeeps(s, Region(at, n), perm, t);
  }

  /** Which requests are sane, at the address they are granted. */
  lemma SaneMeans(version: Version, s: Space, begin: nat, len: nat, at: nat)
    requires var n := PageCount32(len); n > 0 && s.nodes > 0 && Granted(s.regs, begin, Seen(n), at)
    ensures SaneMmap(version, s, begin, len) <==> !Mishandled(version, s.regs, begin, at, PageCount32(len))
  {
    SeenExact(PageCount32(len));
  }

  /** sys_mmap, for every start address and every length: the invariant survives exactly the
      sane requests. In particular a request of 2^20 pages or more (as its 32-bit count has
      it) breaks it unless it is refused. */
  lemma MmapExact(version: Version, s: Space, begin: nat, len: nat, perm: nat, t: Space, ret: int)
    requires Inv(s) && begin < TWO64 && perm < 1024 && HasU(perm) && Mmap(version, s, begin, len, perm, t, ret)
    ensures Inv(t) <==> SaneMmap(version, s, begin, len)
    ensures PageCount32(len) >= 0x10_0000 ==> (Inv(t) <==> ret == -1)
    ensures Inv(t) ==> OtherFrames(t) == OtherFrames(s) && |t.regs| + t.nodes == |s.regs| + s.nodes
    ensures Inv(t) && ret != -1 ==> Mapped(s, Region(ret, PageCount32(len)), perm, t)
  {
    var n := PageCount32(len);
    if ret >= 0 {
      SaneMeans(version, s, begin, len, ret);
      if Mishandled(version, s.regs, begin, ret, n) {
        MishandledBreaks(version, s, begin, ret, n, perm, t);
      } else {
        GrantedKeeps(version, s, begin, ret, n, perm, t);
      }
    }
  }

  /** The code as written: an accepted request keeps the invariant if and only if it is one that
      the repaired code handles and it does not touch only the region behind it. */
  lemma AsWrittenExact(s: Space, begin: nat, len: nat, perm: nat, t: Space, ret: int)
    requires Inv(s) && begin < TWO64 && perm < 1024 && HasU(perm) && Mmap(AsWritten, s, begin, len, perm, t, ret)
    requires ret >= 0
    ensures Inv(t) <==> SaneMmap(Repaired, s, begin, len) && !OnlyNextTouched(s.regs, Region(ret, PageCount32(len)))
  {
    MmapExact(AsWritten, s, begin, len, perm, t, ret);
    SaneMeans(AsWritten, s, begin, len, ret);
    SaneMeans(Repaired, s, begin, len, ret);
  }

  lemma LowestEmpty(a: nat, n: nat)
    requires Lowest([], a, n) && n * 4096 <= MMAP_END - MMAP_BEGIN
    ensures a == MMAP_BEGIN
  {
    assert Fits([], MMAP_BEGIN, n);
  }

  /** A request without a start address on an empty list is granted at the area's start. */
  lemma EmptyGranted(version: Version, s: Space, begin: nat, len: nat, perm: nat, t: Space, ret: int)
    requires s.regs == [] && s.nodes > 0 && begin == 0 && Mmap(version, s, begin, len, perm, t, ret)
    requires PageCount32(len) > 0 && Seen(PageCount32(len)) * 4096 <= MMAP_END - MMAP_BEGIN
    ensures ret == MMAP_BEGIN
    ensures Accepted(version, s, Region(ret, Seen(PageCount32(len))), Extra(PageCount32(len)), perm, t)
  {
    var m := Seen(PageCount32(len));
    assert Fits(s.regs, MMAP_BEGIN, m);
    LowestEmpty(ret, m);
  }

  lemma EmptyAccepted(version: Version, s: Space, r: Region, extra: nat, perm: nat, t: Space)
    requires s.regs == [] && Accepted(version, s, r, extra, perm, t)
    ensures t.regs == [Wider(r, extra)] && BackedOrNot(s.flat, s.uowned, t.flat, t.uowned, r, perm)
  {
    var k: nat :| AcceptedAt(version, s, r, extra, perm, t, k);
    assert Merged(s.regs, r, k) == r;
  }

  lemma BackedEmpty(flat: map<nat, nat>, uowned: set<nat>, flat': map<nat, nat>, uowned': set<nat>, r: Region,
                    perm: nat)
    requires BackedOrNot(flat, uowned, flat', uowned', r, perm) && RegionPages(r) == {}
    ensures flat' == flat && uowned' == uowned
  {
    assert Opened(Closed.Backing, 0);
    assert FramesOf(flat', {}) == {};
  }

  lemma HugeCount(len: nat)
    requires len == 0x1_0000_0000
    ensures var n := PageCount32(len); n == 0x10_0000 && Seen(n) < 1 && Extra(n) == n
  {
  }

  /** A length of 2^32 on an empty list: the call succeeds, the node claims 2^20 pages, not
      one page is mapped, and the invariant is gone. */
  lemma HugeRequest(version: Version, s: Space, begin: nat, len: nat, perm: nat, t: Space, ret: int)
    requires Inv(s) && s.regs == [] && s.nodes > 0 && begin == 0 && len == 0x1_0000_0000
    requires Mmap(version, s, begin, len, perm, t, ret)
    ensures ret == MMAP_BEGIN && |t.regs| == 1 && t.regs[0].begin == MMAP_BEGIN && t.regs[0].npages == 0x10_0000
    ensures t.flat == s.flat && t.uowned == s.uowned && !Inv(t)
  {
    HugeCount(len);
    EmptyGranted(version, s, begin, len, perm, t, ret);
    HugeAccepted(version, s, Region(ret, Seen(PageCount32(len))), PageCount32(len), perm, t);
  }

  lemma HugeAccepted(version: Version, s: Space, r: Region, extra: nat, perm: nat, t: Space)
    requires s.regs == [] && Accepted(version, s, r, extra, perm, t) && r.npages < 1 && extra == 0x10_0000
    ensures |t.regs| == 1 && t.regs[0].begin == r.begin && t.regs[0].npages == extra
    ensures t.flat == s.flat && t.uowned == s.uowned && !Inv(t)
  {
    EmptyAccepted(version, s, r, extra, perm, t);
    assert RegionPages(r) == {} by {
      PagesNext(Page(r.begin), Page(r.begin));
    }
    BackedEmpty(s.flat, s.uowned, t.flat, t.uowned, r, perm);
    assert !Proper(t.regs[0]);
  }

  /** As written, a request that touches only the region behind it: both the new region and
      the one it has swallowed are on the list. */
  lemma SpoiltRequest(s: Space, perm: nat, t: Space, ret: int)
    requires Inv(s) && s.regs == [Region(MMAP_BEGIN + PGSIZE, 1)] && s.nodes > 0 && perm < 1024 && HasU(perm)
    requires Mmap(AsWritten, s, MMAP_BEGIN, PGSIZE, perm, t, ret)
    ensures SaneMmap(Repaired, s, MMAP_BEGIN, PGSIZE) && !SaneMmap(AsWritten, s, MMAP_BEGIN, PGSIZE)
    ensures ret == MMAP_BEGIN && t.regs == [Region(MMAP_BEGIN, 2), Region(MMAP_BEGIN + PGSIZE, 1)] && !Inv(t)
  {
    assert PageCount32(PGSIZE) == 1 && Seen(1) == 1;
    var r := Region(MMAP_BEGIN, 1);
    assert !Overlaps(r, s.regs[0]) && InAreaCheck(MMAP_BEGIN, PGSIZE);
    assert s.regs[0].begin == r.End() && OnlyNextTouched(s.regs, r);
    assert Granted(s.regs, MMAP_BEGIN, 1, MMAP_BEGIN);
    assert Placed(AsWritten, s.regs, r, 0, 0) == [Region(MMAP_BEGIN, 2), Region(MMAP_BEGIN + PGSIZE, 1)];
    MmapExact(AsWritten, s, MMAP_BEGIN, PGSIZE, perm, t, ret);
  }

  // ---------- munmap (uvm.c:312-420) ----------

  /** The pages of [b, e) that belong to a region of the list. */
  ghost function CutPages(regs: seq<Region>, b: nat, e: nat): set<nat> {
    set v | b / 4096 <= v < e / 4096 && Between(b / 4096, v, e / 4096) && IsMmap(regs, v)
  }

  /** [b, e) lies strictly inside region i. */
  predicate StrictlyInside(regs: seq<Region>, b: nat, e: nat, i: nat) {
    i < |regs| && regs[i].begin < b && e < regs[i].End()
  }

  /** The split that needs a node finds none. */
  ghost predicate SplitFails(s: Space, b: nat, e: nat) {
    s.nodes == 0 && exists i: nat :: StrictlyInside(s.regs, b, e, i)
  }

  ghost predicate Removed(s: Space, b: nat, e: nat, t: Space) {
    && t == s.(regs := t.regs, flat := t.flat, uowned := t.uowned, nodes := t.nodes)
    && t.regs == Cut(s.regs, b, e)
    && |t.regs| + t.nodes == |s.regs| + s.nodes
    && Dropped(s.flat, s.uowned, t.flat, t.uowned, CutPages(s.regs, b, e))
  }

  /** The code has shortened region i and then found no node for the right part. */
  ghost predicate Truncated(s: Space, b: nat, e: nat, t: Space) {
    exists i: nat :: TruncatedAt(s, b, e, t, i)
  }

  ghost predicate TruncatedAt(s: Space, b: nat, e: nat, t: Space, i: nat) {
    StrictlyInside(s.regs, b, e, i)
    && t == s.(regs := s.regs[i := Region(s.regs[i].begin, (b - s.regs[i].begin) / 4096)])
  }

  /** The end of the range as the code computes it, before a wrap. */
  function RangeEnd(begin: nat, len: nat): nat { begin + Seen(PageCount32(len)) * 4096 }

  /** vm_unmappages gets an unaligned address or a length of 0 for this region, and halts: the
      range starts inside it and is unaligned or empty, or ends less than a page into it. */
  predicate Halts(r: Region, b: nat, e: nat) {
    || (r.begin < b < r.End() && (b % 4096 != 0 || b == e))
    || (b <= r.begin < e && e < r.begin + PGSIZE)
  }

  predicate AnyHalts(regs: seq<Region>, b: nat, e: nat) {
    exists i :: 0 <= i < |regs| && Halts(regs[i], b, e)
  }

  /** When uvm_munmap halts the kernel. */
  ghost predicate MunmapHalts(s: Space, begin: nat, len: nat) {
    var e := RangeEnd(begin, len);
    PageCount32(len) != 0 && !SplitFails(s, begin, e) && AnyHalts(s.regs, begin, e)
  }

  ghost predicate Munmap(s: Space, begin: nat, len: nat, t: Space, ret: int) {
    var e := RangeEnd(begin, len);
    if PageCount32(len) == 0 then ret == 0 && t == s
    else if SplitFails(s, begin, e) then ret == -1 && Truncated(s, begin, e, t)
    else ret == 0 && !AnyHalts(s.regs, begin, e) && Removed(s, begin, e, t)
  }

  /** The range ends strictly inside some region. */
  predicate EndInside(regs: seq<Region>, e: nat) {
    exists i :: 0 <= i < |regs| && regs[i].begin < e < regs[i].End()
  }

  /** A page of a region that a clean cut takes or leaves whole is in the range or not, as its
      first byte is. */
  lemma CleanPage(r: Region, b: nat, e: nat, v: nat)
    requires Proper(r) && Clean(r, b, e) && In(r, v * 4096)
    ensures b <= v * 4096 < e <==> Between(b / 4096, v, e / 4096)
  {
    assert b % 4096 == 0 || b <= r.begin || r.End() <= b;
  }

  /** munmap as set difference: list, translations and frames lose exactly the range. */
  lemma RemovedKeeps(s: Space, b: nat, e: nat, t: Space)
    requires Inv(s) && Removed(s, b, e, t) && forall i :: 0 <= i < |s.regs| ==> Clean(s.regs[i], b, e)
    ensures Inv(t) && OtherFrames(t) == OtherFrames(s)
    ensures forall a :: Covers(t.regs, a) <==> Covers(s.regs, a) && !(b <= a < e)
  {
    CutRemoves(s.regs, b, e);
    assert Ordered(t);
    var pages := CutPages(s.regs, b, e);
    forall v: nat
      ensures v in pages ==> v < TF_PAGE && !(v in s.fixed || IsHeap(s, v) || IsStack(s, v))
      ensures IsMmap(t.regs, v) <==> IsMmap(s.regs, v) && v !in pages
      ensures IsHeap(t, v) == IsHeap(s, v) && IsStack(t, v) == IsStack(s, v)
    {
      AreasApart(s, v);
      if IsMmap(s.regs, v) {
        MmapBounds(s.regs, v);
        var i :| 0 <= i < |s.regs| && In(s.regs[i], v * 4096);
        CleanPage(s.regs[i], b, e, v);
      }
      assert v in pages <==> Between(b / 4096, v, e / 4096) && IsMmap(s.regs, v);
    }
    LossKeeps(s, t, pages);
  }

  /** A truncated region leaves a page mapped that no region covers any more. */
  lemma TruncatedBreaks(s: Space, b: nat, e: nat, t: Space)
    requires Inv(s) && b <= e && Truncated(s, b, e, t)
    ensures b / 4096 in t.flat && !IsMmap(t.regs, b / 4096) && !Inv(t)
  {
    var i: nat :| TruncatedAt(s, b, e, t, i);
    assert Proper(s.regs[i]) && In(s.regs[i], b / 4096 * 4096);
    assert IsMmap(s.regs, b / 4096);
    AreasApart(s, b / 4096);
    TruncatedUncovers(s.regs, b, i);
    assert Opened(Closed.Agreement, 0);
    assert IsStack(t, b / 4096) == IsStack(s, b / 4096) && IsHeap(t, b / 4096) == IsHeap(s, b / 4096);
  }

  lemma TruncatedUncovers(regs: seq<Region>, b: nat, i: nat)
    requires Canonical(regs) && i < |regs| && regs[i].begin < b < regs[i].End()
    ensures !Covers(regs[i := Region(regs[i].begin, (b - regs[i].begin) / 4096)], b / 4096 * 4096)
  {
    assert Proper(regs[i]) && In(regs[i], b / 4096 * 4096);
    assert Region(regs[i].begin, (b - regs[i].begin) / 4096).End() <= b / 4096 * 4096;
    forall j | 0 <= j < |regs| && j != i
      ensures !In(regs[j], b / 4096 * 4096)
    {
      assert j < i ==> regs[j].End() < regs[i].begin;
      assert i < j ==> regs[i].End() < regs[j].begin;
    }
  }

  /** A region cut at an unaligned end starts at that end. */
  lemma {:induction false} RaggedEnd(regs: seq<Region>, b: nat, e: nat, i: nat)
    requires Canonical(regs) && i < |regs| && b <= regs[i].begin < e < regs[i].End()
    ensures Region(e, (regs[i].End() - e) / 4096) in Cut(regs, b, e)
  {
    CanonicalTail(regs);
    if i > 0 {
      assert regs[1..][i - 1] == regs[i];
      RaggedEnd(regs[1..], b, e, i - 1);
    }
  }

  /** Where the code does not halt, the cut is clean unless it ends inside a region. */
  lemma NoHaltClean(regs: seq<Region>, b: nat, m: nat, i: nat)
    requires Canonical(regs) && !AnyHalts(regs, b, b + m * 4096) && i < |regs|
    requires b % 4096 == 0 || !EndInside(regs, b + m * 4096)
    ensures Clean(regs[i], b, b + m * 4096)
  {
    assert !Halts(regs[i], b, b + m * 4096);
    assert Proper(regs[i]);
  }

  /** sys_munmap, for every start address and every length, where it returns: the invariant
      survives exactly when the call succeeds and the range, if it is not page aligned, ends
      inside no region; and it fails exactly when a split is needed and no node is free. */
  lemma MunmapExact(s: Space, begin: nat, len: nat, t: Space, ret: int)
    requires Inv(s) && Munmap(s, begin, len, t, ret)
    ensures Inv(t)
      <==> ret == 0 && (PageCount32(len) == 0 || begin % 4096 == 0 || !EndInside(s.regs, RangeEnd(begin, len)))
    ensures ret == 0 <==> PageCount32(len) == 0 || !SplitFails(s, begin, RangeEnd(begin, len))
    ensures |t.regs| + t.nodes == |s.regs| + s.nodes
    ensures Inv(t) ==> OtherFrames(t) == OtherFrames(s)
  {
    var m, e := Seen(PageCount32(len)), RangeEnd(begin, len);
    if PageCount32(len) > 0 {
      if SplitFails(s, begin, e) {
        TruncatedBreaks(s, begin, e, t);
      } else if begin % 4096 == 0 || !EndInside(s.regs, e) {
        forall i | 0 <= i < |s.regs|
          ensures Clean(s.regs[i], begin, e)
        {
          NoHaltClean(s.regs, begin, m, i);
        }
        RemovedKeeps(s, begin, e, t);
      } else {
        RaggedBreaks(s.regs, begin, m);
      }
    }
  }

  /** Where the code returns, the list loses exactly the range if and only if the range starts on
      a page boundary or ends inside no region. */
  lemma MunmapCovers(s: Space, begin: nat, len: nat, t: Space)
    requires Inv(s) && Munmap(s, begin, len, t, 0) && PageCount32(len) > 0
    ensures (forall a :: Covers(t.regs, a) <==> Covers(s.regs, a) && !(begin <= a < RangeEnd(begin, len)))
            <==> begin % 4096 == 0 || !EndInside(s.regs, RangeEnd(begin, len))
  {
    var m, e := Seen(PageCount32(len)), RangeEnd(begin, len);
    if begin % 4096 == 0 || !EndInside(s.regs, e) {
      CutsClean(s.regs, begin, m);
    } else {
      CutsRagged(s.regs, begin, m);
    }
    assert CutsExactly(s.regs, begin, e) <==> forall a :: Covers(t.regs, a) <==> Covers(s.regs, a) && !(begin <= a < e);
  }

  lemma CutsClean(regs: seq<Region>, b: nat, m: nat)
    requires Canonical(regs) && !AnyHalts(regs, b, b + m * 4096)
    requires b % 4096 == 0 || !EndInside(regs, b + m * 4096)
    ensures CutsExactly(regs, b, b + m * 4096)
  {
    forall i | 0 <= i < |regs|
      ensures Clean(regs[i], b, b + m * 4096)
    {
      NoHaltClean(regs, b, m, i);
    }
    CutRemoves(regs, b, b + m * 4096);
  }

  lemma CutsRagged(regs: seq<Region>, b: nat, m: nat)
    requires Canonical(regs) && !AnyHalts(regs, b, b + m * 4096)
    requires b % 4096 != 0 && EndInside(regs, b + m * 4096)
    ensures !CutsExactly(regs, b, b + m * 4096)
  {
    var e := b + m * 4096;
    var i :| 0 <= i < |regs| && regs[i].begin < e < regs[i].End();
    assert !Halts(regs[i], b, e) && Cuts(regs[i], b, e);
    CutExact(regs, b, m);
  }

  /** A cut that ends inside a region away from a page boundary leaves no canonical list. */
  lemma RaggedBreaks(regs: seq<Region>, b: nat, m: nat)
    requires Canonical(regs) && !AnyHalts(regs, b, b + m * 4096) && b % 4096 != 0 && EndInside(regs, b + m * 4096)
    ensures !Canonical(Cut(regs, b, b + m * 4096))
  {
    var e := b + m * 4096;
    assert e % 4096 != 0;
    var i :| 0 <= i < |regs| && regs[i].begin < e < regs[i].End();
    assert !Halts(regs[i], b, e);
    RaggedEnd(regs, b, e, i);
    var out := Cut(regs, b, e);
    var j :| 0 <= j < |out| && out[j] == Region(e, (regs[i].End() - e) / 4096);
    assert !Proper(out[j]);
  }

  // ---------- the three ways it goes wrong, on one region of three pages ----------

  /** Three pages from the middle of the first page on: the kernel halts. */
  lemma HaltingRequest(s: Space)
    requires Inv(s) && s.regs == [Region(MMAP_BEGIN, 3)]
    ensures MunmapHalts(s, MMAP_BEGIN + 2048, 3 * PGSIZE)
  {
    assert PageCount32(3 * PGSIZE) == 3 && Seen(3) == 3;
    assert Halts(s.regs[0], MMAP_BEGIN + 2048, RangeEnd(MMAP_BEGIN + 2048, 3 * PGSIZE));
  }

  /** Two pages from half a page in front of the region on: one page is unmapped, and the region
      that is left starts in the middle of the next. */
  lemma RaggedRequest(s: Space, t: Space, ret: int)
    requires Inv(s) && s.regs == [Region(MMAP_BEGIN, 3)] && Munmap(s, MMAP_BEGIN - 2048, 2 * PGSIZE, t, ret)
    ensures ret == 0 && t.regs == [Region(MMAP_BEGIN + 6144, 1)]
    ensures t.flat.Keys == s.flat.Keys - {Page(MMAP_BEGIN)} && !Inv(t)
  {
    var b, e := MMAP_BEGIN - 2048, MMAP_BEGIN + 6144;
    assert PageCount32(2 * PGSIZE) == 2 && Seen(2) == 2 && RangeEnd(b, 2 * PGSIZE) == e;
    MunmapExact(s, b, 2 * PGSIZE, t, ret);
    assert s.regs[0].begin < e < s.regs[0].End();
    CutSingle(s.regs[0], b, e);
    RaggedPages(s.regs, b, e);
    assert t.flat.Keys == s.flat.Keys - CutPages(s.regs, b, e) by {
      assert Opened(Closed.Backing, 0);
    }
  }

  lemma RaggedPages(regs: seq<Region>, b: nat, e: nat)
    requires regs == [Region(MMAP_BEGIN, 3)] && b == MMAP_BEGIN - 2048 && e == MMAP_BEGIN + 6144
    ensures CutPages(regs, b, e) == {Page(MMAP_BEGIN)}
  {
    assert In(regs[0], Page(MMAP_BEGIN) * 4096);
    assert Between(b / 4096, Page(MMAP_BEGIN), e / 4096);
  }

  lemma CutSingle(r: Region, b: nat, e: nat)
    ensures Cut([r], b, e) == CutOne(r, b, e)
  {
    assert Cut([r][1..], b, e) == [];
  }

  /** The middle page, with no node left: the call fails, the region has lost its last two
      pages, and both are still mapped. */
  lemma FailedSplit(s: Space, t: Space, ret: int)
    requires Inv(s) && s.regs == [Region(MMAP_BEGIN, 3)] && s.nodes == 0
    requires Munmap(s, MMAP_BEGIN + PGSIZE, PGSIZE, t, ret)
    ensures ret == -1 && t.regs == [Region(MMAP_BEGIN, 1)] && t.flat == s.flat && !Inv(t)
    ensures Page(MMAP_BEGIN) + 1 in t.flat && Page(MMAP_BEGIN) + 2 in t.flat
  {
    var b, e := MMAP_BEGIN + PGSIZE, MMAP_BEGIN + 2 * PGSIZE;
    assert PageCount32(PGSIZE) == 1 && Seen(1) == 1 && RangeEnd(b, PGSIZE) == e;
    assert StrictlyInside(s.regs, b, e, 0);
    MunmapExact(s, b, PGSIZE, t, ret);
    var i: nat :| TruncatedAt(s, b, e, t, i);
    assert t.regs == [Region(MMAP_BEGIN, 1)];
    forall v | v == Page(MMAP_BEGIN) + 1 || v == Page(MMAP_BEGIN) + 2
      ensures v in s.flat
    {
      assert In(s.regs[0], v * 4096);
      assert IsMmap(s.regs, v);
      AreasApart(s, v);
      assert Opened(Closed.Agreement, 0);
    }
  }
}
