/** Whole runs: any sequence of memory calls by one process. */
module Runs {
  import opened Layout
  import opened Outcomes
  import opened Regions
  import opened Kvm
  import opened Spaces
  import opened Calls

  datatype Call =
    | BrkCall(newTop: nat)
    | MmapCall(begin: nat, len: nat)
    | MunmapCall(begin: nat, len: nat)
    | FaultCall(va: nat)

  datatype Event = Event(call: Call, ret: int)

  const RW := PTE_R + PTE_W

  /** Arguments are uint64 values. */
  predicate Admissible(c: Call) {
    match c
    case BrkCall(newTop) => newTop < TWO64
    case MmapCall(begin, len) => begin < TWO64 && len < TWO64
    case MunmapCall(begin, len) => begin < TWO64 && len < TWO64
    case FaultCall(va) => va < TWO64
  }

  /** The code, taken in this version, returns e.ret and leaves t. There is no step for a call
      that halts the kernel. */
  ghost predicate Step(version: Version, s: Space, e: Event, t: Space) {
    Admissible(e.call) &&
    match e.call
    case BrkCall(newTop) => Brk(s, newTop, t, e.ret)
    case MmapCall(begin, len) => Mmap(version, s, begin, len, OrFlag(RW, PTE_U), t, e.ret)
    case MunmapCall(begin, len) => Munmap(s, begin, len, t, e.ret)
    case FaultCall(va) => Fault(s, va, t, e.ret)
  }

  /** Calls that the code, taken in this version, handles as the design intends; a caller can
      tell beforehand. */
  ghost predicate Sane(version: Version, s: Space, c: Call) {
    match c
    case BrkCall(newTop) => SaneTop(newTop)
    case MmapCall(begin, len) => SaneMmap(version, s, begin, len)
    case MunmapCall(begin, len) =>
      var e := RangeEnd(begin, len);
      PageCount32(len) == 0 || (!SplitFails(s, begin, e) && (begin % 4096 == 0 || !EndInside(s.regs, e)))
    case FaultCall(va) => true
  }

  /** What no call may change. */
  ghost predicate SameElsewhere(s: Space, t: Space) {
    && OtherFrames(t) == OtherFrames(s)
    && t.kothers == s.kothers
    && t.fixed == s.fixed && SameFixed(s, t)
    && |t.regs| + t.nodes == |s.regs| + s.nodes
  }

  /** The fixed pages are mapped as they were. */
  ghost predicate SameFixed(s: Space, t: Space) {
    forall v :: v in s.fixed ==> v in s.flat && v in t.flat && t.flat[v] == s.flat[v]
  }

  /** Only pages in the heap, mmap or stack area have been mapped. */
  lemma BackedFixed(s: Space, t: Space, pages: set<nat>, perm: nat)
    requires Inv(s) && Inv(t) && t.fixed == s.fixed && Backed(s.flat, s.uowned, t.flat, t.uowned, pages, perm)
    requires forall v :: v in pages ==> HEAP_PAGE <= v < TF_PAGE
    ensures SameFixed(s, t)
  {
    UnchangedFixed(s, s);
    assert Opened(Closed.Backing, 0);
    assert forall v :: v in s.fixed ==> v !in pages;
  }

  lemma DroppedFixed(s: Space, t: Space, pages: set<nat>)
    requires Inv(s) && Inv(t) && t.fixed == s.fixed && Dropped(s.flat, s.uowned, t.flat, t.uowned, pages)
    ensures SameFixed(s, t)
  {
    assert Opened(Closed.Agreement, 0);
    assert forall v :: v in s.fixed ==> Wanted(s, v) && Wanted(t, v);
  }

  lemma UnchangedFixed(s: Space, t: Space)
    requires Inv(s) && t.flat == s.flat
    ensures SameFixed(s, t)
  {
    assert Opened(Closed.Agreement, 0);
    assert forall v :: v in s.fixed ==> Wanted(s, v);
  }

  lemma BrkFixed(s: Space, newTop: nat, t: Space, ret: int)
    requires Inv(s) && Inv(t) && Brk(s, newTop, t, ret) && newTop < TWO64
    ensures SameFixed(s, t)
  {
    UnchangedFixed(s, s);
    if newTop > s.heapTop && t.flat != s.flat {
      HeapPages(s, 0);
      HeapPages(t, 0);
      var pages := Pages(PgRoundUp(s.heapTop) / 4096, PgRoundUp(newTop) / 4096);
      assert forall v :: v in pages ==> Between(PgRoundUp(s.heapTop) / 4096, v, PgRoundUp(newTop) / 4096);
      BackedFixed(s, t, pages, RWU);
    } else if 0 < newTop < s.heapTop {
      DroppedFixed(s, t, Pages(PgRoundUp(newTop) / 4096, HeapEnd(s)));
    }
  }

  lemma FaultFixed(s: Space, va: nat, t: Space, ret: int)
    requires Inv(s) && Inv(t) && Fault(s, va, t, ret)
    ensures SameFixed(s, t)
  {
    UnchangedFixed(s, s);
    if t != s {
      var pages := Pages(Page(va), TF_PAGE - s.ustack);
      assert forall v :: v in pages ==> Between(Page(va), v, TF_PAGE - s.ustack);
      BackedFixed(s, t, pages, RWU);
    }
  }

  lemma MappedFixed(s: Space, t: Space, r: Region, perm: nat)
    requires Inv(s) && Inv(t) && Proper(r) && Mapped(s, r, perm, t)
    ensures SameFixed(s, t)
  {
    assert forall v :: v in RegionPages(r) ==> Between(Page(r.begin), v, Page(r.begin) + r.npages);
    BackedFixed(s, t, RegionPages(r), perm);
  }

  lemma MmapFixed(version: Version, s: Space, begin: nat, len: nat, t: Space, ret: int)
    requires Inv(s) && Inv(t) && begin < TWO64 && Mmap(version, s, begin, len, OrFlag(RW, PTE_U), t, ret)
    ensures SameFixed(s, t)
  {
    UnchangedFixed(s, s);
    OrUser(RW);
    MmapExact(version, s, begin, len, OrFlag(RW, PTE_U), t, ret);
    if ret >= 0 {
      SaneGranted(version, s, begin, len, t, ret);
      MappedFixed(s, t, Region(ret, PageCount32(len)), OrFlag(RW, PTE_U));
    }
  }

  lemma MunmapFixed(s: Space, begin: nat, len: nat, t: Space, ret: int)
    requires Inv(s) && Inv(t) && Munmap(s, begin, len, t, ret)
    ensures SameFixed(s, t)
  {
    UnchangedFixed(s, s);
    MunmapExact(s, begin, len, t, ret);
    if PageCount32(len) != 0 {
      DroppedFixed(s, t, CutPages(s.regs, begin, RangeEnd(begin, len)));
    }
  }

  lemma StepFixed(version: Version, s: Space, e: Event, t: Space)
    requires Inv(s) && Inv(t) && Step(version, s, e, t)
    ensures SameFixed(s, t)
  {
    match e.call
    case BrkCall(newTop) => BrkFixed(s, newTop, t, e.ret);
    case MmapCall(begin, len) => MmapFixed(version, s, begin, len, t, e.ret);
    case MunmapCall(begin, len) => MunmapFixed(s, begin, len, t, e.ret);
    case FaultCall(va) => FaultFixed(s, va, t, e.ret);
  }

  lemma StepKeeps(version: Version, s: Space, e: Event, t: Space)
    requires Inv(s) && Step(version, s, e, t)
    ensures Inv(t) <==> Sane(version, s, e.call)
    ensures Inv(t) ==>
      && OtherFrames(t) == OtherFrames(s) && t.kothers == s.kothers && t.fixed == s.fixed
      && |t.regs| + t.nodes == |s.regs| + s.nodes
  {
    match e.call
    case BrkCall(newTop) => BrkExact(s, newTop, t, e.ret);
    case MmapCall(begin, len) =>
      OrUser(RW);
      MmapExact(version, s, begin, len, OrFlag(RW, PTE_U), t, e.ret);
    case MunmapCall(begin, len) => MunmapExact(s, begin, len, t, e.ret);
    case FaultCall(va) => FaultKeeps(s, va, t, e.ret);
  }

  /** A call keeps the invariant exactly when it is sane, and then it takes nothing from and
      gives nothing to anybody else. */
  lemma StepExact(version: Version, s: Space, e: Event, t: Space)
    requires Inv(s) && Step(version, s, e, t)
    ensures Inv(t) <==> Sane(version, s, e.call)
    ensures Inv(t) ==> SameElsewhere(s, t)
  {
    StepKeeps(version, s, e, t);
    if Inv(t) {
      StepFixed(version, s, e, t);
    }
  }

  ghost predicate Run(version: Version, ss: seq<Space>, es: seq<Event>) {
    && |ss| == |es| + 1
    && forall i {:trigger es[i]} :: 0 <= i < |es| ==> Step(version, ss[i], es[i], ss[i + 1])
  }

  ghost predicate SaneUpTo(version: Version, ss: seq<Space>, es: seq<Event>, n: nat)
    requires |ss| == |es| + 1 && n <= |es|
  {
    forall i {:trigger es[i]} :: 0 <= i < n ==> Sane(version, ss[i], es[i].call)
  }

  ghost predicate InvUpTo(ss: seq<Space>, n: nat)
    requires n < |ss|
  {
    forall i {:trigger ss[i]} :: 0 <= i <= n ==> Inv(ss[i])
  }

  /** The whole-run invariant: along a run from a state with the invariant, every state has
      it exactly when every call was sane; and nothing of anybody else's is ever touched. */
  lemma {:induction false} RunExact(version: Version, ss: seq<Space>, es: seq<Event>, n: nat)
    requires Run(version, ss, es) && Inv(ss[0]) && n <= |es|
    ensures InvUpTo(ss, n) <==> SaneUpTo(version, ss, es, n)
    ensures InvUpTo(ss, n) ==> SameElsewhere(ss[0], ss[n])
  {
    UnchangedFixed(ss[0], ss[0]);
    if n > 0 {
      RunExact(version, ss, es, n - 1);
      assert Step(version, ss[n - 1], es[n - 1], ss[n]);
      if InvUpTo(ss, n - 1) {
        StepExact(version, ss[n - 1], es[n - 1], ss[n]);
      }
      assert SaneUpTo(version, ss, es, n)
        <==> SaneUpTo(version, ss, es, n - 1) && Sane(version, ss[n - 1], es[n - 1].call);
      assert InvUpTo(ss, n) <==> InvUpTo(ss, n - 1) && Inv(ss[n]);
    }
  }

  // ---------- what the invariant says ----------

  /** Below the trapframe exactly the code page, the heap up to the rounded top, the pages of
      the mmap list and the stack are mapped, in this order and without meeting, each to a
      frame of its own that is not free; heap and stack read-write. */
  lemma InvMeans(s: Space, v: nat)
    requires Inv(s) && CODE_PAGE in s.fixed && v < TF_PAGE
    ensures v in s.flat <==> v == CODE_PAGE || IsHeap(s, v) || IsMmap(s.regs, v) || IsStack(s, v)
    ensures CODE_PAGE < HEAP_PAGE <= HeapEnd(s) && HeapEnd(s) * 4096 <= MMAP_BEGIN
    ensures IsMmap(s.regs, v) ==> MMAP_BEGIN <= v * 4096 < MMAP_END
    ensures IsStack(s, v) ==> MMAP_END <= v * 4096
    ensures v in s.flat ==> PteToPa(s.flat[v]) in s.uowned
    ensures forall w :: w in s.flat && v in s.flat && w < TF_PAGE && w != v ==> PteToPa(s.flat[w]) != PteToPa(s.flat[v])
    ensures IsHeap(s, v) || IsStack(s, v) ==> PteFlags(s.flat[v]) == PTE_R + PTE_W + PTE_U + PTE_V
  {
    HeapPages(s, v);
    AreasApart(s, v);
    if IsMmap(s.regs, v) {
      MmapBounds(s.regs, v);
    }
    assert Opened(Closed.Agreement, 0);
    forall w | w in s.flat && v in s.flat && w < TF_PAGE && w != v
      ensures PteToPa(s.flat[w]) != PteToPa(s.flat[v])
    {
      assert Differ(w, v);
    }
  }

  // ---------- the heap depends only on the last top ----------

  /** The top that the accepted brk calls of a run leave. */
  function TopAfter(top: nat, es: seq<Event>): nat {
    if es == [] then top
    else
      var e := es[|es| - 1];
      if e.call.BrkCall? && e.call.newTop != 0 && e.ret == e.call.newTop then e.call.newTop
      else TopAfter(top, es[..|es| - 1])
  }

  lemma {:induction false} RunTop(version: Version, ss: seq<Space>, es: seq<Event>)
    requires Run(version, ss, es)
    ensures ss[|es|].heapTop == TopAfter(ss[0].heapTop, es)
  {
    if es != [] {
      var n := |es| - 1;
      RunPrefix(version, ss, es, n);
      RunTop(version, ss[..n + 1], es[..n]);
      assert Step(version, ss[n], es[n], ss[n + 1]);
    }
  }

  lemma RunPrefix(version: Version, ss: seq<Space>, es: seq<Event>, n: nat)
    requires Run(version, ss, es) && n <= |es|
    ensures Run(version, ss[..n + 1], es[..n])
  {
    forall i | 0 <= i < n
      ensures Step(version, ss[..n + 1][i], es[..n][i], ss[..n + 1][i + 1])
    {
      assert Step(version, ss[i], es[i], ss[i + 1]);
    }
  }

  /** Two runs with the same last top, whatever else happened in them, end with the same
      heap pages mapped. */
  lemma HeapPathIndependent(version: Version, ss: seq<Space>, es: seq<Event>, ts: seq<Space>, ds: seq<Event>, v: nat)
    requires Run(version, ss, es) && Run(version, ts, ds) && Inv(ss[0]) && Inv(ts[0])
    requires SaneUpTo(version, ss, es, |es|) && SaneUpTo(version, ts, ds, |ds|)
    requires TopAfter(ss[0].heapTop, es) == TopAfter(ts[0].heapTop, ds)
    requires HEAP_PAGE <= v && v * 4096 < MMAP_BEGIN
    ensures v in ss[|es|].flat <==> v in ts[|ds|].flat
  {
    RunExact(version, ss, es, |es|);
    RunExact(version, ts, ds, |ds|);
    RunTop(version, ss, es);
    RunTop(version, ts, ds);
    HeapPage(ss[|es|], v);
    HeapPage(ts[|ds|], v);
  }

  lemma HeapPage(s: Space, v: nat)
    requires Inv(s) && HEAP_PAGE <= v && v * 4096 < MMAP_BEGIN
    ensures v in s.flat <==> v < HeapEnd(s)
  {
    assert Opened(Closed.Agreement, 0);
    AreasApart(s, v);
    if IsMmap(s.regs, v) {
      MmapBounds(s.regs, v);
    }
  }

  // ---------- the stack reaches down to the lowest handled fault ----------

  /** The lowest stack page after one more event. */
  function BottomStep(bottom: int, e: Event): int {
    if e.call.FaultCall? && e.ret == 0 && Page(e.call.va) < bottom then Page(e.call.va) else bottom
  }

  function BottomAfter(bottom: int, es: seq<Event>): int {
    if es == [] then bottom else BottomStep(BottomAfter(bottom, es[..|es| - 1]), es[|es| - 1])
  }

  lemma StepStack(version: Version, s: Space, e: Event, t: Space)
    requires Inv(s) && Step(version, s, e, t)
    ensures TF_PAGE - t.ustack == BottomStep(TF_PAGE - s.ustack, e)
    ensures s.ustack <= t.ustack
  {
    if e.call.FaultCall? {
      FaultKeeps(s, e.call.va, t, e.ret);
    }
  }

  /** The stack is one run of pages from the lowest page that a handled fault of the run (or
      the start) has reached; it never passes 4096 pages. */
  lemma {:induction false} RunStack(version: Version, ss: seq<Space>, es: seq<Event>, n: nat)
    requires Run(version, ss, es) && Inv(ss[0]) && SaneUpTo(version, ss, es, |es|) && n <= |es|
    ensures TF_PAGE - ss[n].ustack == BottomAfter(TF_PAGE - ss[0].ustack, es[..n])
    ensures ss[0].ustack <= ss[n].ustack <= 4096
  {
    RunExact(version, ss, es, |es|);
    assert Inv(ss[n]);
    if n > 0 {
      RunStack(version, ss, es, n - 1);
      assert Step(version, ss[n - 1], es[n - 1], ss[n]) && Inv(ss[n - 1]);
      StepStack(version, ss[n - 1], es[n - 1], ss[n]);
      assert es[..n][..n - 1] == es[..n - 1];
    }
  }

  /** The stack never shrinks; a handled fault takes it down to the faulting page. */
  lemma StackGrows(version: Version, s: Space, e: Event, t: Space)
    requires Inv(s) && Step(version, s, e, t)
    ensures s.ustack <= t.ustack
    ensures e.call.FaultCall? && e.ret == 0 ==> TF_PAGE - t.ustack == Page(e.call.va) < TF_PAGE
  {
    if e.call.FaultCall? {
      FaultKeeps(s, e.call.va, t, e.ret);
    }
  }

  /** A stack page is mapped user read-write. */
  lemma StackPage(s: Space, v: nat)
    requires Inv(s) && IsStack(s, v)
    ensures v in s.flat && PteFlags(s.flat[v]) == RWU + PTE_V
  {
    assert Opened(Closed.Agreement, 0);
  }

  /** A handled fault's page stays mapped user read-write for the rest of the run. */
  lemma {:induction false} FaultStays(version: Version, ss: seq<Space>, es: seq<Event>, i: nat, n: nat)
    requires Run(version, ss, es) && Inv(ss[0]) && SaneUpTo(version, ss, es, |es|) && i < n <= |es|
    requires es[i].call.FaultCall? && es[i].ret == 0
    ensures var v := Page(es[i].call.va); IsStack(ss[n], v) && v in ss[n].flat && PteFlags(ss[n].flat[v]) == RWU + PTE_V
  {
    RunExact(version, ss, es, |es|);
    var v := Page(es[i].call.va);
    assert Step(version, ss[n - 1], es[n - 1], ss[n]);
    assert Inv(ss[n - 1]) && Inv(ss[n]);
    StackGrows(version, ss[n - 1], es[n - 1], ss[n]);
    if n > i + 1 {
      FaultStays(version, ss, es, i, n - 1);
    }
    StackPage(ss[n], v);
  }

  // ---------- mmap followed by munmap ----------

  /** A split makes the list one longer. */
  lemma {:induction false} SplitCount(regs: seq<Region>, b: nat, e: nat, i: nat)
    requires Canonical(regs) && b < e && StrictlyInside(regs, b, e, i)
    ensures |Cut(regs, b, e)| == |regs| + 1
  {
    CanonicalTail(regs);
    if i == 0 {
      CutAbove(regs[1..], b, e);
    } else {
      assert regs[1..][i - 1] == regs[i];
      SplitCount(regs[1..], b, e, i - 1);
      assert CutOne(regs[0], b, e) == [regs[0]];
    }
  }

  /** Cutting a range out again restores a canonical list that did not cover it. */
  lemma CutRestores(regs: seq<Region>, r: Region, regs': seq<Region>)
    requires Canonical(regs) && Canonical(regs') && Proper(r) && Free(regs, r)
    requires forall a :: Covers(regs', a) <==> Covers(regs, a) || In(r, a)
    ensures Cut(regs', r.begin, r.End()) == regs
  {
    var out := Cut(regs', r.begin, r.End());
    assert r.End() % 4096 == 0;
    CutRemoves(regs', r.begin, r.End());
    forall a
      ensures Covers(out, a) <==> Covers(regs, a)
    {
      if In(r, a) {
        FreeUncovered(regs, r, a);
      }
    }
    CanonicalUnique(out, regs);
  }

  /** The range just mapped covers whole mmap pages, all of which a cut of it drops. */
  lemma CutPagesAll(regs: seq<Region>, r: Region)
    requires Proper(r) && forall a :: In(r, a) ==> Covers(regs, a)
    ensures CutPages(regs, r.begin, r.End()) == RegionPages(r)
  {
    forall v: nat
      ensures v in CutPages(regs, r.begin, r.End()) <==> v in RegionPages(r)
    {
      PageMultiple(v, r);
      assert v in CutPages(regs, r.begin, r.End()) <==> Between(r.begin / 4096, v, r.End() / 4096) && IsMmap(regs, v);
    }
  }

  /** Dropping pages that were just backed restores translations and frames. */
  lemma BackedDropped(flat: map<nat, nat>, uowned: set<nat>, f1: map<nat, nat>, u1: set<nat>, f2: map<nat, nat>,
                      u2: set<nat>, pages: set<nat>, perm: nat)
    requires Backed(flat, uowned, f1, u1, pages, perm) && Dropped(f1, u1, f2, u2, pages)
    requires forall v :: v in pages ==> v !in flat
    ensures f2 == flat && u2 == uowned
  {
    assert Opened(Closed.Backing, 0);
    assert uowned !! FramesOf(f1, pages);
  }

  /** The pages of a region that a list leaves free are not mapped. */
  lemma FreeUnmapped(s: Space, r: Region)
    requires Inv(s) && Proper(r) && Free(s.regs, r)
    ensures forall v :: v in RegionPages(r) ==> v !in s.flat
  {
    forall v: nat | v in RegionPages(r)
      ensures v !in s.flat
    {
      PageMultiple(v, r);
      FreeUncovered(s.regs, r, v * 4096);
      assert In([r][0], v * 4096);
      assert IsMmap([r], v);
      AreasApart(s.(regs := [r]), v);
      assert Opened(Closed.Agreement, 0);
    }
  }

  /** Where a sane granted request ends up. */
  lemma SaneGranted(version: Version, s: Space, begin: nat, len: nat, t: Space, at: nat)
    requires Inv(s) && begin < TWO64 && Mmap(version, s, begin, len, OrFlag(RW, PTE_U), t, at)
    requires SaneMmap(version, s, begin, len)
    ensures var r := Region(at, PageCount32(len));
      Inv(t) && PageCount32(len) < 0x10_0000 && Proper(r) && Free(s.regs, r) && Mapped(s, r, OrFlag(RW, PTE_U), t)
  {
    var n := PageCount32(len);
    OrUser(RW);
    MmapExact(version, s, begin, len, OrFlag(RW, PTE_U), t, at);
    SeenExact(n);
    GrantedFits(s.regs, begin, n, at);
    if begin == 0 {
      LowestAligned(s.regs, at, n);
    }
  }

  /** A munmap of the range just mapped neither halts nor fails. */
  lemma UnmapWorks(s: Space, r: Region, perm: nat, t: Space)
    requires Canonical(s.regs) && Proper(r) && Free(s.regs, r) && Mapped(s, r, perm, t)
    ensures !SplitFails(t, r.begin, r.End()) && !AnyHalts(t.regs, r.begin, r.End())
    ensures Cut(t.regs, r.begin, r.End()) == s.regs
  {
    CutRestores(s.regs, r, t.regs);
    forall i: nat
      ensures StrictlyInside(t.regs, r.begin, r.End(), i) ==> t.nodes > 0
    {
      if StrictlyInside(t.regs, r.begin, r.End(), i) {
        SplitCount(t.regs, r.begin, r.End(), i);
      }
    }
    forall i | 0 <= i < |t.regs|
      ensures !Halts(t.regs[i], r.begin, r.End())
    {
      assert Proper(t.regs[i]);
      NoPartPage(t.regs[i], r);
    }
  }

  lemma NoPartPage(q: Region, r: Region)
    requires Proper(q) && Proper(r)
    ensures !Halts(q, r.begin, r.End())
  {
  }

  lemma Restored(s: Space, r: Region, perm: nat, t: Space, u: Space)
    requires Inv(s) && Proper(r) && Free(s.regs, r) && Mapped(s, r, perm, t)
    requires Removed(t, r.begin, r.End(), u) && u.regs == s.regs
    ensures u == s
  {
    CutPagesAll(t.regs, r);
    FreeUnmapped(s, r);
    BackedDropped(s.flat, s.uowned, t.flat, t.uowned, u.flat, u.uowned, RegionPages(r), perm);
  }

  /** munmap of the range just mapped, through the length that mmap was given. */
  lemma UnmapRestores(s: Space, r: Region, perm: nat, t: Space, len: nat, ret: int, u: Space)
    requires Inv(s) && Proper(r) && Free(s.regs, r) && Mapped(s, r, perm, t) && PageCount32(len) == r.npages
    ensures !MunmapHalts(t, r.begin, len)
    ensures Munmap(t, r.begin, len, u, ret) ==> ret == 0 && u == s
  {
    SeenExact(r.npages);
    assert RangeEnd(r.begin, len) == r.End();
    UnmapWorks(s, r, perm, t);
    if Munmap(t, r.begin, len, u, ret) {
      Restored(s, r, perm, t, u);
    }
  }

  /** mmap of a range that is granted and sane, followed by munmap of that range: munmap does
      not halt, succeeds, and restores the address space: list, node count, translations and
      the set of frames. */
  lemma RoundTrip(version: Version, s: Space, begin: nat, len: nat, t: Space, at: nat, u: Space, ret: int)
    requires Inv(s) && Step(version, s, Event(MmapCall(begin, len), at), t) && Sane(version, s, MmapCall(begin, len))
    ensures !MunmapHalts(t, at, len)
    ensures Step(version, t, Event(MunmapCall(at, len), ret), u) ==> ret == 0 && u == s
  {
    SaneGranted(version, s, begin, len, t, at);
    UnmapRestores(s, Region(at, PageCount32(len)), OrFlag(RW, PTE_U), t, len, ret, u);
  }
}
