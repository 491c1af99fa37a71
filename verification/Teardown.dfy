/** Tearing a process's memory down: pgtbl_free_recursive and uvm_destroy_pgtbl
    (src/kernel/mem/uvm.c:441-493). */
module Teardown {
  import opened Layout
  import opened Outcomes
  import opened PhysMem
  import opened PageTree
  import opened Kvm
  import opened Regions
  import opened RegionPool
  import opened RegionList
  import opened Spaces
  import opened Calls
  import opened Uvm
  import opened MunmapCalls

  // ---------- the table pages ----------

  /** A table of the tree: the root at level 2, a level-1 table by its root index, a level-0
      table by both indices. */
  datatype Path = Top | Mid(a: nat) | Low(a: nat, j: nat)

  function Level(at: Path): int {
    match at case Top => 2 case Mid(_) => 1 case Low(_, _) => 0
  }

  predicate OnTree(t: Tree, at: Path) {
    match at case Top => true case Mid(a) => a in t.mid case Low(a, j) => (a, j) in t.low
  }

  function Node(t: Tree, at: Path): nat
    requires OnTree(t, at)
  {
    match at case Top => t.root case Mid(a) => t.mid[a] case Low(a, j) => t.low[(a, j)]
  }

  function Child(at: Path, i: nat): Path
    requires !at.Low?
  {
    match at case Top => Mid(i) case Mid(a) => Low(a, i)
  }

  /** The tables below a table by way of its entries from i on, and the table itself. */
  ghost function Under(t: Tree, at: Path, i: nat): set<nat>
    requires OnTree(t, at)
  {
    {Node(t, at)} +
    match at
    case Top => (set x | x in t.mid && x >= i :: t.mid[x]) + (set k | k in t.low && k.0 >= i :: t.low[k])
    case Mid(a) => set k | k in t.low && k.0 == a && k.1 >= i :: t.low[k]
    case Low(_, _) => {}
  }

  lemma UnderAll(t: Tree)
    requires Shape(t)
    ensures Under(t, Top, 0) == Tables(t)
  {
  }

  lemma UnderEnd(t: Tree, at: Path)
    requires Shape(t) && OnTree(t, at)
    ensures Under(t, at, 512) == {Node(t, at)}
  {
  }

  /** Entry i contributes the tables below its child, which no other entry reaches. */
  lemma UnderStep(t: Tree, at: Path, i: nat)
    requires Shape(t) && OnTree(t, at) && !at.Low?
    ensures OnTree(t, Child(at, i)) ==>
      Under(t, at, i) == Under(t, at, i + 1) + Under(t, Child(at, i), 0)
        && Under(t, at, i + 1) !! Under(t, Child(at, i), 0)
    ensures !OnTree(t, Child(at, i)) ==> Under(t, at, i) == Under(t, at, i + 1)
  {
  }

  /** Entry i of a table above level 0 leads to a child exactly when its bits say so. */
  lemma ChildWord(mem: Memory, t: Tree, at: Path, i: nat)
    requires TreeOk(mem, t) && OnTree(t, at) && !at.Low? && i < 512
    ensures Shape(t) && Node(t, at) in mem
    ensures var w := mem[Node(t, at)][i];
      && (HasV(w) && PteCheck(w) <==> OnTree(t, Child(at, i)))
      && (OnTree(t, Child(at, i)) ==> PteToPa(w) == Node(t, Child(at, i)))
  {
    assert Opened(Closed.TreeWords, 0);
    match at
    case Top =>
      assert Points(mem[t.root][i], t.mid, i);
      if i in t.mid {
        assert t.mid[i] in Tables(t);
        TablePte(t.mid[i]);
      }
    case Mid(a) =>
      assert MidWords(mem[t.mid[a]], t, a);
      assert Points(mem[t.mid[a]][i], t.low, (a, i));
      if (a, i) in t.low {
        assert t.low[(a, i)] in Tables(t);
        TablePte(t.low[(a, i)]);
      }
  }

  /** The tables below `at` from entry i on are still there, as they were in mem0; of those
      before, and nothing else, the kernel has got the pages back. */
  ghost predicate Freeing(pm: Pmem, mem0: Memory, t: Tree, at: Path, i: nat, kowned: set<nat>)
    requires OnTree(t, at)
    reads pm, pm.kern, pm.user
  {
    && pm.Valid()
    && pm.kern.owned == (kowned - Under(t, at, 0)) + Under(t, at, i)
    && Steady(mem0, pm.Owned(), pm.mem)
  }

  /** pgtbl_free_recursive (uvm.c:441-454): every table below and including `at` goes back to
      the kernel's free list, once, and no other page does. mem0 is memory when the teardown
      began; tables that are still owned have not changed since. */
  method FreeTables(pm: Pmem, pgtbl: nat, level: int, ghost mem0: Memory, ghost t: Tree, ghost at: Path)
    requires pm.Valid() && -1 <= level <= 2
    requires level >= 0 ==>
      && TreeOk(mem0, t) && Shape(t) && OnTree(t, at) && level == Level(at) && pgtbl == Node(t, at)
      && Under(t, at, 0) <= pm.kern.owned && Steady(mem0, pm.Owned(), pm.mem)
    modifies pm, pm.kern
    ensures level < 0 ==> pm.mem == old(pm.mem) && pm.kern.owned == old(pm.kern.owned) && pm.Valid()
    ensures level >= 0 ==>
      && pm.Valid() && pm.kern.owned == old(pm.kern.owned) - Under(t, at, 0)
      && Steady(mem0, pm.Owned(), pm.mem)
    decreases level + 1, 1
  {
    if level < 0 {
      return;
    }
    ghost var kowned := pm.kern.owned;
    for i := 0 to 512
      invariant Freeing(pm, mem0, t, at, i, kowned)
    {
      FreeEntry(pm, pgtbl, level, i, mem0, t, at, kowned);
    }
    UnderEnd(t, at);
    pm.OwnedKernelPages(pgtbl);
    ghost var m1, owned := pm.mem, pm.Owned();
    var _ := pm.Free(pgtbl, true);
    assert pm.Owned() + {pgtbl} == owned;
    FreeSteady(mem0, m1, pm.mem, pgtbl, pm.Owned());
  }

  /** One entry of the table: uvm.c:446-451. */
  method FreeEntry(pm: Pmem, pgtbl: nat, level: int, i: nat, ghost mem0: Memory, ghost t: Tree, ghost at: Path,
                   ghost kowned: set<nat>)
    requires 0 <= level <= 2 && i < 512
    requires TreeOk(mem0, t) && Shape(t) && OnTree(t, at) && level == Level(at) && pgtbl == Node(t, at)
    requires Under(t, at, 0) <= kowned && Freeing(pm, mem0, t, at, i, kowned)
    modifies pm, pm.kern
    ensures Freeing(pm, mem0, t, at, i + 1, kowned)
    decreases level + 1, 0
  {
    assert Node(t, at) in pm.kern.owned;
    assert pgtbl in pm.mem && pm.mem[pgtbl] == mem0[pgtbl] by {
      assert Opened(Closed.Growth, 0);
    }
    var pte := pm.mem[pgtbl][i];
    if level > 0 {
      ChildWord(mem0, t, at, i);
      UnderStep(t, at, i);
    }
    if HasV(pte) && PteCheck(pte) {
      FreeTables(pm, PteToPa(pte), level - 1, mem0, t, if level > 0 then Child(at, i) else at);
    }
  }

  lemma FreeSteady(mem0: Memory, m1: Memory, m2: Memory, page: nat, owned: set<nat>)
    requires Steady(mem0, owned + {page}, m1) && page !in owned && page in m1 && page in m2
    requires m2 == m1[page := m2[page]]
    ensures Steady(mem0, owned, m2)
  {
    assert Opened(Closed.Growth, 0);
  }

  // ---------- the region list ----------

  /** Every page of the regions of a list. */
  ghost function AllPages(regs: seq<Region>): set<nat> { CutPages(regs, 0, VA_MAX) }

  lemma AllPagesAre(regs: seq<Region>, v: nat)
    requires Canonical(regs)
    ensures v in AllPages(regs) <==> IsMmap(regs, v)
  {
    assert v in AllPages(regs) <==> Between(0, v, PAGES) && IsMmap(regs, v);
    if IsMmap(regs, v) {
      MmapBounds(regs, v);
    }
  }

  lemma AllPagesCons(rest: seq<Region>)
    requires Canonical(rest) && rest != []
    ensures Proper(rest[0]) && Canonical(rest[1..])
    ensures AllPages(rest) == Pages(Page(rest[0].begin), Page(rest[0].begin) + rest[0].npages) + AllPages(rest[1..])
  {
    CanonicalTail(rest);
    CutPagesCons(rest[0], rest[1..], 0, VA_MAX);
  }

  ghost predicate LeftToDrop(original: seq<Region>, rs: seq<Region>, done: set<nat>) {
    forall k {:trigger Opened(Closed.Cutting, k)} :: Sealed(Closed.Cutting, k) ==>
      Canonical(rs) && AllPages(original) == done + AllPages(rs)
  }

  lemma LeftToDropStep(original: seq<Region>, rs: seq<Region>, done: set<nat>)
    requires LeftToDrop(original, rs, done) && rs != []
    ensures Proper(rs[0])
    ensures LeftToDrop(original, rs[1..], done + Pages(Page(rs[0].begin), Page(rs[0].begin) + rs[0].npages))
  {
    assert Opened(Closed.Cutting, 0);
    AllPagesCons(rs);
  }

  lemma LeftToDropEnds(original: seq<Region>, done: set<nat>)
    requires Canonical(original)
    ensures LeftToDrop(original, original, {})
    ensures LeftToDrop(original, [], done) ==> done == AllPages(original)
  {
    assert Opened(Closed.Cutting, 0);
    assert AllPages([]) == {};
  }

  /** The loop of uvm.c:460-465 has still to deal with the nodes l. */
  ghost predicate Dropping(p: Proc, l: seq<MmapRegion>, rs: seq<Region>, done: set<nat>, base: Snapshot,
                           original: seq<Region>, free: seq<MmapRegion>, list: seq<MmapRegion>)
    reads p, p.pt, p.pm, p.pm.kern, p.pm.user, p.pool, p.pool.nodes, p.pool.free, l
  {
    && p.pt.pm == p.pm && Shrunk(p.pt, base, done)
    && p.pool.Valid() && Seg(l, rs, null) && Members(p.pool.nodes, p.pool.free, l)
    && LeftToDrop(original, rs, done)
    && |p.pool.free| + |l| == |free| + |list|
    && SameNodes(p.pool.free, l, free, list)
  }

  lemma SameNodesStep(f1: seq<MmapRegion>, l1: seq<MmapRegion>, f2: seq<MmapRegion>, l2: seq<MmapRegion>)
    requires SameNodes(f1, l1, f2, l2) && l1 != []
    ensures SameNodes([l1[0]] + f1, l1[1..], f2, l2)
  {
    assert Opened(Closed.Roster, 0);
    assert l1 == [l1[0]] + l1[1..];
  }

  lemma MembersRest(nodes: set<MmapRegion>, free: seq<MmapRegion>, l: seq<MmapRegion>)
    requires Members(nodes, free, l) && l != []
    ensures l[0] in nodes && l[0] !in free && l[0] !in l[1..]
    ensures Members(nodes, [l[0]] + free, l[1..])
  {
    assert Opened(Closed.Roster, 0);
  }

  /** One round of the loop. */
  method DropRegion(p: Proc, cur: MmapRegion, ghost l: seq<MmapRegion>, ghost rs: seq<Region>, ghost done: set<nat>,
                    ghost base: Snapshot, ghost original: seq<Region>, ghost free: seq<MmapRegion>,
                    ghost list: seq<MmapRegion>)
    returns (next: MmapRegion?)
    requires Dropping(p, l, rs, done, base, original, free, list) && l != [] && cur == l[0]
    modifies p.pt`flat, p.pm, p.pm.user, p.pool, cur`freeNext
    ensures next == First(l[1..], null)
    ensures Dropping(p, l[1..], rs[1..], done + Pages(Page(rs[0].begin), Page(rs[0].begin) + rs[0].npages), base,
                     original, free, list)
  {
    Around(l, rs, 0);
    LeftToDropStep(original, rs, done);
    ProperBytes(rs[0]);
    MembersRest(p.pool.nodes, p.pool.free, l);
    SameNodesStep(p.pool.free, l, free, list);
    assert l == [l[0]] + l[1..];
    Release(p.pt, cur.begin, Bytes32(cur.npages), base, done);
    next := cur.next;
    p.pool.Release(cur);
  }

  /** uvm.c:459-466: unmap every region and give its node back. */
  method DropRegions(p: Proc)
    requires p.Valid() && Inv(p.View())
    modifies p`mmap, p`list, p`regs, p.pt`flat, p.pm, p.pm.user, p.pool, p.list`freeNext
    ensures p.pt.pm == p.pm && p.pool.Valid() && Shrunk(p.pt, old(Snap(p.pt)), AllPages(old(p.regs)))
    ensures |p.pool.free| == |old(p.pool.free)| + |old(p.list)|
    ensures SameNodes(p.pool.free, [], old(p.pool.free), old(p.list))
    ensures p.ListOk() && p.regs == [] && p.mmap == null
  {
    ghost var base, free, list, original := Snap(p.pt), p.pool.free, p.list, p.regs;
    ghost var l, rs := p.list, p.regs;
    ghost var done: set<nat> := {};
    var cur := p.mmap;
    ShrunkNone(p.pt);
    LeftToDropEnds(original, done);
    while cur != null
      invariant cur == First(l, null) && p.mmap == old(p.mmap)
      invariant forall n :: n in l ==> n in list
      invariant Dropping(p, l, rs, done, base, original, free, list)
      decreases |l|
    {
      ghost var r := rs[0];
      assert cur == l[0] && l[0] in l;
      cur := DropRegion(p, cur, l, rs, done, base, original, free, list);
      l, rs, done := l[1..], rs[1..], done + Pages(Page(r.begin), Page(r.begin) + r.npages);
    }
    LeftToDropEnds(original, done);
    p.mmap := null;
    p.list, p.regs := [], [];
    assert SegNodes(p.list, p.regs, null) && DistinctNodes(p.list);
  }

  // ---------- heap, stack and code ----------

  /** The page that line 481 of uvm.c unmaps: as written the trapframe's, where the topmost
      stack page is meant. */
  function LastPage(version: Version): nat { if version.AsWritten? then TF_PAGE else TF_PAGE - 1 }

  /** The page that line 485 unmaps: as written page 0, where the code page is meant. */
  function FirstPage(version: Version): nat { if version.AsWritten? then 0 else CODE_PAGE }

  /** Everything the teardown unmaps after the regions. */
  ghost function RestPages(s: Space, version: Version): set<nat>
    requires s.ustack <= TF_PAGE
  {
    Pages(HEAP_PAGE, HeapEnd(s)) + Pages(TF_PAGE - s.ustack, TF_PAGE - 1) + {LastPage(version)} + {FirstPage(version)}
  }

  /** uvm.c:481: one page, freed. As written this is the trapframe page, which is not a page
      of the user region, so pmem_free panics if it is mapped. */
  method ReleaseLast(pt: PageTable, version: Version, ghost base: Snapshot, ghost pages: set<nat>)
    returns (r: Outcome<()>)
    requires Shrunk(pt, base, pages) && pt.Valid() && TrapframeOk(pt.flat, base.kothers)
    modifies pt`flat, pt.pm, pt.pm.user
    ensures r.Panicked? <==> version.AsWritten? && TF_PAGE in old(pt.flat)
    ensures r.Returned? ==> Shrunk(pt, base, pages + {LastPage(version)}) && pt.Valid()
  {
    assert Opened(Closed.Unmapping, 0);
    var va := if version.AsWritten? then VA_MAX - 2 * PGSIZE else VA_MAX - 3 * PGSIZE;
    ghost var v := LastPage(version);
    assert Pages(v, v + 1) == {v} by {
      PagesNext(v, v);
    }
    ghost var m1, u1, f1 := pt.pm.mem, pt.pm.user.owned, pt.flat;
    assert PageTable.Span(va, PGSIZE) == {v};
    if v == TF_PAGE && v in f1 {
      pt.pm.OwnedKernelPages(PteToPa(f1[v]));
    } else {
      UserFreeable(pt.pm, f1, {v});
    }
    r := pt.UnmapPages(va, PGSIZE, true);
    if r.Returned? {
      ShrunkStep(base, f1, u1, m1, pages, {v}, pt.flat, pt.pm.user.owned, pt.pm.mem, pt.pm.kern.owned, pt.tables);
    }
  }

  /** uvm.c:469-479: the heap, and the stack but for its topmost page. */
  method UnmapAreas(p: Proc, ghost s: Space, ghost base: Snapshot, ghost pages: set<nat>)
    requires p.pt.pm == p.pm && Shrunk(p.pt, base, pages)
    requires Ordered(s) && s.heapTop == p.heapTop && s.ustack == p.ustackNpage
    modifies p`heapTop, p.pt`flat, p.pm, p.pm.user
    ensures Shrunk(p.pt, base, pages + Pages(HEAP_PAGE, HeapEnd(s)) + Pages(TF_PAGE - s.ustack, TF_PAGE - 1))
    ensures p.heapTop == UHEAP_START
  {
    HeapPages(s, 0);
    var heapPg := PgRoundUp(p.heapTop);
    ghost var heap := Pages(HEAP_PAGE, HeapEnd(s));
    if heapPg > UHEAP_START {
      Release(p.pt, UHEAP_START, heapPg - UHEAP_START, base, pages);
    } else {
      PagesNext(HEAP_PAGE, HEAP_PAGE);
      assert pages + heap == pages;
    }
    p.heapTop := UHEAP_START;
    var ustackBottom := VA_MAX - (p.ustackNpage + 2) * 4096;
    ghost var stack := Pages(TF_PAGE - s.ustack, TF_PAGE - 1);
    if p.ustackNpage > 1 {
      Release(p.pt, ustackBottom, (p.ustackNpage - 1) * 4096, base, pages + heap);
    } else {
      PagesNext(TF_PAGE - 1, TF_PAGE - 1);
      assert pages + heap + stack == pages + heap;
    }
  }

  /** uvm.c:469-485: heap, stack and code, in the source's order. */
  method UnmapRest(p: Proc, version: Version, ghost s: Space, ghost base: Snapshot, ghost pages: set<nat>)
    returns (r: Outcome<()>)
    requires p.pt.pm == p.pm && Shrunk(p.pt, base, pages) && TF_PAGE !in pages && TrapframeOk(base.flat, base.kothers)
    requires Ordered(s) && s.heapTop == p.heapTop && s.ustack == p.ustackNpage
    modifies p`heapTop, p`ustackNpage, p.pt`flat, p.pm, p.pm.user
    ensures r.Panicked? <==> version.AsWritten? && TF_PAGE in base.flat
    ensures r.Returned? ==>
      Shrunk(p.pt, base, pages + RestPages(s, version)) && p.heapTop == UHEAP_START && p.ustackNpage == 0
  {
    ghost var done := pages + Pages(HEAP_PAGE, HeapEnd(s)) + Pages(TF_PAGE - s.ustack, TF_PAGE - 1);
    HeapPages(s, 0);
    UnmapAreas(p, s, base, pages);
    assert TF_PAGE !in done;
    ShrunkTrap(p.pt, base, done);
    var _ :- ReleaseLast(p.pt, version, base, done);
    p.ustackNpage := 0;
    var va := if version.AsWritten? then 0 else USER_BASE;
    PagesNext(FirstPage(version), FirstPage(version));
    assert done + {LastPage(version)} + Pages(Page(va), Page(va) + PGSIZE / 4096) == pages + RestPages(s, version);
    Release(p.pt, va, PGSIZE, base, done + {LastPage(version)});
    return Returned(());
  }

  /** Unmapping other pages leaves the trapframe's translation alone. */
  lemma ShrunkTrap(pt: PageTable, base: Snapshot, pages: set<nat>)
    requires Shrunk(pt, base, pages) && TF_PAGE !in pages && TrapframeOk(base.flat, base.kothers)
    ensures pt.Valid() && TrapframeOk(pt.flat, base.kothers) && (TF_PAGE in pt.flat <==> TF_PAGE in base.flat)
  {
    assert Opened(Closed.Unmapping, 0);
  }

  /** Pages whose frames the teardown never gives back. */
  ghost function LostPages(version: Version): set<nat> {
    if version.AsWritten? then {CODE_PAGE, TF_PAGE - 1} else {}
  }

  lemma RestPagesAre(s: Space, version: Version, v: nat)
    requires Ordered(s)
    ensures v in RestPages(s, version) <==>
            IsHeap(s, v) || (IsStack(s, v) && v != TF_PAGE - 1) || v == LastPage(version) || v == FirstPage(version)
  {
    HeapPages(s, v);
    assert v in Pages(TF_PAGE - s.ustack, TF_PAGE - 1) <==> Between(TF_PAGE - s.ustack, v, TF_PAGE - 1);
    assert v in Pages(HEAP_PAGE, HeapEnd(s)) <==> Between(HEAP_PAGE, v, HeapEnd(s));
  }

  /** The teardown unmaps every user page but the lost ones. */
  lemma AllUnmapped(s: Space, version: Version, v: nat)
    requires Inv(s) && v in s.flat && (version.AsWritten? ==> TF_PAGE !in s.flat)
    ensures v in AllPages(s.regs) + RestPages(s, version) <==> v < TF_PAGE && v !in LostPages(version)
  {
    AreasApart(s, v);
    AllPagesAre(s.regs, v);
    RestPagesAre(s, version, v);
    if IsMmap(s.regs, v) {
      MmapBounds(s.regs, v);
    }
    assert Wanted(s, v) by {
      assert Opened(Closed.Agreement, 0);
    }
  }

  /** So what stays handed out is what others own, and the frames of the lost pages. */
  lemma FramesLeft(s: Space, version: Version, flat: map<nat, nat>, uowned: set<nat>)
    requires Inv(s) && (version.AsWritten? ==> TF_PAGE !in s.flat)
    requires Dropped(s.flat, s.uowned, flat, uowned, AllPages(s.regs) + RestPages(s, version))
    ensures uowned == OtherFrames(s) + FramesOf(s.flat, LostPages(version))
  {
    var gone, lost := AllPages(s.regs) + RestPages(s, version), LostPages(version);
    forall v | v in s.flat
      ensures v in gone <==> v in Pages(0, TF_PAGE) && v !in lost
    {
      AllUnmapped(s, version, v);
      assert v in Pages(0, TF_PAGE) <==> Between(0, v, TF_PAGE);
    }
    FramesSplit(s, gone, lost);
  }

  /** Distinct pages have distinct frames, so page sets can be split frame by frame. */
  lemma FramesSplit(s: Space, gone: set<nat>, lost: set<nat>)
    requires Inv(s)
    requires forall v :: v in s.flat ==> (v in gone <==> v in Pages(0, TF_PAGE) && v !in lost)
    requires forall v :: v in lost ==> v < TF_PAGE
    ensures s.uowned - FramesOf(s.flat, gone) == OtherFrames(s) + FramesOf(s.flat, lost)
  {
    assert forall v :: v in Pages(0, TF_PAGE) <==> Between(0, v, TF_PAGE);
    assert Opened(Closed.Agreement, 0);
    forall p
      ensures p in FramesOf(s.flat, lost) ==> p in s.uowned && p in OwnFrames(s.flat) && p !in FramesOf(s.flat, gone)
      ensures p in OwnFrames(s.flat) <==> p in FramesOf(s.flat, lost) || p in FramesOf(s.flat, gone)
    {
      if p in FramesOf(s.flat, lost) && p in FramesOf(s.flat, gone) {
        var v :| v in s.flat && v in lost && p == PteToPa(s.flat[v]);
        var w :| w in s.flat && w in gone && p == PteToPa(s.flat[w]);
        assert Differ(v, w);
        assert false;
      }
    }
  }

  /** uvm.c:488-492: the tables themselves. */
  method FreeAllTables(pt: PageTable, ghost base: Snapshot, ghost pages: set<nat>)
    requires Shrunk(pt, base, pages)
    modifies pt.pm, pt.pm.kern
    ensures pt.pm.Valid() && pt.pm.kern.owned == base.kothers
    ensures Dropped(base.flat, base.uowned, pt.flat, pt.pm.user.owned, pages)
    ensures Steady(base.mem, pt.pm.Owned(), pt.pm.mem)
  {
    assert Opened(Closed.Unmapping, 0);
    assert Opened(Closed.Meaning, 0);
    ghost var m1 := pt.pm.mem;
    assert Shape(pt.tree) by {
      assert Opened(Closed.TreeWords, 0);
    }
    UnderAll(pt.tree);
    SteadyRefl(m1, pt.pm.Owned());
    FreeTables(pt.pm, pt.root, 2, m1, pt.tree, Top);
    SteadyTrans(base.mem, base.kothers + pt.pm.user.owned, m1, pt.pm.mem, pt.pm.Owned());
  }

  lemma SteadyTrans(m0: Memory, keep: set<nat>, m1: Memory, m2: Memory, less: set<nat>)
    requires Steady(m0, keep, m1) && Steady(m1, less, m2) && less <= keep
    ensures Steady(m0, less, m2)
  {
    assert Opened(Closed.Growth, 0);
  }

  /** uvm_destroy_pgtbl (uvm.c:456-493). Repaired, it never panics and gives back every user
      frame, every table page and every node of the process, and nothing else. As written it
      panics exactly when the trapframe is mapped, and otherwise keeps the frames of the code
      page and of the topmost stack page. */
  method DestroyPgtbl(p: Proc, version: Version) returns (r: Outcome<()>)
    requires p.Valid() && Inv(p.View())
    modifies p`mmap, p`list, p`regs, p`heapTop, p`ustackNpage, p.pt`flat, p.pm, p.pm.kern, p.pm.user, p.pool,
             p.list`freeNext
    ensures r.Panicked? <==> version.AsWritten? && TF_PAGE in old(p.pt.flat)
    ensures r.Returned? ==>
      && p.mmap == null && p.heapTop == UHEAP_START && p.ustackNpage == 0
      && p.pm.Valid() && p.pool.Valid()
      && p.pm.user.owned == (if version.Repaired? then old(OtherFrames(p.View()))
                             else old(OtherFrames(p.View())) + FramesOf(old(p.pt.flat), {CODE_PAGE, TF_PAGE - 1}))
      && p.pm.kern.owned == old(p.View().kothers)
      && |p.pool.free| == |old(p.pool.free)| + |old(p.list)|
      && SameNodes(p.pool.free, [], old(p.pool.free), old(p.list))
      && Steady(old(p.pm.mem), p.pm.Owned(), p.pm.mem)
  {
    ghost var s, base, regs := p.View(), Snap(p.pt), p.regs;
    DropRegions(p);
    AllPagesAre(regs, TF_PAGE);
    AreasApart(s, TF_PAGE);
    var _ :- UnmapRest(p, version, s, base, AllPages(regs));
    FreeAllTables(p.pt, base, AllPages(regs) + RestPages(s, version));
    FramesLeft(s, version, p.pt.flat, p.pm.user.owned);
    assert FramesOf(s.flat, {}) == {};
    return Returned(());
  }
}
