/** Copying an address space: uvm_copy_pgtbl (src/kernel/mem/uvm.c:496-609), with the heap copy
    as written at line 518 or with the page-by-page copy of lines 520-528 in its place, into a
    process whose list head may be stale. */
module Copying {
  import opened Layout
  import opened Outcomes
  import opened PhysMem
  import opened Kvm
  import opened Regions
  import opened RegionPool
  import opened RegionList
  import opened Spaces
  import opened Calls
  import opened Uvm
  import opened SysCalls
  import opened Teardown
  import opened HeapCopy

  // ---------- page contents ----------

  /** Frames behind the pages of a copy: the target's are its own, the source's elsewhere. */
  ghost predicate Separate(flat: map<nat, nat>, flat': map<nat, nat>, pages: set<nat>, uowned: set<nat>) {
    forall k {:trigger Opened(Closed.Copying, k)} :: Sealed(Closed.Copying, k) ==>
      && (forall v :: v in pages && v in flat' ==> PteToPa(flat'[v]) in uowned)
      && (forall v, w {:trigger Differ(v, w)} ::
            Differ(v, w) && v in pages && w in pages && v in flat' && w in flat' ==>
            PteToPa(flat'[v]) != PteToPa(flat'[w]))
      && (forall v :: v in pages && v in flat ==> PteToPa(flat[v]) in uowned)
      && (forall v, w {:trigger Pair(v, w)} ::
            Pair(v, w) && v in pages && w in pages && v in flat' && w in flat ==>
            PteToPa(flat'[v]) != PteToPa(flat[w]))
  }

  ghost predicate Pair(v: nat, w: nat) { true }

  /** The given pages have the same contents in both address spaces. */
  ghost predicate SameContents(mem: Memory, flat: map<nat, nat>, flat': map<nat, nat>, pages: set<nat>) {
    forall k {:trigger Opened(Closed.Copying, k)} :: Sealed(Closed.Copying, k) ==>
      forall v :: v in pages && v in flat && v in flat' ==>
        && PteToPa(flat[v]) in mem && PteToPa(flat'[v]) in mem
        && mem[PteToPa(flat'[v])] == mem[PteToPa(flat[v])]
  }

  /** uvm.c:521-527, 551-557, 589-595: copy one page that both sides map. */
  method CopyPage(src: PageTable, dst: PageTable, va: nat)
    requires src.pm == dst.pm && src.Valid() && dst.Valid() && va < VA_MAX
    requires Page(va) in dst.flat ==> PteToPa(dst.flat[Page(va)]) in src.pm.user.owned
    requires Page(va) in src.flat ==> PteToPa(src.flat[Page(va)]) in src.pm.user.owned
    modifies src.pm
    ensures src.Valid() && dst.Valid()
    ensures var v := Page(va);
      if v in src.flat && v in dst.flat then
        && PteToPa(src.flat[v]) in old(src.pm.mem)
        && src.pm.mem == old(src.pm.mem)[PteToPa(dst.flat[v]) := old(src.pm.mem)[PteToPa(src.flat[v])]]
      else src.pm.mem == old(src.pm.mem)
  {
    var pm := src.pm;
    ghost var v, m0 := Page(va), pm.mem;
    MeansLeaf(pm.mem, src.tree, src.tables, src.flat, v);
    MeansLeaf(pm.mem, dst.tree, dst.tables, dst.flat, v);
    var pteOld := src.GetPte(va, false);
    var pteNew := dst.GetPte(va, false);
    if pteOld.value.Some? && pteNew.value.Some? {
      var from, to := pteOld.value.value, pteNew.value.value;
      if HasV(pm.mem[from.0][from.1]) && HasV(pm.mem[to.0][to.1]) {
        pm.CopyFrame(PteToPa(pm.mem[to.0][to.1]), PteToPa(pm.mem[from.0][from.1]));
        MeansFrame(m0, pm.mem, src.tree, src.tables, src.flat);
        MeansFrame(m0, pm.mem, dst.tree, dst.tables, dst.flat);
      }
    }
  }

  /** What copying page v does to memory. */
  ghost predicate PageCopied(m1: Memory, flat: map<nat, nat>, flat': map<nat, nat>, v: nat, m2: Memory) {
    if v in flat && v in flat' then
      && PteToPa(flat[v]) in m1
      && m2 == m1[PteToPa(flat'[v]) := m1[PteToPa(flat[v])]]
    else m2 == m1
  }

  /** Copying one more page keeps the pages copied before, and every page that is not a
      target, as they are. */
  lemma CopyStep(flat: map<nat, nat>, flat': map<nat, nat>, lo: nat, v: nat, hi: nat, uowned: set<nat>, keep: set<nat>,
                 m0: Memory, m1: Memory, m2: Memory)
    requires Separate(flat, flat', Pages(lo, hi), uowned) && lo <= v < hi && uowned <= m1.Keys
    requires keep !! FramesOf(flat', Pages(lo, hi))
    requires SameContents(m1, flat, flat', Pages(lo, v)) && Steady(m0, keep, m1)
    requires PageCopied(m1, flat, flat', v, m2)
    ensures SameContents(m2, flat, flat', Pages(lo, v + 1)) && Steady(m0, keep, m2)
  {
    assert Opened(Closed.Copying, 0);
    assert Opened(Closed.Growth, 0);
    PagesNext(lo, v);
    assert Between(lo, v, hi) && v in Pages(lo, hi);
    forall u | u in Pages(lo, v + 1) && u in flat && u in flat'
      ensures PteToPa(flat[u]) in m2 && PteToPa(flat'[u]) in m2
      ensures m2[PteToPa(flat'[u])] == m2[PteToPa(flat[u])]
    {
      assert Between(lo, u, v + 1) && Between(lo, u, hi);
      assert Differ(u, v) || u == v;
      assert Pair(v, u) && Pair(u, v) && Pair(u, u);
    }
    if v in flat && v in flat' {
      assert PteToPa(flat'[v]) in FramesOf(flat', Pages(lo, hi));
    }
  }

  /** The page-by-page copies of uvm_copy_pgtbl: every page of the range that both sides map
      ends up with equal contents, and only the target's frames are written. */
  method CopyPages(src: PageTable, dst: PageTable, begin: nat, end: nat)
    requires src.pm == dst.pm && src.Valid() && dst.Valid()
    requires begin % 4096 == 0 && end % 4096 == 0 && begin <= end <= VA_MAX
    requires Separate(src.flat, dst.flat, Pages(Page(begin), Page(end)), src.pm.user.owned)
    modifies src.pm
    ensures src.Valid() && dst.Valid()
    ensures SameContents(src.pm.mem, src.flat, dst.flat, Pages(Page(begin), Page(end)))
    ensures Steady(old(src.pm.mem), src.pm.Owned() - FramesOf(dst.flat, Pages(Page(begin), Page(end))), src.pm.mem)
  {
    ghost var lo, v, hi, m0, owned := Page(begin), Page(begin), Page(end), src.pm.mem, src.pm.user.owned;
    ghost var keep := src.pm.Owned() - FramesOf(dst.flat, Pages(lo, hi));
    var va := begin;
    CopyNone(src.flat, dst.flat, lo, m0, keep);
    while va < end
      invariant lo <= v <= hi && va == v * 4096
      invariant src.Valid() && dst.Valid()
      invariant SameContents(src.pm.mem, src.flat, dst.flat, Pages(lo, v)) && Steady(m0, keep, src.pm.mem)
    {
      ghost var m1 := src.pm.mem;
      SeparateAt(src.flat, dst.flat, lo, v, hi, owned);
      CopyPage(src, dst, va);
      CopyStep(src.flat, dst.flat, lo, v, hi, owned, keep, m0, m1, src.pm.mem);
      va, v := va + PGSIZE, v + 1;
    }
    assert v == hi;
  }

  lemma CopyNone(flat: map<nat, nat>, flat': map<nat, nat>, lo: nat, mem: Memory, keep: set<nat>)
    ensures SameContents(mem, flat, flat', Pages(lo, lo)) && Steady(mem, keep, mem)
  {
    PagesNext(lo, lo);
  }

  lemma SeparateAt(flat: map<nat, nat>, flat': map<nat, nat>, lo: nat, v: nat, hi: nat, uowned: set<nat>)
    requires Separate(flat, flat', Pages(lo, hi), uowned) && lo <= v < hi
    ensures v in flat' ==> PteToPa(flat'[v]) in uowned
    ensures v in flat ==> PteToPa(flat[v]) in uowned
  {
    assert Opened(Closed.Copying, 0);
    assert Between(lo, v, hi);
  }

  // ---------- two address spaces side by side ----------

  /** All user pages the copy has so far hold what the source's pages hold. */
  ghost predicate Mirrors(mem: Memory, flat: map<nat, nat>, flat': map<nat, nat>) {
    SameContents(mem, flat, flat', Pages(0, TF_PAGE))
  }

  /** Since the snapshot base, taken before the copy began, only the copy's own tables and
      frames have been written, and what else is handed out is what was then. */
  ghost predicate Twin(src: PageTable, dst: PageTable, base: Snapshot)
    reads src, dst, src.pm, src.pm.kern, src.pm.user, dst.pm, dst.pm.kern, dst.pm.user
  {
    && src.pm == dst.pm && src.Valid() && dst.Valid()
    && src.tables <= base.kothers && FramesOk(src.flat, base.uowned)
    && dst.pm.kern.owned - dst.tables == base.kothers
    && FramesOk(dst.flat, dst.pm.user.owned) && dst.pm.user.owned - OwnFrames(dst.flat) == base.uowned
    && Steady(base.mem, base.kothers + base.uowned, dst.pm.mem)
    && Mirrors(dst.pm.mem, src.flat, dst.flat)
  }

  /** The copy's frames are its own; the source's belong to others. */
  lemma SeparateTwins(flat: map<nat, nat>, flat': map<nat, nat>, u0: set<nat>, uowned: set<nat>, pages: set<nat>)
    requires FramesOk(flat, u0) && FramesOk(flat', uowned) && uowned - OwnFrames(flat') == u0
    requires forall v :: v in pages ==> v < TF_PAGE
    ensures Separate(flat, flat', pages, uowned)
  {
    assert Opened(Closed.Agreement, 0);
    forall v | v in pages && v in flat'
      ensures PteToPa(flat'[v]) in OwnFrames(flat')
    {
      assert Between(0, v, TF_PAGE);
    }
  }

  /** Translations of a twin after more pages were backed. */
  lemma TwinBacked(f1: map<nat, nat>, u1: set<nat>, f2: map<nat, nat>, u2: set<nat>, pages: set<nat>, perm: nat,
                   u0: set<nat>)
    requires FramesOk(f1, u1) && u1 - OwnFrames(f1) == u0 && Backed(f1, u1, f2, u2, pages, perm)
    requires forall v :: v in pages ==> v < TF_PAGE && v !in f1
    ensures FramesOk(f2, u2) && u2 - OwnFrames(f2) == u0 && u1 <= u2
  {
    BackedFrames(f1, u1, f2, u2, pages, perm);
    BackedGrows(f1, u1, f2, u2, pages, perm);
  }

  /** The pages copied earlier are not disturbed by backing and copying more. */
  lemma MirrorsMore(flat: map<nat, nat>, f1: map<nat, nat>, u0: set<nat>, u1: set<nat>, m1: Memory,
                    f2: map<nat, nat>, u2: set<nat>, m2: Memory, m3: Memory, pages: set<nat>, perm: nat, keep: set<nat>)
    requires FramesOk(flat, u0) && FramesOk(f1, u1) && u0 <= u1
    requires Mirrors(m1, flat, f1) && Backed(f1, u1, f2, u2, pages, perm)
    requires FramesOk(f2, u2) && u2 - OwnFrames(f2) == u0
    requires forall v :: v in pages ==> v < TF_PAGE && v !in f1
    requires Steady(m1, keep + u1, m2) && Steady(m2, (keep + u2) - FramesOf(f2, pages), m3)
    requires SameContents(m3, flat, f2, pages)
    ensures Mirrors(m3, flat, f2)
  {
    assert Opened(Closed.Copying, 0);
    assert Opened(Closed.Agreement, 0);
    assert Opened(Closed.Growth, 0);
    assert Opened(Closed.Backing, 0);
    forall v | v in Pages(0, TF_PAGE) && v in flat && v in f2
      ensures PteToPa(flat[v]) in m3 && PteToPa(f2[v]) in m3
      ensures m3[PteToPa(f2[v])] == m3[PteToPa(flat[v])]
    {
      assert Between(0, v, TF_PAGE);
      if v !in pages {
        assert v in f1 && f2[v] == f1[v];
        UntouchedFrame(f2, pages, v, u2);
        SourceFrame(flat, f2, pages, v, u0, u2);
      }
    }
  }

  lemma UntouchedFrame(flat: map<nat, nat>, pages: set<nat>, v: nat, uowned: set<nat>)
    requires FramesOk(flat, uowned) && v in flat && v !in pages && v < TF_PAGE
    requires forall w :: w in pages ==> w < TF_PAGE
    ensures PteToPa(flat[v]) in uowned && PteToPa(flat[v]) !in FramesOf(flat, pages)
  {
    assert Opened(Closed.Agreement, 0);
    assert forall w :: w in pages && w in flat ==> Differ(v, w);
  }

  lemma SourceFrame(flat: map<nat, nat>, flat': map<nat, nat>, pages: set<nat>, v: nat, u0: set<nat>, uowned: set<nat>)
    requires FramesOk(flat, u0) && v in flat && v < TF_PAGE && uowned - OwnFrames(flat') == u0
    requires forall w :: w in pages ==> w < TF_PAGE
    ensures PteToPa(flat[v]) in u0 && PteToPa(flat[v]) !in FramesOf(flat', pages)
  {
    assert Opened(Closed.Agreement, 0);
    assert forall w :: w in pages ==> Between(0, w, TF_PAGE);
  }

  /** Memory across one range: other tables stay, then the new frames are filled. */
  lemma TwinMemory(base: Snapshot, kowned: set<nat>, u1: set<nat>, u2: set<nat>, f2: map<nat, nat>, pages: set<nat>,
                   m1: Memory, m2: Memory, m3: Memory)
    requires Steady(base.mem, base.kothers + base.uowned, m1) && Steady(m1, base.kothers + u1, m2)
    requires Steady(m2, (kowned + u2) - FramesOf(f2, pages), m3)
    requires base.kothers <= kowned && kowned !! u2 && base.uowned <= u1 <= u2
    requires FramesOk(f2, u2) && u2 - OwnFrames(f2) == base.uowned && forall v :: v in pages ==> v < TF_PAGE
    ensures Steady(base.mem, base.kothers + base.uowned, m2) && Steady(base.mem, base.kothers + base.uowned, m3)
    ensures Steady(m2, (base.kothers + u2) - FramesOf(f2, pages), m3)
  {
    var keep := base.kothers + base.uowned;
    assert forall v :: v in pages ==> Between(0, v, TF_PAGE);
    assert FramesOf(f2, pages) <= OwnFrames(f2);
    assert forall p :: p in FramesOf(f2, pages) ==> p in u2 by {
      assert Opened(Closed.Agreement, 0);
    }
    SteadyLess(m1, base.kothers + u1, m2, keep);
    SteadyTrans(base.mem, keep, m1, m2, keep);
    SteadyLess(m2, (kowned + u2) - FramesOf(f2, pages), m3, keep);
    SteadyTrans(base.mem, keep, m2, m3, keep);
    SteadyLess(m2, (kowned + u2) - FramesOf(f2, pages), m3, (base.kothers + u2) - FramesOf(f2, pages));
  }

  /** Between backing and filling: both tables are well formed and the frames are apart. */
  lemma TwinMapped(src: PageTable, dst: PageTable, base: Snapshot, f1: map<nat, nat>, u1: set<nat>, m1: Memory,
                   pages: set<nat>, perm: nat, snap: Snapshot, n: nat)
    requires snap.mem == m1 && snap.flat == f1 && snap.uowned == u1 && snap.kothers == base.kothers
    requires Grown(dst, snap, pages, n, perm) && src.pm == dst.pm
    requires Means(m1, src.tree, src.tables, src.flat) && src.root == src.tree.root
    requires src.tables <= base.kothers && FramesOk(src.flat, base.uowned)
    requires Steady(base.mem, base.kothers + base.uowned, m1)
    requires FramesOk(f1, u1) && u1 - OwnFrames(f1) == base.uowned
    requires forall v :: v in pages ==> v < TF_PAGE && v !in f1
    ensures dst.Valid() && src.Valid() && dst.pm.kern.owned - dst.tables == base.kothers
    ensures Separate(src.flat, dst.flat, pages, dst.pm.user.owned)
    ensures Backed(f1, u1, dst.flat, dst.pm.user.owned, pages, perm)
    ensures FramesOk(dst.flat, dst.pm.user.owned) && dst.pm.user.owned - OwnFrames(dst.flat) == base.uowned
    ensures u1 <= dst.pm.user.owned
    ensures Steady(m1, base.kothers + u1, dst.pm.mem)
    ensures |dst.pm.user.chain| == snap.ufree - n && |dst.pm.kern.chain| >= snap.kfree - 2 * n
  {
    assert Opened(Closed.Mapping, 0);
    TwinBacked(f1, u1, dst.flat, dst.pm.user.owned, pages, perm, base.uowned);
    SeparateTwins(src.flat, dst.flat, base.uowned, dst.pm.user.owned, pages);
    assert dst.pm.mem.Keys == m1.Keys && forall p :: p in src.tables && p in m1 ==> dst.pm.mem[p] == m1[p] by {
      assert Opened(Closed.Growth, 0);
    }
    MeansFrame(m1, dst.pm.mem, src.tree, src.tables, src.flat);
  }

  /** Back a range of the copy with fresh frames and fill them from the source: the loops of
      uvm.c:508-528, 540-558 and 574-596. */
  method CloneRange(src: PageTable, dst: PageTable, begin: nat, end: nat, perm: nat, ghost base: Snapshot)
    returns (r: Outcome<()>)
    requires Twin(src, dst, base) && src != dst
    requires begin % 4096 == 0 && end % 4096 == 0 && begin <= end <= TRAPFRAME && perm < 1024
    requires forall v :: v in dst.flat ==> !Between(Page(begin), v, Page(end))
    modifies dst, dst.pm, dst.pm.kern, dst.pm.user
    ensures r.Panicked? ==> var n := Page(end) - Page(begin);
      |old(dst.pm.user.chain)| < n || |old(dst.pm.kern.chain)| < 2 * n
    ensures r.Returned? ==>
      && Twin(src, dst, base)
      && Backed(old(dst.flat), old(dst.pm.user.owned), dst.flat, dst.pm.user.owned, Pages(Page(begin), Page(end)), perm)
      && var n := Page(end) - Page(begin);
         |dst.pm.user.chain| == |old(dst.pm.user.chain)| - n && |dst.pm.kern.chain| >= |old(dst.pm.kern.chain)| - 2 * n
  {
    ghost var pages, f1, u1, m1 := Pages(Page(begin), Page(end)), dst.flat, dst.pm.user.owned, dst.pm.mem;
    assert forall v :: v in pages ==> Between(Page(begin), v, Page(end));
    ghost var snap := Snap(dst);
    var _ :- MapUp(dst, begin, end, perm);
    ghost var m2, f2, u2 := dst.pm.mem, dst.flat, dst.pm.user.owned;
    TwinMapped(src, dst, base, f1, u1, m1, pages, perm, snap, Page(end) - Page(begin));
    CopyPages(src, dst, begin, end);
    TwinMemory(base, dst.pm.kern.owned, u1, u2, f2, pages, m1, m2, dst.pm.mem);
    MirrorsMore(src.flat, f1, base.uowned, u1, m1, f2, u2, m2, dst.pm.mem, pages, perm, base.kothers);
    return Returned(());
  }

  // ---------- uvm_copy_pgtbl ----------

  const RWXU := PTE_R + PTE_W + PTE_X + PTE_U

  /** uvm.c:499-502: a table for the copy with the trampoline in it. */
  method CopyTable(p: Proc, child: Proc, trampoline: nat) returns (r: Outcome<()>)
    requires p.TableOk() && child != p && child.pm == p.pm && IsPageBase(trampoline)
    requires FramesOk(p.pt.flat, p.pm.user.owned)
    modifies child`pt, p.pm, p.pm.kern
    ensures r.Panicked? ==> |old(p.pm.kern.chain)| < 3
    ensures r.Returned? ==>
      && fresh(child.pt) && child.pt.pm == p.pm
      && Twin(p.pt, child.pt, Before(old(p.pm.mem), old(p.pm.kern.owned), old(p.pm.user.owned)))
      && child.pt.flat == map[TRAMP_PAGE := MakePte(trampoline, PTE_R + PTE_X)] && !HasU(child.pt.flat[TRAMP_PAGE])
      && p.pm.user.owned == old(p.pm.user.owned)
      && |p.pm.kern.chain| >= |old(p.pm.kern.chain)| - 3
  {
    ghost var mem, kowned, uowned := p.pm.mem, p.pm.kern.owned, p.pm.user.owned;
    var root :- p.pm.Alloc(true);
    var pt := new PageTable(p.pm, root);
    assert Steady(mem, kowned + uowned, p.pm.mem);
    assert p.pm.kern.owned - pt.tables == kowned;
    var _ :- MapFixed(pt, TRAMPOLINE, trampoline, PTE_R + PTE_X, mem, kowned, uowned, map[]);
    child.pt := pt;
    FirstTwin(p.pt, pt, mem, kowned, uowned, trampoline);
    PteRoundTrip(trampoline, PTE_R + PTE_X);
    return Returned(());
  }

  /** The state before a copy, as far as the copy must leave it alone. */
  ghost function Before(mem: Memory, kowned: set<nat>, uowned: set<nat>): Snapshot {
    Snapshot(mem, kowned, map[], uowned, 0, 0)
  }

  lemma FirstTwin(src: PageTable, dst: PageTable, mem: Memory, kowned: set<nat>, uowned: set<nat>, trampoline: nat)
    requires src.pm == dst.pm && FramesOk(src.flat, uowned) && src.tables <= kowned && src.root == src.tree.root
    requires Means(mem, src.tree, src.tables, src.flat)
    requires TableStep(dst, mem, kowned, uowned, map[TRAMP_PAGE := MakePte(trampoline, PTE_R + PTE_X)])
    ensures Twin(src, dst, Before(mem, kowned, uowned))
  {
    assert dst.pm.mem.Keys == mem.Keys && forall p :: p in src.tables && p in mem ==> dst.pm.mem[p] == mem[p] by {
      assert Opened(Closed.Growth, 0);
    }
    MeansFrame(mem, dst.pm.mem, src.tree, src.tables, src.flat);
    assert forall v :: v in Pages(0, TF_PAGE) ==> Between(0, v, TF_PAGE) && v !in dst.flat;
    assert OwnFrames(dst.flat) == {};
    assert FramesOk(dst.flat, uowned);
  }

  /** Heap and stack of the source on top of the trampoline make an address space without
      regions. */
  lemma CopyInv(s: Space, flat0: map<nat, nat>, u0: set<nat>, f1: map<nat, nat>, u1: set<nat>, t: Space)
    requires Ordered(s) && flat0.Keys == {TRAMP_PAGE} && !HasU(flat0[TRAMP_PAGE])
    requires Backed(flat0, u0, f1, u1, Pages(HEAP_PAGE, HeapEnd(s)), RWU)
    requires Backed(f1, u1, t.flat, t.uowned, Pages(TF_PAGE - s.ustack, TF_PAGE), RWU)
    requires t.regs == [] && t.heapTop == s.heapTop && t.ustack == s.ustack && t.fixed == {TRAMP_PAGE}
    requires FramesOk(t.flat, t.uowned)
    ensures Inv(t)
  {
    HeapPages(s, 0);
    assert t.flat.Keys == {TRAMP_PAGE} + Pages(HEAP_PAGE, HeapEnd(s)) + Pages(TF_PAGE - s.ustack, TF_PAGE) by {
      assert Opened(Closed.Backing, 0);
    }
    forall v: nat
      ensures v in t.flat <==> Wanted(t, v)
      ensures !IsMmap(t.regs, v) && v in Pages(HEAP_PAGE, HeapEnd(s)) + Pages(TF_PAGE - s.ustack, TF_PAGE)
        <==> IsHeap(t, v) || IsStack(t, v)
    {
      assert v in Pages(TF_PAGE - s.ustack, TF_PAGE) <==> Between(TF_PAGE - s.ustack, v, TF_PAGE);
      assert v in Pages(HEAP_PAGE, HeapEnd(s)) <==> Between(HEAP_PAGE, v, HeapEnd(s));
    }
    CopyFixed(f1, u1, t, flat0, u0, Pages(HEAP_PAGE, HeapEnd(s)), Pages(TF_PAGE - s.ustack, TF_PAGE));
    CopyFlags(f1, u1, t, flat0, u0, Pages(HEAP_PAGE, HeapEnd(s)), Pages(TF_PAGE - s.ustack, TF_PAGE));
  }

  lemma CopyFixed(f1: map<nat, nat>, u1: set<nat>, t: Space, flat0: map<nat, nat>, u0: set<nat>, heap: set<nat>,
                  stack: set<nat>)
    requires Backed(flat0, u0, f1, u1, heap, RWU) && Backed(f1, u1, t.flat, t.uowned, stack, RWU)
    requires flat0.Keys == {TRAMP_PAGE} && !HasU(flat0[TRAMP_PAGE])
    requires (forall v :: v in heap ==> v < TF_PAGE) && forall v :: v in stack ==> v < TF_PAGE
    ensures TrapframeOk(t.flat, t.kothers)
  {
    assert Opened(Closed.Backing, 0);
    assert TRAMP_PAGE !in heap && TRAMP_PAGE !in stack && TF_PAGE !in heap && TF_PAGE !in stack;
    assert t.flat[TRAMP_PAGE] == f1[TRAMP_PAGE] == flat0[TRAMP_PAGE];
  }

  lemma CopyFlags(f1: map<nat, nat>, u1: set<nat>, t: Space, flat0: map<nat, nat>, u0: set<nat>, heap: set<nat>,
                  stack: set<nat>)
    requires Backed(flat0, u0, f1, u1, heap, RWU) && Backed(f1, u1, t.flat, t.uowned, stack, RWU)
    requires t.regs == [] && forall v: nat :: IsHeap(t, v) || IsStack(t, v) ==> v in heap + stack
    ensures FlagsOk(t)
  {
    assert Opened(Closed.Backing, 0);
    forall v: nat | v in t.flat && (IsHeap(t, v) || IsStack(t, v))
      ensures PteFlags(t.flat[v]) == RWU + PTE_V
    {
      assert v !in stack ==> v in f1 && t.flat[v] == f1[v];
    }
    assert forall v: nat :: !IsMmap(t.regs, v);
  }

  // ---------- the heap ----------

  /** The copy stores where it should not: the heap copy is taken as written, and the parent has
      a heap page. */
  predicate GoesAstray(heap: Version, s: Space) { heap.AsWritten? && HeapEnd(s) > HEAP_PAGE }

  /** The parent's heap pages are user pages, and the one behind an empty heap is not. */
  lemma HeapUser(s: Space, v: nat)
    requires Inv(s) && IsHeap(s, v)
    ensures UserPage(s.flat, v)
  {
    assert Opened(Closed.Agreement, 0);
    UserFlag(s.flat[v]);
    HeapPages(s, v);
  }

  lemma HeapEmpty(s: Space)
    requires Inv(s) && HeapEnd(s) == HEAP_PAGE
    ensures !UserPage(s.flat, HEAP_PAGE)
  {
    assert Opened(Closed.Agreement, 0);
    if IsMmap(s.regs, HEAP_PAGE) {
      MmapBounds(s.regs, HEAP_PAGE);
    }
  }

  /** What line 518 stores when the heap is not empty: with the copy's table at `root` and its
      heap pages mapped to zeroed frames (m1), it goes through the pages from root + UHEAP_START
      on, one for each heap page, and takes the heap there, at least up to the first page that is
      one of the parent's tables and frames. If none is, it takes the whole heap, and answers 0
      if and only if the heap ends on a page boundary. */
  ghost predicate StraysTo(s: Space, tables: set<nat>, root: nat, m1: Memory, stores: seq<nat>, m2: Memory, ret: int) {
    forall k {:trigger Opened(Closed.Copying, k)} :: Sealed(Closed.Copying, k) ==>
      StoredTo(s, tables, root, m1, stores, m2, ret)
  }

  ghost predicate StoredTo(s: Space, tables: set<nat>, root: nat, m1: Memory, stores: seq<nat>, m2: Memory, ret: int) {
    && HeapEnd(s) > HEAP_PAGE
    && var n, dst, len := HeapEnd(s) - HEAP_PAGE, root + UHEAP_START, s.heapTop - UHEAP_START;
    var clear := Clear(dst, n, Sources(tables, s.flat));
    && InRow(stores, dst) && OnlyAt(m1, stores, m2)
    && Moved(m1, s.flat, HEAP_PAGE, dst, len, Known(stores, clear), m2)
    && |stores| >= (if clear < n then clear + 1 else n)
    && (clear == n && (s.heapTop % 4096 == 0 || !UserPage(s.flat, HeapEnd(s))) ==>
          |stores| == n && ret == if s.heapTop % 4096 == 0 then 0 else -1)
  }

  /** Line 518: which pages it stores to and what they hold; and whatever it hits, answer and
      memory are those of the loop run on that memory. */
  ghost predicate Strays(s: Space, pt: PageTable, child: PageTable, m1: Memory, stores: seq<nat>, m2: Memory, ret: int)
    reads pt, child
  {
    && HeapEnd(s) > HEAP_PAGE && StraysTo(s, pt.tables, child.root, m1, stores, m2, ret)
    && Ran(m1, pt.root, UHEAP_START, child.root + UHEAP_START, s.heapTop - UHEAP_START, Returned(ret), m2)
    && Pages(HEAP_PAGE, HeapEnd(s)) <= child.flat.Keys && Zeroed(m1, child.flat, Pages(HEAP_PAGE, HeapEnd(s)))
  }

  lemma StraysIs(s: Space, tables: set<nat>, root: nat, m1: Memory, stores: seq<nat>, m2: Memory, ret: int, clear: nat)
    requires Inv(s) && HeapEnd(s) > HEAP_PAGE && stores != [] && InRow(stores, root + UHEAP_START)
    requires OnlyAt(m1, stores, m2)
    requires clear == Clear(root + UHEAP_START, HeapEnd(s) - HEAP_PAGE, Sources(tables, s.flat))
    requires var len := s.heapTop - UHEAP_START;
      && (len % 4096 == 0 ==> |stores| <= len / 4096)
      && (|stores| > clear ==> UserPage(s.flat, HEAP_PAGE + clear))
      && (ret == 0 || ret == -1)
      && Moved(m1, s.flat, HEAP_PAGE, root + UHEAP_START, len, Known(stores, clear), m2)
      && (|stores| <= clear ==>
            if ret == 0 then len == |stores| * 4096
            else len != |stores| * 4096 && !UserPage(s.flat, HEAP_PAGE + |stores|))
    ensures StraysTo(s, tables, root, m1, stores, m2, ret)
  {
    var n, len := HeapEnd(s) - HEAP_PAGE, s.heapTop - UHEAP_START;
    PgRoundUpExact(s.heapTop);
    assert s.heapTop % 4096 == 0 ==> len == n * 4096;
    assert s.heapTop % 4096 != 0 ==> len < n * 4096 && len % 4096 != 0;
    if |stores| <= clear && |stores| < n {
      HeapUser(s, HEAP_PAGE + |stores|);
    }
    assert StoredTo(s, tables, root, m1, stores, m2, ret);
  }

  /** A heap of whole pages: line 518 answers 0, so that lines 520-528 are skipped, and every
      heap page of the copy that has not been hit by a stray store is still all zeroes. */
  lemma WholePageHeap(s: Space, tables: set<nat>, flat': map<nat, nat>, root: nat, m1: Memory, stores: seq<nat>,
                      m2: Memory, ret: int, v: nat)
    requires Inv(s) && StraysTo(s, tables, root, m1, stores, m2, ret)
    requires Pages(HEAP_PAGE, HeapEnd(s)) <= flat'.Keys && Zeroed(m1, flat', Pages(HEAP_PAGE, HeapEnd(s)))
    requires s.heapTop % 4096 == 0 && IsHeap(s, v)
    requires Spares(root + UHEAP_START, HeapEnd(s) - HEAP_PAGE, Sources(tables, s.flat))
    ensures ret == 0 && v in flat' && v in s.flat
    ensures var f, g := PteToPa(s.flat[v]), PteToPa(flat'[v]);
      && (g !in stores ==> Blank(m2, g))
      && (g !in stores && f in m1 && !Blank(m1, f) ==> f in m2 && g in m2 && m2[f] == m1[f] && m2[g] != m2[f])
  {
    assert Opened(Closed.Copying, 0);
    HeapUser(s, v);
    assert Between(HEAP_PAGE, v, HeapEnd(s));
    var f, g := PteToPa(s.flat[v]), PteToPa(flat'[v]);
    assert Blank(m1, g) by {
      assert Opened(Closed.Growth, 0);
      assert v in Pages(HEAP_PAGE, HeapEnd(s));
    }
    assert f in Sources(tables, s.flat);
    forall i | 0 <= i < |stores|
      ensures stores[i] != f
    {
      assert stores[i] == NthPage(root + UHEAP_START, i);
    }
  }

  /** The smallest such heap, of one page: one page of memory that is neither a table nor a frame
      of the copy's heap is overwritten with the parent's heap page, and the copy's page, if it
      is another one, stays zero. */
  lemma OnePageHeap(s: Space, tables: set<nat>, flat': map<nat, nat>, root: nat, m1: Memory, stores: seq<nat>,
                    m2: Memory, ret: int)
    requires Inv(s) && StraysTo(s, tables, root, m1, stores, m2, ret)
    requires Pages(HEAP_PAGE, HeapEnd(s)) <= flat'.Keys && Zeroed(m1, flat', Pages(HEAP_PAGE, HeapEnd(s)))
    requires s.heapTop == UHEAP_START + PGSIZE
    requires root + UHEAP_START !in Sources(tables, s.flat)
    ensures ret == 0 && stores == [root + UHEAP_START] && HEAP_PAGE in flat' && HEAP_PAGE in s.flat
    ensures PteToPa(s.flat[HEAP_PAGE]) in m1 && m2 == m1[root + UHEAP_START := m1[PteToPa(s.flat[HEAP_PAGE])]]
    ensures PteToPa(flat'[HEAP_PAGE]) != root + UHEAP_START ==> Blank(m2, PteToPa(flat'[HEAP_PAGE]))
  {
    assert Opened(Closed.Copying, 0);
    var dst := root + UHEAP_START;
    assert HeapEnd(s) == HEAP_PAGE + 1;
    assert NthPage(dst, 0) == dst;
    assert Spares(dst, 1, Sources(tables, s.flat));
    WholePageHeap(s, tables, flat', root, m1, stores, m2, ret, HEAP_PAGE);
    assert stores == [dst];
    assert MovedAt(m1, s.flat, HEAP_PAGE, dst, 4096, 0, m2);
    MixedWhole(m1[dst], m1[PteToPa(s.flat[HEAP_PAGE])]);
    assert m2 == m1[dst := m1[PteToPa(s.flat[HEAP_PAGE])]];
  }

  /** A stray store that hits a free page, the first on its list to be hit: the list goes on from
      there at the address that the first word of the heap page happens to be. What is left is
      the free list only if that is the link it replaces. */
  lemma FreePageHit(s: Space, tables: set<nat>, root: nat, m1: Memory, stores: seq<nat>, m2: Memory, ret: int, i: nat,
                    head: nat, chain: seq<nat>, j: nat)
    requires StraysTo(s, tables, root, m1, stores, m2, ret) && HeapEnd(s) > HEAP_PAGE
    requires i < |stores| && i <= Clear(root + UHEAP_START, HeapEnd(s) - HEAP_PAGE, Sources(tables, s.flat))
    requires Piece(s.heapTop - UHEAP_START, i) >= 8
    requires Linked(m1, head, chain) && j < |chain| && chain[j] == stores[i]
    requires forall a :: 0 <= a < j ==> chain[a] !in stores
    ensures HEAP_PAGE + i in s.flat && PteToPa(s.flat[HEAP_PAGE + i]) in m1
    ensures var word := m1[PteToPa(s.flat[HEAP_PAGE + i])][0];
      PhysMem.Walk(m2, head, j + 1) == word && (Linked(m2, head, chain) ==> word == Successor(chain, j))
  {
    assert Opened(Closed.Copying, 0);
    assert MovedAt(m1, s.flat, HEAP_PAGE, root + UHEAP_START, s.heapTop - UHEAP_START, i, m2);
    assert m2[chain[j]][0] == m1[PteToPa(s.flat[HEAP_PAGE + i])][0];
    WalkUntil(m1, m2, head, chain, 0, j);
  }

  /** As far as the pages of a free list are as they were, it is walked as before. */
  lemma {:induction false} WalkUntil(m1: Memory, m2: Memory, head: nat, chain: seq<nat>, a: nat, j: nat)
    requires Linked(m1, head, chain) && a <= j < |chain| && chain[j] in m2
    requires forall b :: 0 <= b < j ==> chain[b] in m2 && m2[chain[b]] == m1[chain[b]]
    ensures PhysMem.Walk(m2, chain[a], j + 1 - a) == m2[chain[j]][0]
    decreases j - a
  {
    if a < j {
      assert m1[chain[a]][0] == Successor(chain, a);
      WalkUntil(m1, m2, head, chain, a + 1, j);
    }
  }

  /** uvm.c:518, with the target UHEAP_START above the copy's root table. It stores anything if
      and only if the parent has a heap page. */
  method CopyHeapIn(pm: Pmem, pt: PageTable, root: nat, heapSize: nat, ghost s: Space)
    returns (r: Outcome<int>, ghost stores: seq<nat>)
    requires Means(pm.mem, pt.tree, pt.tables, s.flat) && pt.root == pt.tree.root && Inv(s)
    requires heapSize == (s.heapTop + TWO64 - UHEAP_START) % 0x1_0000_0000_0000_0000 && heapSize > 0
    modifies pm`mem
    ensures stores != [] <==> HeapEnd(s) > HEAP_PAGE
    ensures r.Panicked? ==> stores != []
    ensures r.Returned? && HeapEnd(s) > HEAP_PAGE ==>
      && StraysTo(s, pt.tables, root, old(pm.mem), stores, pm.mem, r.value)
      && Ran(old(pm.mem), pt.root, UHEAP_START, root + UHEAP_START, s.heapTop - UHEAP_START, r, pm.mem)
    ensures HeapEnd(s) == HEAP_PAGE ==> pm.mem == old(pm.mem)
  {
    ghost var clear := Clear(root + UHEAP_START, HeapEnd(s) - HEAP_PAGE, Sources(pt.tables, s.flat));
    r, stores := CopyinToMemory(pm, pt.root, root + UHEAP_START, UHEAP_START, heapSize, pt.tree, pt.tables, s.flat,
                                clear);
    HeapAnswer(s, pt.tables, root, old(pm.mem), stores, pm.mem, r, clear, heapSize);
  }

  /** uvm.c:505-518 as written: back the heap pages of the copy, then call uvm_copyin. The answer
      is that of uvm_copyin, 0 if it is not called. */
  method HeapAsWritten(p: Proc, child: Proc, ghost s: Space, ghost base: Snapshot)
    returns (r: Outcome<int>, ghost stores: seq<nat>, ghost m1: Memory)
    requires Twin(p.pt, child.pt, base) && p.pt != child.pt && child != p && child.pt.pm == child.pm == p.pm
    requires child.pt.flat.Keys == {TRAMP_PAGE} && Inv(s) && p.heapTop == s.heapTop && p.pt.flat == s.flat
    modifies child.pt, child.pm, child.pm.kern, child.pm.user
    ensures stores != [] ==> HeapEnd(s) > HEAP_PAGE
    ensures r.Panicked? ==> stores != [] || Short(HeapEnd(s), |old(child.pm.user.chain)|, |old(child.pm.kern.chain)|)
    ensures r.Returned? && HeapEnd(s) > HEAP_PAGE ==> Strays(s, p.pt, child.pt, m1, stores, child.pm.mem, r.value)
    ensures r.Returned? && HeapEnd(s) == HEAP_PAGE ==>
      && Twin(p.pt, child.pt, base)
      && Backed(old(child.pt.flat), old(child.pm.user.owned), child.pt.flat, child.pm.user.owned,
                Pages(HEAP_PAGE, HeapEnd(s)), RWU)
      && |child.pm.user.chain| >= |old(child.pm.user.chain)| - HeapEnd(s)
      && |child.pm.kern.chain| >= |old(child.pm.kern.chain)| - 2 * HeapEnd(s)
  {
    HeapPages(s, 0);
    stores, m1 := [], child.pm.mem;
    r := Returned(0);
    var heapSize := (p.heapTop + TWO64 - UHEAP_START) % 0x1_0000_0000_0000_0000;
    var backed := BackHeap(p, child, PgRoundUp(p.heapTop), s, base);
    if backed.Panicked? {
      return Panicked, stores, m1;
    }
    m1 := child.pm.mem;
    if heapSize > 0 {
      r, stores := CopyHeapIn(p.pm, p.pt, child.pt.root, heapSize, s);
    }
  }

  /** What the answer of uvm_copyin means at line 518. */
  lemma HeapAnswer(s: Space, tables: set<nat>, root: nat, m1: Memory, stores: seq<nat>, m2: Memory,
                   r: Outcome<int>, clear: nat, len: nat)
    requires Inv(s) && len == (s.heapTop + TWO64 - UHEAP_START) % 0x1_0000_0000_0000_0000 && len > 0
    requires InRow(stores, root + UHEAP_START) && OnlyAt(m1, stores, m2)
    requires stores != [] <==> UserPage(s.flat, HEAP_PAGE)
    requires clear == Clear(root + UHEAP_START, HeapEnd(s) - HEAP_PAGE, Sources(tables, s.flat))
    requires (len % 4096 == 0 ==> |stores| <= len / 4096) && (|stores| > clear ==> UserPage(s.flat, HEAP_PAGE + clear))
    requires r.Returned? ==> r.value == 0 || r.value == -1
    requires r.Returned? ==> Moved(m1, s.flat, HEAP_PAGE, root + UHEAP_START, len, Known(stores, clear), m2)
    requires r.Returned? && |stores| <= clear ==>
      if r.value == 0 then len == |stores| * 4096
      else len != |stores| * 4096 && !UserPage(s.flat, HEAP_PAGE + |stores|)
    ensures stores != [] <==> HeapEnd(s) > HEAP_PAGE
    ensures r.Returned? && HeapEnd(s) > HEAP_PAGE ==>
      len == s.heapTop - UHEAP_START && StraysTo(s, tables, root, m1, stores, m2, r.value)
    ensures HeapEnd(s) == HEAP_PAGE ==> m2 == m1
  {
    HeapPages(s, 0);
    PgRoundUpExact(s.heapTop);
    if HeapEnd(s) > HEAP_PAGE {
      HeapUser(s, HEAP_PAGE);
      assert len == s.heapTop - UHEAP_START;
      if r.Returned? {
        StraysIs(s, tables, root, m1, stores, m2, r.value, clear);
      }
    } else {
      HeapEmpty(s);
      assert stores == [];
    }
  }

  /** uvm.c:508-515: the loop that backs the heap pages of the copy, if there are any. */
  method BackHeap(p: Proc, child: Proc, heapEndPg: nat, ghost s: Space, ghost base: Snapshot) returns (r: Outcome<()>)
    requires Twin(p.pt, child.pt, base) && p.pt != child.pt && child != p && child.pt.pm == child.pm == p.pm
    requires child.pt.flat.Keys == {TRAMP_PAGE} && Ordered(s) && heapEndPg == HeapEnd(s) * 4096
    modifies child.pt, child.pm, child.pm.kern, child.pm.user
    ensures r.Panicked? ==> Short(HeapEnd(s), |old(child.pm.user.chain)|, |old(child.pm.kern.chain)|)
    ensures r.Returned? ==>
      && p.pt.Valid()
      && Pages(HEAP_PAGE, HeapEnd(s)) <= child.pt.flat.Keys
      && Zeroed(child.pm.mem, child.pt.flat, Pages(HEAP_PAGE, HeapEnd(s)))
      && Backed(old(child.pt.flat), old(child.pm.user.owned), child.pt.flat, child.pm.user.owned,
                Pages(HEAP_PAGE, HeapEnd(s)), RWU)
      && (HeapEnd(s) == HEAP_PAGE ==> Twin(p.pt, child.pt, base))
      && |child.pm.user.chain| >= |old(child.pm.user.chain)| - HeapEnd(s)
      && |child.pm.kern.chain| >= |old(child.pm.kern.chain)| - 2 * HeapEnd(s)
  {
    HeapPages(s, 0);
    ghost var snap, pages := Snap(child.pt), Pages(HEAP_PAGE, HeapEnd(s));
    if heapEndPg <= UHEAP_START {
      PagesNext(HEAP_PAGE, HEAP_PAGE);
      BackedNone(child.pt.flat, child.pm.user.owned, RWU);
      return Returned(());
    }
    assert forall v :: v in pages ==> Between(HEAP_PAGE, v, HeapEnd(s));
    var _ :- MapUp(child.pt, UHEAP_START, heapEndPg, RWU);
    TwinMapped(p.pt, child.pt, base, snap.flat, snap.uowned, snap.mem, pages, RWU, snap, HeapEnd(s) - HEAP_PAGE);
    assert pages <= child.pt.flat.Keys && Zeroed(child.pm.mem, child.pt.flat, pages) by {
      assert Opened(Closed.Mapping, 0);
      assert Opened(Closed.Backing, 0);
    }
    return Returned(());
  }

  /** uvm.c:505-531: the heap. As written, a heap page of the parent leads the copy astray; the
      answer says whether it has. Nothing is said then about what the code goes on to do. */
  method CopyHeap(p: Proc, child: Proc, heap: Version, ghost s: Space, ghost base: Snapshot)
    returns (astray: Outcome<Option<int>>, ghost stores: seq<nat>, ghost m1: Memory)
    requires Twin(p.pt, child.pt, base) && p.pt != child.pt && child != p && child.pt.pm == child.pm == p.pm
    requires child.pt.flat.Keys == {TRAMP_PAGE} && Inv(s) && p.heapTop == s.heapTop && p.pt.flat == s.flat
    modifies child`heapTop, child.pt, child.pm, child.pm.kern, child.pm.user
    ensures astray.Panicked? ==>
      GoesAstray(heap, s) || Short(HeapEnd(s), |old(child.pm.user.chain)|, |old(child.pm.kern.chain)|)
    ensures astray.Returned? ==> (astray.value.Some? <==> GoesAstray(heap, s))
    ensures astray.Returned? && astray.value.Some? ==>
      Strays(s, p.pt, child.pt, m1, stores, p.pm.mem, astray.value.value)
    ensures astray.Returned? && astray.value.None? ==>
      && Twin(p.pt, child.pt, base) && child.heapTop == s.heapTop
      && Backed(old(child.pt.flat), old(child.pm.user.owned), child.pt.flat, child.pm.user.owned,
                Pages(HEAP_PAGE, HeapEnd(s)), RWU)
      && child.pt.flat.Keys == {TRAMP_PAGE} + Pages(HEAP_PAGE, HeapEnd(s))
      && |child.pm.user.chain| >= |old(child.pm.user.chain)| - HeapEnd(s)
      && |child.pm.kern.chain| >= |old(child.pm.kern.chain)| - 2 * HeapEnd(s)
  {
    HeapPages(s, 0);
    stores, m1 := [], p.pm.mem;
    var heapEndPg := PgRoundUp(p.heapTop);
    if heap.AsWritten? {
      var ret;
      ret, stores, m1 := HeapAsWritten(p, child, s, base);
      if ret.Panicked? {
        return Panicked, stores, m1;
      }
      if heapEndPg > UHEAP_START {
        return Returned(Some(ret.value)), stores, m1;
      }
    } else {
      var cloned := CloneRange(p.pt, child.pt, UHEAP_START, heapEndPg, RWU, base);
      if cloned.Panicked? {
        return Panicked, stores, m1;
      }
    }
    child.heapTop := p.heapTop;
    BackedKeys(old(child.pt.flat), old(child.pm.user.owned), child.pt.flat, child.pm.user.owned,
               Pages(HEAP_PAGE, HeapEnd(s)), RWU);
    return Returned(None), stores, m1;
  }

  lemma BackedKeys(flat: map<nat, nat>, uowned: set<nat>, flat': map<nat, nat>, uowned': set<nat>, pages: set<nat>,
                   perm: nat)
    requires Backed(flat, uowned, flat', uowned', pages, perm)
    ensures flat'.Keys == flat.Keys + pages
  {
    assert Opened(Closed.Backing, 0);
  }

  /** uvm.c:534-558: the stack. */
  method CopyStack(p: Proc, child: Proc, ghost s: Space, ghost base: Snapshot) returns (r: Outcome<()>)
    requires Twin(p.pt, child.pt, base) && p.pt != child.pt && child != p && child.pt.pm == child.pm == p.pm
    requires Ordered(s) && p.ustackNpage == s.ustack
    requires child.pt.flat.Keys == {TRAMP_PAGE} + Pages(HEAP_PAGE, HeapEnd(s))
    modifies child`ustackNpage, child.pt, child.pm, child.pm.kern, child.pm.user
    ensures r.Panicked? ==> |old(child.pm.user.chain)| < s.ustack || |old(child.pm.kern.chain)| < 2 * s.ustack
    ensures r.Returned? ==>
      && |child.pm.user.chain| >= |old(child.pm.user.chain)| - s.ustack
      && |child.pm.kern.chain| >= |old(child.pm.kern.chain)| - 2 * s.ustack
      && Twin(p.pt, child.pt, base) && child.ustackNpage == s.ustack
      && Backed(old(child.pt.flat), old(child.pm.user.owned), child.pt.flat, child.pm.user.owned,
                Pages(TF_PAGE - s.ustack, TF_PAGE), RWU)
  {
    HeapPages(s, 0);
    child.ustackNpage := p.ustackNpage;
    var ustackBottomOld := VA_MAX - (p.ustackNpage + 2) * 4096;
    assert forall v :: v in Pages(HEAP_PAGE, HeapEnd(s)) ==> Between(HEAP_PAGE, v, HeapEnd(s));
    var _ :- CloneRange(p.pt, child.pt, ustackBottomOld, VA_MAX - 2 * PGSIZE, RWU, base);
    return Returned(());
  }

  /** Mapping an area leaves the trampoline. */
  lemma AreaStays(flat: map<nat, nat>, uowned: set<nat>, flat': map<nat, nat>, uowned': set<nat>, lo: nat, hi: nat)
    requires Backed(flat, uowned, flat', uowned', Pages(lo, hi), RWU) && hi <= TRAMP_PAGE && TRAMP_PAGE in flat
    ensures TRAMP_PAGE in flat' && flat'[TRAMP_PAGE] == flat[TRAMP_PAGE]
  {
    assert Opened(Closed.Backing, 0);
    assert TRAMP_PAGE !in Pages(lo, hi);
  }

  /** uvm.c:505-558: heap and stack. */
  method CopyAreas(p: Proc, child: Proc, heap: Version, ghost s: Space, ghost base: Snapshot, ghost nodes: nat)
    returns (astray: Outcome<Option<int>>, ghost stores: seq<nat>, ghost m1: Memory)
    requires Twin(p.pt, child.pt, base) && p.pt != child.pt && child != p && child.pt.pm == child.pm == p.pm
    requires child.pt.flat.Keys == {TRAMP_PAGE} && !HasU(child.pt.flat[TRAMP_PAGE])
    requires child.pm.user.owned == base.uowned
    requires Inv(s) && p.heapTop == s.heapTop && p.ustackNpage == s.ustack && p.pt.flat == s.flat
    modifies child`heapTop, child`ustackNpage, child.pt, child.pm, child.pm.kern, child.pm.user
    ensures astray.Panicked? ==>
      GoesAstray(heap, s) || Short(HeapEnd(s) + s.ustack, |old(child.pm.user.chain)|, |old(child.pm.kern.chain)|)
    ensures astray.Returned? ==> (astray.value.Some? <==> GoesAstray(heap, s))
    ensures astray.Returned? && astray.value.Some? ==>
      Strays(s, p.pt, child.pt, m1, stores, p.pm.mem, astray.value.value)
    ensures astray.Returned? && astray.value.None? ==>
      && (var n := HeapEnd(s) + s.ustack;
          && |child.pm.user.chain| >= |old(child.pm.user.chain)| - n
          && |child.pm.kern.chain| >= |old(child.pm.kern.chain)| - 2 * n)
      && Twin(p.pt, child.pt, base) && child.heapTop == s.heapTop && child.ustackNpage == s.ustack
      && Inv(Space([], s.heapTop, s.ustack, child.pt.flat, child.pm.user.owned, nodes, base.kothers, {TRAMP_PAGE}))
      && TRAMP_PAGE in child.pt.flat && child.pt.flat[TRAMP_PAGE] == old(child.pt.flat)[TRAMP_PAGE]
  {
    ghost var f0, u0 := child.pt.flat, child.pm.user.owned;
    astray, stores, m1 := CopyHeap(p, child, heap, s, base);
    if astray.Panicked? || astray.value.Some? {
      return;
    }
    ghost var f1, u1 := child.pt.flat, child.pm.user.owned;
    var stack := CopyStack(p, child, s, base);
    if stack.Panicked? {
      return Panicked, stores, m1;
    }
    HeapPages(s, TRAMP_PAGE);
    AreaStays(f0, u0, f1, u1, HEAP_PAGE, HeapEnd(s));
    AreaStays(f1, u1, child.pt.flat, child.pm.user.owned, TF_PAGE - s.ustack, TF_PAGE);
    CopyInv(s, f0, u0, f1, u1,
            Space([], s.heapTop, s.ustack, child.pt.flat, child.pm.user.owned, nodes, base.kothers, {TRAMP_PAGE}));
  }

  // ---------- the copy's region list ----------

  /** What a copy is about: the parent's address space, the state before the copy as far as it
      must be left alone, the free nodes then, and the list head that the child had. */
  datatype Job = Job(s: Space, base: Snapshot, free: seq<MmapRegion>, stale: MmapRegion?, trampoline: nat)

  /** Pool, source list and copy's list during the copy; `moving` holds a node that is on
      neither list yet. Until it has a node of its own the copy's head is the stale one. */
  ghost predicate Lists(p: Proc, child: Proc, moving: seq<MmapRegion>, c: Job)
    reads p`mmap, p`list, p`regs, child`mmap, child`list, child`regs, p.pool, p.pool.nodes, p.pool.free, p.list,
          child.list
  {
    && p.pool == child.pool && p.pool.Valid()
    && p.mmap == First(p.list, null) && Seg(p.list, p.regs, null)
    && child.mmap == First(child.list, c.stale) && Seg(child.list, child.regs, null)
    && |p.pool.free| + |moving| + |child.list| == |c.free|
    && NodesApart(p.pool.nodes, p.pool.free, p.list, child.list, moving, c.free)
  }

  ghost predicate NodesApart(nodes: set<MmapRegion>, free': seq<MmapRegion>, list: seq<MmapRegion>,
                             copy: seq<MmapRegion>, moving: seq<MmapRegion>, free: seq<MmapRegion>) {
    && Members(nodes, free', list)
    && Members(nodes, moving + free', copy)
    && SameNodes(moving + free', copy, free, [])
    && forall k {:trigger Opened(Closed.Roster, k)} :: Sealed(Closed.Roster, k) ==>
      && (forall n :: n in copy ==> n !in list)
      && (forall n :: n in moving ==> n in nodes && n !in free' && n !in list)
  }

  lemma ApartTake(nodes: set<MmapRegion>, f0: seq<MmapRegion>, list: seq<MmapRegion>, copy: seq<MmapRegion>,
                  free: seq<MmapRegion>, node: MmapRegion, f1: seq<MmapRegion>)
    requires NodesApart(nodes, f0, list, copy, [], free) && f0 == [node] + f1 && node in nodes && node !in f1
    ensures NodesApart(nodes, f1, list, copy, [node], free)
    ensures node !in list && node !in copy
  {
    assert [] + f0 == [node] + f1;
    assert Opened(Closed.Roster, 0);
  }

  lemma ApartAppend(nodes: set<MmapRegion>, f: seq<MmapRegion>, list: seq<MmapRegion>, copy: seq<MmapRegion>,
                    free: seq<MmapRegion>, node: MmapRegion)
    requires NodesApart(nodes, f, list, copy, [node], free)
    ensures NodesApart(nodes, f, list, copy + [node], [], free)
    ensures node !in list && node !in copy
  {
    assert [] + f == f;
    assert Opened(Closed.Roster, 0);
  }

  /** The copy has the first i regions on its list. */
  ghost predicate Listed(p: Proc, child: Proc, i: nat, moving: seq<MmapRegion>, c: Job)
    reads p`mmap, p`list, p`regs, child`mmap, child`list, child`regs, p.pool, p.pool.nodes, p.pool.free, p.list,
          child.list
  {
    forall k {:trigger Opened(Closed.Copying, k)} :: Sealed(Closed.Copying, k) ==>
      Lists(p, child, moving, c) && p.regs == c.s.regs && i <= |c.s.regs| && child.regs == c.s.regs[..i]
  }

  /** uvm.c:565-570: take a node and describe the region of cur in it. */
  method TakeBeside(p: Proc, child: Proc, cur: MmapRegion, ghost i: nat, ghost c: Job) returns (node: MmapRegion?)
    requires Listed(p, child, i, [], c) && i < |p.list| && cur == p.list[i]
    modifies p.pool, p.pool.free
    ensures node == null <==> old(p.pool.free) == []
    ensures node == null ==> Listed(p, child, i, [], c) && p.pool.free == []
    ensures node != null ==>
      && Listed(p, child, i, [node], c) && node in old(p.pool.free)
      && node.next == null && i < |c.s.regs| && Is(node, c.s.regs[i])
  {
    assert Opened(Closed.Copying, 0);
    ghost var f0 := p.pool.free;
    assert Is(cur, p.regs[i]) by {
      Around(p.list, p.regs, i);
    }
    assert forall n :: n in p.list || n in child.list ==> n !in f0 by {
      assert Opened(Closed.Roster, 0);
    }
    assert cur in p.list;
    node := TakeLike(p.pool, cur, p.list, p.regs, child.list, child.regs);
    if node != null {
      ApartTake(p.pool.nodes, f0, p.list, child.list, c.free, node, p.pool.free);
    }
  }

  /** A node that describes what cur does, taken while two lists stand. */
  method TakeLike(pool: MmapPool, cur: MmapRegion, ghost l: seq<MmapRegion>, ghost rs: seq<Region>,
                  ghost k: seq<MmapRegion>, ghost qs: seq<Region>)
    returns (node: MmapRegion?)
    requires pool.Valid() && Seg(l, rs, null) && Seg(k, qs, null) && cur in l
    requires forall n :: n in l || n in k ==> n !in pool.free
    modifies pool, pool.free
    ensures pool.Valid() && Seg(l, rs, null) && Seg(k, qs, null)
    ensures node == null <==> old(pool.free) == []
    ensures node == null ==> pool.free == []
    ensures node != null ==>
      && old(pool.free) == [node] + pool.free && node in old(pool.free) && node in pool.nodes && node !in pool.free
      && node.next == null && Is(node, Region(old(cur.begin), old(cur.npages)))
  {
    assert cur !in pool.free;
    ghost var f0 := pool.free;
    node := pool.Alloc();
    if node != null {
      assert node == f0[0];
      node.begin, node.npages, node.next := cur.begin, cur.npages, null;
    }
    assert Seg(l, rs, null) && Seg(k, qs, null) by {
      assert Opened(Closed.Links, 0);
      assert forall j :: 0 <= j < |l| ==> l[j] in l;
      assert forall j :: 0 <= j < |k| ==> k[j] in k;
    }
  }

  /** `*p_cur_new = node_new`: write the link that ends the list. */
  method LinkTail(child: Proc, tail: MmapRegion?, node: MmapRegion)
    requires Seg(child.list, child.regs, null)
    requires if child.list == [] then tail == null
             else tail == child.list[|child.list| - 1] && child.mmap == child.list[0]
    requires node.next == null && node !in child.list
    requires forall i, j :: 0 <= i < j < |child.list| ==> child.list[i] != child.list[j]
    modifies child`mmap, child`list, child`regs, child.list`next
    ensures child.mmap == First(child.list, null) && Seg(child.list, child.regs, null)
    ensures child.list == old(child.list) + [node] && child.regs == old(child.regs) + [Region(node.begin, node.npages)]
  {
    ghost var l, rs, m := child.list, child.regs, Region(node.begin, node.npages);
    assert |rs| == |l|;
    child.list, child.regs := l + [node], rs + [m];
    if tail == null {
      assert l == [] && rs == [];
      child.mmap := node;
      SegOne(node, m, null);
      assert l + [node] == [node] && rs + [m] == [m];
    } else {
      ghost var k := |l| - 1;
      Around(l, rs, k);
      AtEnd(l, rs, node, m);
      tail.next := node;
      Behind(l, rs, k, node, m);
    }
  }

  lemma AtEnd(l: seq<MmapRegion>, rs: seq<Region>, n: MmapRegion, m: Region)
    requires |rs| == |l| > 0
    ensures l[|l|..] == [] && rs[|l|..] == []
    ensures l[..|l|] + ([n] + l[|l|..]) == l + [n] && Splice(rs, |l|, |l|, m) == rs + [m]
  {
    assert l[..|l|] == l && rs[..|l|] == rs;
    assert [n] + [] == [n] && [m] + [] == [m];
  }

  /** uvm.c:599-600: link the node behind the last one of the copy. */
  method Append(p: Proc, child: Proc, tail: MmapRegion?, node: MmapRegion, ghost i: nat, ghost c: Job)
    requires Listed(p, child, i, [node], c) && node.next == null && p != child && i < |c.s.regs|
    requires Is(node, c.s.regs[i])
    requires if child.list == [] then tail == null else tail == child.list[|child.list| - 1]
    modifies child`mmap, child`list, child`regs, child.list`next
    ensures Listed(p, child, i + 1, [], c)
    ensures child.list == old(child.list) + [node]
  {
    assert Opened(Closed.Copying, 0);
    ghost var l := child.list;
    ApartAppend(p.pool.nodes, p.pool.free, p.list, l, c.free, node);
    assert (forall n :: n in l ==> n !in p.list) && DistinctNodes(l) by {
      assert Opened(Closed.Roster, 0);
    }
    assert forall i :: 0 <= i < |p.list| ==> p.list[i] in p.list && p.list[i] !in l;
    LinkTail(child, tail, node);
    assert Seg(p.list, p.regs, null) by {
      assert Opened(Closed.Links, 0);
    }
    assert c.s.regs[..i + 1] == c.s.regs[..i] + [c.s.regs[i]];
  }

  // ---------- the regions ----------

  /** The copy's table and fields once the pages of j regions are mapped. */
  ghost predicate Filled(p: Proc, child: Proc, j: nat, c: Job)
    reads p`pt, child`pt, child`heapTop, child`ustackNpage, child`fixed, p.pt, child.pt, p.pm, p.pm.kern, p.pm.user,
          p.pt.pm, p.pt.pm.kern, p.pt.pm.user, child.pt.pm, child.pt.pm.kern, child.pt.pm.user
  {
    && p != child && p.pt != child.pt && child.pm == p.pm == child.pt.pm && j <= |c.s.regs|
    && child.heapTop == c.s.heapTop && child.ustackNpage == c.s.ustack && child.fixed == {TRAMP_PAGE}
    && forall k {:trigger Opened(Closed.Copying, k)} :: Sealed(Closed.Copying, k) ==>
      && Twin(p.pt, child.pt, c.base) && Inv(CopySpace(c.s, child.pt, j)) && Canonical(c.s.regs)
      && MmapFlags(CopySpace(c.s, child.pt, j), RWXU + PTE_V)
      && HasTrampoline(child.pt.flat, c.trampoline)
  }

  /** The trampoline page of the copy. */
  predicate HasTrampoline(flat: map<nat, nat>, trampoline: nat) {
    TRAMP_PAGE in flat && flat[TRAMP_PAGE] == MakePte(trampoline, PTE_R + PTE_X)
  }

  lemma TrampolineBits(flat: map<nat, nat>, trampoline: nat)
    requires HasTrampoline(flat, trampoline) && IsPageBase(trampoline)
    ensures var pte := flat[TRAMP_PAGE];
      PteToPa(pte) == trampoline && HasV(pte) && HasR(pte) && HasX(pte) && !HasW(pte) && !HasU(pte)
  {
    PteRoundTrip(trampoline, PTE_R + PTE_X);
    BitsOfFlags(flat[TRAMP_PAGE]);
  }

  lemma TrampolineStays(flat: map<nat, nat>, uowned: set<nat>, flat': map<nat, nat>, uowned': set<nat>,
                        pages: set<nat>, perm: nat, trampoline: nat)
    requires Backed(flat, uowned, flat', uowned', pages, perm) && TRAMP_PAGE !in pages
    requires HasTrampoline(flat, trampoline)
    ensures HasTrampoline(flat', trampoline)
  {
    assert Opened(Closed.Backing, 0);
  }

  ghost function CopySpace(s: Space, pt: PageTable, j: nat): Space
    requires j <= |s.regs|
    reads pt, pt.pm, pt.pm.kern, pt.pm.user
  {
    Space(s.regs[..j], s.heapTop, s.ustack, pt.flat, pt.pm.user.owned, 0, pt.pm.kern.owned - pt.tables, {TRAMP_PAGE})
  }

  /** The next region's pages are not mapped in the copy yet. */
  lemma RegionMissing(s: Space, r: Region, v: nat)
    requires Inv(s) && Proper(r) && Regions.Free(s.regs, r) && Between(Page(r.begin), v, Page(r.begin) + r.npages)
    ensures v !in s.flat
  {
    assert v in RegionPages(r);
    PageMultiple(v, r);
    FreeUncovered(s.regs, r, v * 4096);
    assert In([r][0], v * 4096);
    assert IsMmap([r], v);
    AreasApart(s.(regs := [r]), v);
    assert Opened(Closed.Agreement, 0);
  }

  /** A prefix of a canonical list and its next region. */
  lemma PrefixNext(regs: seq<Region>, i: nat)
    requires Canonical(regs) && i < |regs|
    ensures Canonical(regs[..i]) && Canonical(regs[..i + 1]) && Proper(regs[i]) && Regions.Free(regs[..i], regs[i])
    ensures forall a :: Covers(regs[..i + 1], a) <==> Covers(regs[..i], a) || In(regs[i], a)
  {
    assert regs[..i + 1] == regs[..i] + [regs[i]];
    forall a
      ensures Covers(regs[..i + 1], a) <==> Covers(regs[..i], a) || In(regs[i], a)
    {
      CoversCat(regs[..i], [regs[i]], a);
      CoversCons(regs[i], [], a);
      assert [regs[i]] == [regs[i]] + [];
    }
  }

  lemma CopiedRegion(t: Space, u: Space, regs: seq<Region>, i: nat)
    requires Canonical(regs) && i < |regs| && Inv(t) && t.regs == regs[..i]
    requires u == t.(regs := regs[..i + 1], flat := u.flat, uowned := u.uowned)
    requires Backed(t.flat, t.uowned, u.flat, u.uowned, RegionPages(regs[i]), RWXU)
    ensures Inv(u)
  {
    PrefixNext(regs, i);
    AnyNodes(t, t.nodes + 1);
    MappedKeeps(t.(nodes := t.nodes + 1), regs[i], RWXU, u);
  }

  /** The pages of one more region have the flags of the others. */
  lemma CopiedFlags(t: Space, u: Space, regs: seq<Region>, i: nat)
    requires Canonical(regs) && i < |regs| && MmapFlags(t, RWXU + PTE_V) && t.regs == regs[..i]
    requires u == t.(regs := regs[..i + 1], flat := u.flat, uowned := u.uowned)
    requires Backed(t.flat, t.uowned, u.flat, u.uowned, RegionPages(regs[i]), RWXU)
    ensures MmapFlags(u, RWXU + PTE_V)
  {
    assert Opened(Closed.Agreement, 0);
    assert Opened(Closed.Backing, 0);
    assert u.regs == t.regs + [regs[i]];
    forall v: nat | v in u.flat && IsMmap(u.regs, v)
      ensures PteFlags(u.flat[v]) == RWXU + PTE_V
    {
      PageMultiple(v, regs[i]);
      CoversCat(t.regs, [regs[i]], v * 4096);
      CoversOne(regs[i], v * 4096);
    }
  }

  /** The invariant does not mention the number of free nodes. */
  lemma AnyNodes(s: Space, n: nat)
    requires Inv(s)
    ensures Inv(s.(nodes := n))
  {
    var t := s.(nodes := n);
    assert Opened(Closed.Agreement, 0);
    assert forall v :: Wanted(t, v) == Wanted(s, v);
  }

  /** uvm.c:564-602, one region: take a node, back and fill its pages, link it. None when no
      node is free. */
  method CopyRegion(p: Proc, child: Proc, cur: MmapRegion, tail: MmapRegion?, ghost i: nat, ghost c: Job)
    returns (r: Outcome<Option<MmapRegion>>)
    requires Filled(p, child, i, c) && Listed(p, child, i, [], c)
    requires i < |p.list| && i < |c.s.regs| && cur == p.list[i] && p.pool == child.pool
    requires if child.list == [] then tail == null else tail == child.list[|child.list| - 1]
    modifies child`mmap, child`list, child`regs, child.list`next, child.pt, child.pm, child.pm.kern, child.pm.user,
             child.pool, child.pool.free
    ensures r.Panicked? ==>
      |old(child.pm.user.chain)| < c.s.regs[i].npages || |old(child.pm.kern.chain)| < 2 * c.s.regs[i].npages
    ensures r.Returned? && r.value.None? ==>
      child.pool.free == [] && Filled(p, child, i, c) && Listed(p, child, i, [], c)
    ensures r.Returned? && r.value.Some? ==>
      && Filled(p, child, i + 1, c) && Listed(p, child, i + 1, [], c)
      && child.list == old(child.list) + [r.value.value]
      && |child.pm.user.chain| == |old(child.pm.user.chain)| - c.s.regs[i].npages
      && |child.pm.kern.chain| >= |old(child.pm.kern.chain)| - 2 * c.s.regs[i].npages
  {
    var node := TakeBeside(p, child, cur, i, c);
    if node == null {
      return Returned(None);
    }
    var _ :- FillRegion(p, child, node, i, c);
    Append(p, child, tail, node, i, c);
    return Returned(Some(node));
  }

  /** uvm.c:574-596: back the pages of the node's region and fill them. */
  method FillRegion(p: Proc, child: Proc, node: MmapRegion, ghost i: nat, ghost c: Job)
    returns (r: Outcome<()>)
    requires Filled(p, child, i, c) && i < |c.s.regs| && Is(node, c.s.regs[i])
    modifies child.pt, child.pm, child.pm.kern, child.pm.user
    ensures r.Panicked? ==>
      |old(child.pm.user.chain)| < c.s.regs[i].npages || |old(child.pm.kern.chain)| < 2 * c.s.regs[i].npages
    ensures r.Returned? ==>
      && Filled(p, child, i + 1, c)
      && |child.pm.user.chain| == |old(child.pm.user.chain)| - c.s.regs[i].npages
      && |child.pm.kern.chain| >= |old(child.pm.kern.chain)| - 2 * c.s.regs[i].npages
  {
    assert Opened(Closed.Copying, 0);
    PrefixNext(c.s.regs, i);
    ghost var region, t := c.s.regs[i], CopySpace(c.s, child.pt, i);
    ProperBytes(region);
    PageStep(region.begin, region.npages);
    var vaEnd := node.begin + Bytes32(node.npages);
    forall v | v in child.pt.flat
      ensures !Between(Page(region.begin), v, Page(region.begin) + region.npages)
    {
      if Between(Page(region.begin), v, Page(region.begin) + region.npages) {
        RegionMissing(t, region, v);
      }
    }
    var _ :- CloneRange(p.pt, child.pt, node.begin, vaEnd, RWXU, c.base);
    CopiedRegion(t, CopySpace(c.s, child.pt, i + 1), c.s.regs, i);
    CopiedFlags(t, CopySpace(c.s, child.pt, i + 1), c.s.regs, i);
    TrampolineStays(t.flat, t.uowned, child.pt.flat, child.pm.user.owned, RegionPages(region), RWXU, c.trampoline);
    return Returned(());
  }

  function SumPages(regs: seq<Region>): nat {
    if regs == [] then 0 else SumPages(regs[..|regs| - 1]) + regs[|regs| - 1].npages
  }

  lemma {:induction false} SumPrefix(regs: seq<Region>, i: nat)
    requires i <= |regs|
    ensures SumPages(regs[..i]) <= SumPages(regs)
    ensures i < |regs| ==> SumPages(regs[..i + 1]) == SumPages(regs[..i]) + regs[i].npages
    decreases |regs| - i
  {
    if i < |regs| {
      assert regs[..i + 1][..i] == regs[..i];
      SumPrefix(regs, i + 1);
    } else {
      assert regs[..i] == regs;
    }
  }

  /** Copying i regions has taken no more than their pages and twice as many tables. */
  ghost predicate Spent(regs: seq<Region>, i: nat, u0: nat, k0: nat, u: nat, k: nat) {
    forall j {:trigger Opened(Closed.Copying, j)} :: Sealed(Closed.Copying, j) ==>
      i <= |regs| && u + SumPages(regs[..i]) >= u0 && k + 2 * SumPages(regs[..i]) >= k0
  }

  lemma SpentShort(regs: seq<Region>, i: nat, u0: nat, k0: nat, u: nat, k: nat)
    requires Spent(regs, i, u0, k0, u, k) && i < |regs|
    ensures u < regs[i].npages ==> u0 < SumPages(regs)
    ensures k < 2 * regs[i].npages ==> k0 < 2 * SumPages(regs)
  {
    assert Opened(Closed.Copying, 0);
    SumPrefix(regs, i);
    SumPrefix(regs, i + 1);
  }

  lemma SpentNext(regs: seq<Region>, i: nat, u0: nat, k0: nat, u: nat, k: nat, u': nat, k': nat)
    requires Spent(regs, i, u0, k0, u, k) && i < |regs| && u' == u - regs[i].npages && k' >= k - 2 * regs[i].npages
    ensures Spent(regs, i + 1, u0, k0, u', k')
  {
    assert Opened(Closed.Copying, 0);
    SumPrefix(regs, i);
    assert u' + SumPages(regs[..i + 1]) >= u0 && k' + 2 * SumPages(regs[..i + 1]) >= k0;
  }

  /** The loop over the source's regions. The answer says whether every node was there, and how
      many regions have been copied. */
  method CopyRegions(p: Proc, child: Proc, ghost c: Job)
    returns (r: Outcome<bool>, i: nat)
    requires Filled(p, child, 0, c) && Listed(p, child, 0, [], c)
    requires |p.list| == |c.s.regs| && p.pool == child.pool && child.list == [] && p.mmap == First(p.list, null)
    requires c.free == p.pool.free
    requires Seg(p.list, c.s.regs, null)
    modifies child`mmap, child`list, child`regs, child.pt, child.pm, child.pm.kern, child.pm.user, child.pool,
             child.pool.free
    ensures r.Panicked? ==>
      |old(child.pm.user.chain)| < SumPages(c.s.regs) || |old(child.pm.kern.chain)| < 2 * SumPages(c.s.regs)
    ensures r.Returned? ==> Filled(p, child, i, c) && Listed(p, child, i, [], c)
    ensures r.Returned? ==> if r.value then i == |c.s.regs| else i < |c.s.regs| && child.pool.free == []
  {
    var curOld, tail: MmapRegion? := p.mmap, null;
    i := 0;
    assert SumPages(c.s.regs[..0]) == 0;
    assert |child.pm.user.chain| + SumPages(c.s.regs[..0]) >= |child.pm.user.chain|;
    assert |child.pm.kern.chain| + 2 * SumPages(c.s.regs[..0]) >= |child.pm.kern.chain|;
    while curOld != null
      invariant i <= |c.s.regs| && curOld == Next(p.list, i - 1, null)
      invariant if child.list == [] then tail == null else tail == child.list[|child.list| - 1]
      invariant Filled(p, child, i, c) && Listed(p, child, i, [], c)
      invariant Spent(c.s.regs, i, |old(child.pm.user.chain)|, |old(child.pm.kern.chain)|, |child.pm.user.chain|,
                      |child.pm.kern.chain|)
      decreases |c.s.regs| - i
    {
      ListedAt(p, child, i, [], c);
      ghost var u1, k1 := |child.pm.user.chain|, |child.pm.kern.chain|;
      SpentShort(c.s.regs, i, |old(child.pm.user.chain)|, |old(child.pm.kern.chain)|, u1, k1);
      var node := CopyRegion(p, child, curOld, tail, i, c);
      if node.Panicked? {
        return Panicked, i;
      }
      if node.value.None? {
        return Returned(false), i;
      }
      NodeNext(p, child, i, c);
      SpentNext(c.s.regs, i, |old(child.pm.user.chain)|, |old(child.pm.kern.chain)|, u1, k1, |child.pm.user.chain|,
                |child.pm.kern.chain|);
      tail := node.value.value;
      curOld := curOld.next;
      i := i + 1;
    }
    return Returned(true), i;
  }

  lemma ListedAt(p: Proc, child: Proc, i: nat, moving: seq<MmapRegion>, c: Job)
    requires Listed(p, child, i, moving, c)
    ensures Seg(p.list, c.s.regs, null) && i <= |c.s.regs|
    ensures p.pool == child.pool
    ensures forall j :: 0 <= j < |child.list| ==> child.list[j] in c.free
    ensures forall j :: 0 <= j < |p.pool.free| ==> p.pool.free[j] in c.free
    ensures ListsApart(p.list, child.list)
  {
    assert Opened(Closed.Copying, 0);
    assert Opened(Closed.Roster, 0);
    assert forall n :: n in p.list ==> n !in child.list;
    assert forall n :: n in p.pool.free ==> n in moving + p.pool.free;
  }

  lemma NodeNext(p: Proc, child: Proc, i: nat, c: Job)
    requires Listed(p, child, i + 1, [], c) && i < |p.list|
    ensures p.list[i].next == Next(p.list, i, null)
  {
    assert Opened(Closed.Copying, 0);
    assert Opened(Closed.Links, 0);
    assert p.list[i].next == Next(p.list, i, null);
  }

  // ---------- the whole copy ----------

  /** The source as the copy leaves it: only what others own has changed. */
  ghost predicate SourceKept(p: Proc, s: Space)
    reads p, p.pt, p.pm, p.pm.kern, p.pm.user, p.pool, p.pool.nodes, p.pool.free, p.list
  {
    && p.Valid()
    && p.View() == s.(uowned := p.pm.user.owned, nodes := |p.pool.free|, kothers := p.pm.kern.owned - p.pt.tables)
  }

  /** A complete copy: the same regions, heap and stack behind frames and tables of its own,
      page for page the same contents, and everything that was in use before as it was. Its
      list is that of its regions; its list head is the old one if there are none. */
  ghost predicate Copied(p: Proc, child: Proc, c: Job)
    reads p, child, p.pt, child.pt, p.pm, p.pm.kern, p.pm.user, p.pool, p.pool.nodes, p.pool.free, p.list, child.list,
          child.pm, child.pm.kern, child.pm.user, child.pool, child.pool.nodes, child.pool.free
  {
    && SourceKept(p, c.s) && p != child && p.pt != child.pt && p.pm == child.pm && p.pool == child.pool
    && CopyStands(child, c) && Inv(child.View()) && MmapFlags(child.View(), RWXU + PTE_V)
    && HasTrampoline(child.pt.flat, c.trampoline)
    && child.View() ==
         Space(c.s.regs, c.s.heapTop, c.s.ustack, child.pt.flat, child.pm.user.owned, |p.pool.free|, c.base.kothers,
               {TRAMP_PAGE})
    && OtherFrames(child.View()) == c.base.uowned
    && Mirrors(p.pm.mem, p.pt.flat, child.pt.flat)
    && Steady(c.base.mem, c.base.kothers + c.base.uowned, p.pm.mem)
    && |p.pool.free| + |child.list| == |c.free| && SameNodes(p.pool.free, child.list, c.free, [])
    && ListsApart(p.list, child.list)
  }

  /** The child is well formed, up to its list head. */
  ghost predicate CopyStands(child: Proc, c: Job)
    reads child, child.pt, child.pm, child.pm.kern, child.pm.user, child.pool, child.pool.nodes, child.pool.free,
          child.list
  {
    && child.TableOk() && child.pool.Valid()
    && child.mmap == First(child.list, c.stale) && Seg(child.list, child.regs, null)
    && Members(child.pool.nodes, child.pool.free, child.list)
  }

  /** The head a copy ends up with is right exactly when there was none or there are regions. */
  lemma StandsExact(child: Proc, c: Job)
    requires CopyStands(child, c)
    ensures child.Valid() <==> c.stale == null || child.regs != []
  {
  }

  /** p is still the process that the job is about. */
  ghost predicate Same(p: Proc, child: Proc, c: Job)
    reads p, p.pt
  {
    && p.pt.pm == p.pm && p.pool == child.pool && p.heapTop == c.s.heapTop && p.ustackNpage == c.s.ustack
    && p.fixed == c.s.fixed
    && c.s.flat == p.pt.flat
  }

  /** Both processes are well formed at any stage of the copy. */
  lemma StageValid(p: Proc, child: Proc, i: nat, c: Job)
    requires Filled(p, child, i, c) && Listed(p, child, i, [], c) && Same(p, child, c)
    ensures SourceKept(p, c.s)
    ensures CopyStands(child, c) && Inv(child.View()) && MmapFlags(child.View(), RWXU + PTE_V)
    ensures HasTrampoline(child.pt.flat, c.trampoline)
    ensures child.View() ==
      Space(c.s.regs[..i], c.s.heapTop, c.s.ustack, child.pt.flat, child.pm.user.owned, |p.pool.free|, c.base.kothers,
            {TRAMP_PAGE})
    ensures OtherFrames(child.View()) == c.base.uowned
    ensures Twin(p.pt, child.pt, c.base) && Lists(p, child, [], c)
  {
    assert Opened(Closed.Copying, 0);
    assert [] + p.pool.free == p.pool.free;
    AnyNodes(CopySpace(c.s, child.pt, i), |p.pool.free|);
    assert MmapFlags(child.View(), RWXU + PTE_V) by {
      assert Opened(Closed.Agreement, 0);
    }
  }

  lemma CopyDone(p: Proc, child: Proc, c: Job)
    requires Filled(p, child, |c.s.regs|, c) && Listed(p, child, |c.s.regs|, [], c) && Same(p, child, c)
    ensures Copied(p, child, c)
  {
    StageValid(p, child, |c.s.regs|, c);
    ListedAt(p, child, |c.s.regs|, [], c);
    assert c.s.regs[..|c.s.regs|] == c.s.regs;
    assert [] + p.pool.free == p.pool.free;
  }

  /** What running out of nodes leaves: nothing of the copy. As written, the frame of its
      topmost stack page stays handed out. */
  ghost predicate CopyUndone(p: Proc, c: Job, version: Version)
    reads p, p.pt, p.pm, p.pm.kern, p.pm.user, p.pool, p.pool.nodes, p.pool.free, p.list
  {
    && SourceKept(p, c.s)
    && p.pm.kern.owned == c.base.kothers
    && |p.pool.free| == |c.free| && SameNodes(p.pool.free, [], c.free, [])
    && Steady(c.base.mem, p.pm.kern.owned + c.base.uowned, p.pm.mem)
    && if version.AsWritten? then exists f :: f !in c.base.uowned && p.pm.user.owned == c.base.uowned + {f}
       else p.pm.user.owned == c.base.uowned
  }

  /** The frames the as-written teardown of a copy loses: that of its topmost stack page. */
  lemma LostOne(t: Space)
    requires Inv(t) && t.fixed == {TRAMP_PAGE}
    ensures exists f :: f !in OtherFrames(t) && FramesOf(t.flat, {CODE_PAGE, TF_PAGE - 1}) == {f}
  {
    assert CODE_PAGE !in t.flat && TF_PAGE - 1 in t.flat by {
      assert Opened(Closed.Agreement, 0);
      AreasApart(t, CODE_PAGE);
      assert IsStack(t, TF_PAGE - 1);
      if IsMmap(t.regs, CODE_PAGE) {
        MmapBounds(t.regs, CODE_PAGE);
      }
    }
    var f := PteToPa(t.flat[TF_PAGE - 1]);
    assert Between(0, TF_PAGE - 1, TF_PAGE);
    assert f in OwnFrames(t.flat);
    assert FramesOf(t.flat, {CODE_PAGE, TF_PAGE - 1}) == {f};
  }

  /** Tearing a partial copy down leaves the source standing. */
  lemma SourceStands(p: Proc, s: Space, base: Snapshot, free: seq<MmapRegion>, m1: Memory, f1: seq<MmapRegion>,
                     copy: seq<MmapRegion>)
    requires p.pm.Valid() && p.pool.Valid() && p.pt.pm == p.pm && p.pt.root == p.pt.tree.root
    requires Means(m1, p.pt.tree, p.pt.tables, p.pt.flat) && p.pt.tables <= base.kothers
    requires p.pm.kern.owned == base.kothers && base.uowned <= p.pm.user.owned
    requires Steady(base.mem, base.kothers + base.uowned, m1) && Steady(m1, p.pm.Owned(), p.pm.mem)
    requires p.mmap == First(p.list, null) && Seg(p.list, p.regs, null)
    requires NodesApart(p.pool.nodes, f1, p.list, copy, [], free) && SameNodes(p.pool.free, [], f1, copy)
    requires s == p.View().(uowned := s.uowned, nodes := s.nodes, kothers := s.kothers)
    ensures SourceKept(p, s) && SameNodes(p.pool.free, [], free, [])
    ensures Steady(base.mem, p.pm.kern.owned + base.uowned, p.pm.mem)
  {
    SteadyTrans(base.mem, base.kothers + base.uowned, m1, p.pm.mem, base.kothers + base.uowned) by {
      SteadyLess(m1, p.pm.Owned(), p.pm.mem, base.kothers + base.uowned);
    }
    assert p.pm.mem.Keys == m1.Keys && forall q :: q in p.pt.tables && q in m1 ==> p.pm.mem[q] == m1[q] by {
      assert Opened(Closed.Growth, 0);
    }
    MeansFrame(m1, p.pm.mem, p.pt.tree, p.pt.tables, p.pt.flat);
    assert [] + f1 == f1;
    assert Members(p.pool.nodes, p.pool.free, p.list) && SameNodes(p.pool.free, [], free, []) by {
      assert Opened(Closed.Roster, 0);
      assert DistinctNodes(p.list);
    }
  }

  /** uvm.c:606-608, `goto fail`: give back what the copy has so far. */
  method Undo(p: Proc, child: Proc, version: Version, ghost i: nat, ghost c: Job)
    requires Filled(p, child, i, c) && Listed(p, child, i, [], c) && Same(p, child, c)
    requires c.stale == null || i > 0
    modifies child`mmap, child`list, child`regs, child`heapTop, child`ustackNpage, child.pt`flat,
             p.pm, p.pm.kern, p.pm.user, p.pool, child.list`freeNext
    ensures CopyUndone(p, c, version)
  {
    StageValid(p, child, i, c);
    StandsExact(child, c);
    ghost var t, m1, f1, copy := child.View(), p.pm.mem, p.pool.free, child.list;
    NoTrapframe(t);
    LostOne(t);
    var _ := DestroyPgtbl(child, version);
    SourceStands(p, c.s, c.base, c.free, m1, f1, copy);
  }

  /** A copy has no trapframe. */
  lemma NoTrapframe(t: Space)
    requires Inv(t) && t.fixed == {TRAMP_PAGE}
    ensures TF_PAGE !in t.flat
  {
    AreasApart(t, TF_PAGE);
    if IsMmap(t.regs, TF_PAGE) {
      MmapBounds(t.regs, TF_PAGE);
    }
    assert Opened(Closed.Agreement, 0);
  }

  lemma ListedStart(p: Proc, child: Proc, c: Job)
    requires p.pool.Valid() && p.ListOk() && c.s.regs == p.regs && c.free == p.pool.free
    requires child.pool == p.pool && child.mmap == c.stale && child.list == [] && child.regs == []
    ensures Listed(p, child, 0, [], c)
  {
    assert [] + p.pool.free == p.pool.free;
    assert SegNodes(child.list, child.regs, null);
    assert c.s.regs[..0] == [];
    StartApart(p.pool.nodes, p.pool.free, p.list);
    assert Lists(p, child, [], c);
  }

  lemma ListedCount(p: Proc, child: Proc, i: nat, c: Job)
    requires Listed(p, child, i, [], c)
    ensures |p.pool.free| + i == |c.free|
  {
    assert Opened(Closed.Copying, 0);
  }

  lemma StartApart(nodes: set<MmapRegion>, free: seq<MmapRegion>, list: seq<MmapRegion>)
    requires Members(nodes, free, list)
    ensures NodesApart(nodes, free, list, [], [], free)
  {
    assert [] + free == free;
    assert DistinctNodes([]);
  }

  /** uvm.c:499-558: the table, the heap and the stack. */
  method Prepare(p: Proc, child: Proc, trampoline: nat, heap: Version, ghost c: Job)
    returns (astray: Outcome<Option<int>>, ghost stores: seq<nat>, ghost m1: Memory)
    requires p.TableOk() && child != p && child.pm == p.pm && IsPageBase(trampoline)
    requires FramesOk(p.pt.flat, p.pm.user.owned) && Inv(c.s) && p.heapTop == c.s.heapTop && p.ustackNpage == c.s.ustack
    requires p.pt.flat == c.s.flat
    requires c.base == Before(p.pm.mem, p.pm.kern.owned, p.pm.user.owned) && c.trampoline == trampoline
    modifies child`pt, child`heapTop, child`ustackNpage, child`fixed, p.pm, p.pm.kern, p.pm.user
    ensures astray.Panicked? ==>
      GoesAstray(heap, c.s) || Short(HeapEnd(c.s) + c.s.ustack, |old(p.pm.user.chain)|, |old(p.pm.kern.chain)| - 3)
    ensures astray.Returned? ==> (astray.value.Some? <==> GoesAstray(heap, c.s))
    ensures astray.Returned? && astray.value.Some? ==>
      Strays(c.s, p.pt, child.pt, m1, stores, p.pm.mem, astray.value.value)
    ensures astray.Returned? && astray.value.None? ==>
      && fresh(child.pt) && Filled(p, child, 0, c)
      && (var n := HeapEnd(c.s) + c.s.ustack;
          |p.pm.user.chain| >= |old(p.pm.user.chain)| - n && |p.pm.kern.chain| >= |old(p.pm.kern.chain)| - 2 * n - 3)
  {
    stores, m1 := [], p.pm.mem;
    var table := CopyTable(p, child, trampoline);
    if table.Panicked? {
      return Panicked, stores, m1;
    }
    astray, stores, m1 := CopyAreas(p, child, heap, c.s, c.base, 0);
    if astray.Panicked? || astray.value.Some? {
      return;
    }
    child.fixed := {TRAMP_PAGE};
    FilledStart(p, child, c);
  }

  lemma FilledStart(p: Proc, child: Proc, c: Job)
    requires p != child && p.pt != child.pt && child.pm == p.pm == child.pt.pm && Canonical(c.s.regs)
    requires child.heapTop == c.s.heapTop && child.ustackNpage == c.s.ustack && child.fixed == {TRAMP_PAGE}
    requires Twin(p.pt, child.pt, c.base)
    requires Inv(Space([], c.s.heapTop, c.s.ustack, child.pt.flat, child.pm.user.owned, 0, c.base.kothers,
                       {TRAMP_PAGE}))
    requires HasTrampoline(child.pt.flat, c.trampoline)
    ensures Filled(p, child, 0, c)
  {
    assert c.s.regs[..0] == [];
    assert Inv(CopySpace(c.s, child.pt, 0));
    assert forall v: nat :: !IsMmap(CopySpace(c.s, child.pt, 0).regs, v);
    assert MmapFlags(CopySpace(c.s, child.pt, 0), RWXU + PTE_V);
  }

  /** How a copy ends: with an answer, or, as far as the model follows the code, astray in line
      518 (with the answer of uvm_copyin there), or at a teardown that would walk the child's
      stale list. */
  datatype Ending = Finished(ret: int) | Astray(answer: int) | Stale

  /** uvm_copy_pgtbl (uvm.c:496-609). It goes astray if and only if the heap copy is taken as
      written and the parent has a heap page. Otherwise: on success the child is a copy of the
      parent; when the nodes run out, everything the copy took has been given back, unless
      that happens at the first region while the child's list head is stale. */
  method CopyPgtbl(p: Proc, child: Proc, trampoline: nat, heap: Version, version: Version)
    returns (r: Outcome<Ending>, ghost stores: seq<nat>, ghost m1: Memory)
    requires p.Valid() && Inv(p.View()) && IsPageBase(trampoline)
    requires child != p && child.pm == p.pm && child.pool == p.pool && child.list == [] && child.regs == []
    modifies child, p.pm, p.pm.kern, p.pm.user, p.pool, p.pool.free
    ensures r.Panicked? ==>
      || GoesAstray(heap, old(p.View()))
      || (var n := HeapEnd(old(p.View())) + old(p.ustackNpage) + SumPages(old(p.regs));
          |old(p.pm.user.chain)| < n || |old(p.pm.kern.chain)| < 2 * n + 3)
    ensures r.Returned? ==> (r.value.Astray? <==> GoesAstray(heap, old(p.View())))
    ensures r.Returned? && r.value.Astray? ==>
      Strays(old(p.View()), p.pt, child.pt, m1, stores, p.pm.mem, r.value.answer)
    ensures r.Returned? && !r.value.Astray? ==>
      (r.value == Stale <==> old(child.mmap) != null && old(p.pool.free) == [] && old(p.regs) != [])
    ensures r.Returned? && r.value.Finished? ==>
      var c := Job(old(p.View()), Before(old(p.pm.mem), old(p.pm.kern.owned), old(p.pm.user.owned)), old(p.pool.free),
                   old(child.mmap), trampoline);
      || (r.value.ret == 0 && Copied(p, child, c))
      || (r.value.ret == -1 && |c.free| < |c.s.regs| && CopyUndone(p, c, version))
  {
    ghost var c := Job(p.View(), Before(p.pm.mem, p.pm.kern.owned, p.pm.user.owned), p.pool.free, child.mmap,
                       trampoline);
    ListedStart(p, child, c);
    var head := child.mmap;
    var astray;
    astray, stores, m1 := Prepare(p, child, trampoline, heap, c);
    if astray.Panicked? {
      return Panicked, stores, m1;
    }
    if astray.value.Some? {
      return Returned(Astray(astray.value.value)), stores, m1;
    }
    var ok, i := CopyRegions(p, child, c);
    if ok.Panicked? {
      return Panicked, stores, m1;
    }
    ListedCount(p, child, i, c);
    if !ok.value {
      if i == 0 && head != null {
        return Returned(Stale), stores, m1;
      }
      ListedAt(p, child, i, [], c);
      Undo(p, child, version, i, c);
      return Returned(Finished(-1)), stores, m1;
    }
    CopyDone(p, child, c);
    return Returned(Finished(0)), stores, m1;
  }

  // ---------- what a complete copy is ----------

  /** An address space keeps its invariant while others take frames and tables. */
  lemma OthersGrow(s: Space, t: Space)
    requires Inv(s) && t == s.(uowned := t.uowned, nodes := t.nodes, kothers := t.kothers)
    requires s.uowned <= t.uowned && s.kothers <= t.kothers
    ensures Inv(t)
  {
    assert Opened(Closed.Agreement, 0);
    assert forall v :: Wanted(t, v) == Wanted(s, v);
  }

  /** The two address spaces map the same pages below the trapframe, the code page apart. */
  lemma SamePages(s: Space, t: Space, v: nat)
    requires Inv(s) && Inv(t) && s.regs == t.regs && s.heapTop == t.heapTop && s.ustack == t.ustack
    requires t.fixed == {TRAMP_PAGE}
    requires v < TF_PAGE
    ensures v in t.flat ==> v in s.flat && v != CODE_PAGE
    ensures v in s.flat && v != CODE_PAGE ==> v in t.flat
  {
    AreasApart(t, v);
    if IsMmap(t.regs, v) {
      MmapBounds(t.regs, v);
    }
    assert (v in s.flat <==> Wanted(s, v)) && (v in t.flat <==> Wanted(t, v)) by {
      assert Opened(Closed.Agreement, 0);
    }
  }

  /** Parent and copy share nothing. */
  lemma CopyApart(p: Proc, child: Proc, c: Job)
    requires Copied(p, child, c) && Inv(c.s) && c.s.uowned == c.base.uowned
    requires c.s.kothers == c.base.kothers - p.pt.tables && p.pt.tables <= c.base.kothers
    ensures Apart(p, child)
  {
    var t := child.View();
    NoTrapframe(t);
    assert t.kothers == p.pm.kern.owned - child.pt.tables;
    assert OwnFrames(p.pt.flat) <= c.s.uowned by {
      assert Opened(Closed.Agreement, 0);
      assert forall w :: w in Pages(0, TF_PAGE) ==> Between(0, w, TF_PAGE);
    }
  }

  /** The pages of the copy's regions can be read, written and executed by the user, whatever
      the parent's could. */
  lemma CopyPermits(child: Proc, v: nat)
    requires MmapFlags(child.View(), RWXU + PTE_V) && v in child.pt.flat && IsMmap(child.regs, v)
    ensures var pte := child.pt.flat[v]; HasV(pte) && HasR(pte) && HasW(pte) && HasX(pte) && HasU(pte)
  {
    assert Opened(Closed.Agreement, 0);
    BitsOfFlags(child.pt.flat[v]);
  }

  /** A copy maps what the parent maps, page for page with equal contents, behind frames and
      tables of its own; the parent keeps its invariant. Its list is in order unless a stale head
      has survived, which it does exactly when the parent has no region. */
  lemma CopyMeans(p: Proc, child: Proc, c: Job, v: nat)
    requires Copied(p, child, c) && Inv(c.s) && c.s.uowned == c.base.uowned
    requires c.s.kothers == c.base.kothers - p.pt.tables && p.pt.tables <= c.base.kothers && child.pm == p.pm
    requires v < TF_PAGE && v != CODE_PAGE && IsPageBase(c.trampoline)
    ensures Inv(p.View())
    ensures child.Valid() <==> c.stale == null || c.s.regs != []
    ensures v in child.pt.flat <==> v in p.pt.flat
    ensures v in child.pt.flat ==>
      var f, g := PteToPa(p.pt.flat[v]), PteToPa(child.pt.flat[v]);
      f in p.pm.mem && g in p.pm.mem && p.pm.mem[g] == p.pm.mem[f] && g !in c.base.uowned
    ensures v in child.pt.flat && IsMmap(child.regs, v) ==>
      var pte := child.pt.flat[v]; HasV(pte) && HasR(pte) && HasW(pte) && HasX(pte) && HasU(pte)
    ensures TRAMP_PAGE in child.pt.flat &&
      var pte := child.pt.flat[TRAMP_PAGE];
      PteToPa(pte) == c.trampoline && HasV(pte) && HasR(pte) && HasX(pte) && !HasW(pte) && !HasU(pte)
    ensures child.pt.tables !! p.pt.tables && OwnFrames(child.pt.flat) !! OwnFrames(p.pt.flat) && Apart(p, child)
  {
    TrampolineBits(child.pt.flat, c.trampoline);
    if v in child.pt.flat && IsMmap(child.regs, v) {
      CopyPermits(child, v);
    }
    CopyApart(p, child, c);
    OthersGrow(c.s, p.View());
    StandsExact(child, c);
    SamePages(p.View(), child.View(), v);
    assert Between(0, v, TF_PAGE);
    assert OwnFrames(p.pt.flat) <= c.s.uowned by {
      assert Opened(Closed.Agreement, 0);
      assert forall w :: w in Pages(0, TF_PAGE) ==> Between(0, w, TF_PAGE);
    }
    assert v in child.pt.flat ==> PteToPa(child.pt.flat[v]) in OwnFrames(child.pt.flat);
    assert Opened(Closed.Copying, 0);
  }
}
