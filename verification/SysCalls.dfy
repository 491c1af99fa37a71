/** The first process (src/kernel/proc/proc.c:34-97) and the memory system calls
    (src/kernel/syscall/sysfunc.c:90-140). */
module SysCalls {
  import opened Layout
  import opened Outcomes
  import opened PhysMem
  import opened Kvm
  import opened RegionPool
  import opened Spaces
  import opened Calls
  import opened Uvm

  // ---------- the first process ----------

  /** One mapping made by proc_pgtbl_init, seen as a step from an earlier state. */
  ghost predicate TableStep(pt: PageTable, mem: Memory, kothers: set<nat>, uowned: set<nat>, flat: map<nat, nat>)
    reads pt, pt.pm, pt.pm.kern, pt.pm.user
  {
    && pt.Valid() && pt.flat == flat && pt.pm.user.owned == uowned
    && pt.pm.kern.owned - pt.tables == kothers
    && Steady(mem, kothers + uowned, pt.pm.mem)
  }

  lemma StepTables(mem: Memory, kothers: set<nat>, uowned: set<nat>, m1: Memory, t1: set<nat>, k1: set<nat>, m2: Memory,
                   t2: set<nat>, k2: set<nat>)
    requires Steady(mem, kothers + uowned, m1) && k1 - t1 == kothers && t1 <= k1 && k1 !! uowned
    requires TablesGrew(m1, t1, k1, m2, t2, k2, uowned)
    ensures Steady(mem, kothers + uowned, m2) && k2 - t2 == kothers
  {
    assert Opened(Closed.Growth, 0);
  }

  /** vm_mappages of one page that is not taken from the user region. */
  method MapFixed(pt: PageTable, va: nat, pa: nat, perm: nat, ghost mem: Memory, ghost kothers: set<nat>,
                  ghost uowned: set<nat>, ghost flat: map<nat, nat>)
    returns (r: Outcome<()>)
    requires TableStep(pt, mem, kothers, uowned, flat)
    requires va % 4096 == 0 && va < VA_MAX && IsPageBase(pa) && perm < 1024
    modifies pt, pt.pm, pt.pm.kern
    ensures r.Panicked? ==> |old(pt.pm.kern.chain)| < 2
    ensures r.Returned? ==> TableStep(pt, mem, kothers, uowned, flat[Page(va) := MakePte(pa, perm)])
    ensures r.Returned? ==> |pt.pm.kern.chain| >= |old(pt.pm.kern.chain)| - 2
  {
    ghost var m1, t1, k1 := pt.pm.mem, pt.tables, pt.pm.kern.owned;
    var _ :- pt.MapPages(va, pa, PGSIZE, perm);
    MapsOne(flat, va, pa, perm, pt.flat);
    StepTables(mem, kothers, uowned, m1, t1, k1, pt.pm.mem, pt.tables, pt.pm.kern.owned);
    return Returned(());
  }

  function FixedFlat(trampoline: nat, trapframe: nat): map<nat, nat> {
    map[TRAMP_PAGE := MakePte(trampoline, PTE_R + PTE_X), TF_PAGE := MakePte(trapframe, PTE_R + PTE_W)]
  }

  /** proc_pgtbl_init (proc.c:34-47): a table that maps the trampoline and the trapframe. */
  method PgtblInit(pm: Pmem, trampoline: nat, trapframe: nat) returns (r: Outcome<PageTable>)
    requires pm.Valid() && IsPageBase(trampoline) && IsPageBase(trapframe)
    modifies pm, pm.kern
    ensures r.Panicked? ==> |old(pm.kern.chain)| < 5
    ensures r.Returned? ==>
      && fresh(r.value) && r.value.pm == pm
      && TableStep(r.value, old(pm.mem), old(pm.kern.owned), old(pm.user.owned), FixedFlat(trampoline, trapframe))
      && |pm.kern.chain| >= |old(pm.kern.chain)| - 5
  {
    ghost var mem, kowned, uowned := pm.mem, pm.kern.owned, pm.user.owned;
    var root :- pm.Alloc(true);
    var pt := new PageTable(pm, root);
    assert Steady(mem, kowned + uowned, pm.mem);
    assert pm.kern.owned - pt.tables == kowned;
    var _ :- MapFixed(pt, TRAMPOLINE, trampoline, PTE_R + PTE_X, mem, kowned, uowned, map[]);
    var _ :- MapFixed(pt, TRAPFRAME, trapframe, PTE_R + PTE_W, mem, kowned, uowned, pt.flat);
    return Returned(pt);
  }

  const RXU := PTE_R + PTE_X + PTE_U

  /** The state in which every run starts (proc.c:64-97). */
  ghost predicate FirstSpace(s: Space, trampoline: nat, uowned: set<nat>, kowned: set<nat>, nodes: nat) {
    && Inv(s)
    && s.regs == [] && s.heapTop == UHEAP_START && s.ustack == 1
    && s.fixed == {CODE_PAGE, TF_PAGE, TRAMP_PAGE}
    && s.nodes == nodes
    && s.flat.Keys == {CODE_PAGE, TF_PAGE - 1, TF_PAGE, TRAMP_PAGE}
    && PteFlags(s.flat[CODE_PAGE]) == RXU + PTE_V
    && PteFlags(s.flat[TF_PAGE]) == PTE_R + PTE_W + PTE_V
    && s.flat[TRAMP_PAGE] == MakePte(trampoline, PTE_R + PTE_X)
    && OtherFrames(s) == uowned
    && s.kothers == kowned + {Trapframe(s)} && Trapframe(s) !in kowned
  }

  /** The frame behind the trapframe page. */
  function Trapframe(s: Space): nat {
    if TF_PAGE in s.flat then PteToPa(s.flat[TF_PAGE]) else 0
  }

  /** A stack page and a code page on top of the fixed mappings make the first space. */
  lemma FirstInv(trampoline: nat, trapframe: nat, f1: map<nat, nat>, u0: set<nat>, u1: set<nat>, s: Space)
    requires IsPageBase(trampoline) && IsPageBase(trapframe)
    requires Backed(FixedFlat(trampoline, trapframe), u0, f1, u1, {TF_PAGE - 1}, RWU)
    requires Backed(f1, u1, s.flat, s.uowned, {CODE_PAGE}, RXU) && trapframe in s.kothers
    requires s.regs == [] && s.heapTop == UHEAP_START && s.ustack == 1 && s.fixed == {CODE_PAGE, TF_PAGE, TRAMP_PAGE}
    ensures Inv(s) && s.flat.Keys == {CODE_PAGE, TF_PAGE - 1, TF_PAGE, TRAMP_PAGE} && OtherFrames(s) == u0
  {
    var f0 := FixedFlat(trampoline, trapframe);
    assert FramesOk(f0, u0);
    assert OwnFrames(f0) == {} by {
      assert forall v :: v in Pages(0, TF_PAGE) ==> v !in f0;
    }
    assert f1.Keys == f0.Keys + {TF_PAGE - 1} && s.flat.Keys == f1.Keys + {CODE_PAGE} by {
      assert Opened(Closed.Backing, 0);
    }
    BackedFrames(f0, u0, f1, u1, {TF_PAGE - 1}, RWU);
    BackedFrames(f1, u1, s.flat, s.uowned, {CODE_PAGE}, RXU);
    FirstTrapframe(trampoline, trapframe, f1, u0, u1, s);
    FirstDomain(s);
    FirstFlags(f0, u0, f1, u1, s);
  }

  lemma FirstTrapframe(trampoline: nat, trapframe: nat, f1: map<nat, nat>, u0: set<nat>, u1: set<nat>, s: Space)
    requires IsPageBase(trampoline) && IsPageBase(trapframe)
    requires Backed(FixedFlat(trampoline, trapframe), u0, f1, u1, {TF_PAGE - 1}, RWU)
    requires Backed(f1, u1, s.flat, s.uowned, {CODE_PAGE}, RXU) && trapframe in s.kothers
    ensures TrapframeOk(s.flat, s.kothers)
  {
    var f0 := FixedFlat(trampoline, trapframe);
    assert s.flat[TF_PAGE] == f0[TF_PAGE] && s.flat[TRAMP_PAGE] == f0[TRAMP_PAGE] by {
      assert Opened(Closed.Backing, 0);
      assert TF_PAGE in f1 && TRAMP_PAGE in f1;
    }
    PteRoundTrip(trapframe, PTE_R + PTE_W);
    PteRoundTrip(trampoline, PTE_R + PTE_X);
  }

  lemma FirstIs(trampoline: nat, trapframe: nat, f1: map<nat, nat>, u0: set<nat>, u1: set<nat>, kowned: set<nat>,
                s: Space)
    requires IsPageBase(trampoline) && IsPageBase(trapframe)
    requires Backed(FixedFlat(trampoline, trapframe), u0, f1, u1, {TF_PAGE - 1}, RWU)
    requires Backed(f1, u1, s.flat, s.uowned, {CODE_PAGE}, RXU)
    requires s.regs == [] && s.heapTop == UHEAP_START && s.ustack == 1 && s.fixed == {CODE_PAGE, TF_PAGE, TRAMP_PAGE}
    requires trapframe !in kowned && s.kothers == kowned + {trapframe}
    ensures FirstSpace(s, trampoline, u0, kowned, s.nodes)
  {
    FirstInv(trampoline, trapframe, f1, u0, u1, s);
    FirstPtes(trampoline, trapframe, f1, u0, u1, s);
  }

  /** The four translations the first process starts with. */
  lemma FirstPtes(trampoline: nat, trapframe: nat, f1: map<nat, nat>, u0: set<nat>, u1: set<nat>, s: Space)
    requires IsPageBase(trampoline) && IsPageBase(trapframe)
    requires Backed(FixedFlat(trampoline, trapframe), u0, f1, u1, {TF_PAGE - 1}, RWU)
    requires Backed(f1, u1, s.flat, s.uowned, {CODE_PAGE}, RXU)
    ensures CODE_PAGE in s.flat && PteFlags(s.flat[CODE_PAGE]) == RXU + PTE_V
    ensures TF_PAGE in s.flat && PteFlags(s.flat[TF_PAGE]) == PTE_R + PTE_W + PTE_V && Trapframe(s) == trapframe
    ensures TRAMP_PAGE in s.flat && s.flat[TRAMP_PAGE] == MakePte(trampoline, PTE_R + PTE_X)
  {
    assert Opened(Closed.Backing, 0);
    PteRoundTrip(trapframe, PTE_R + PTE_W);
    assert s.flat[TF_PAGE] == f1[TF_PAGE] == FixedFlat(trampoline, trapframe)[TF_PAGE];
    assert s.flat[TRAMP_PAGE] == f1[TRAMP_PAGE] == FixedFlat(trampoline, trapframe)[TRAMP_PAGE];
  }

  lemma FirstDomain(s: Space)
    requires s.flat.Keys == {CODE_PAGE, TF_PAGE - 1, TF_PAGE, TRAMP_PAGE}
    requires s.regs == [] && s.heapTop == UHEAP_START && s.ustack == 1 && s.fixed == {CODE_PAGE, TF_PAGE, TRAMP_PAGE}
    ensures Ordered(s) && DomainOk(s)
  {
    assert HeapEnd(s) == HEAP_PAGE;
    forall v: nat
      ensures v in s.flat <==> Wanted(s, v)
    {
    }
  }

  lemma FirstFlags(f0: map<nat, nat>, u0: set<nat>, f1: map<nat, nat>, u1: set<nat>, s: Space)
    requires Backed(f0, u0, f1, u1, {TF_PAGE - 1}, RWU) && Backed(f1, u1, s.flat, s.uowned, {CODE_PAGE}, RXU)
    requires s.regs == [] && s.heapTop == UHEAP_START && s.ustack == 1
    ensures FlagsOk(s)
  {
    assert Opened(Closed.Backing, 0);
    assert s.flat[TF_PAGE - 1] == f1[TF_PAGE - 1];
    forall v: nat | v in s.flat && (IsHeap(s, v) || IsStack(s, v))
      ensures PteFlags(s.flat[v]) == RWU + PTE_V
    {
      assert v == TF_PAGE - 1;
    }
    assert forall v: nat :: !IsMmap(s.regs, v);
  }

  /** proc.c:80-91: one stack page and the code page. */
  method FirstPages(pt: PageTable) returns (r: Outcome<()>, ghost f1: map<nat, nat>, ghost u1: set<nat>)
    requires pt.Valid()
    modifies pt, pt.pm, pt.pm.kern, pt.pm.user
    ensures r.Panicked? ==> |old(pt.pm.kern.chain)| < 4 || |old(pt.pm.user.chain)| < 2
    ensures r.Returned? ==>
      && pt.Valid() && pt.pm.kern.owned - pt.tables == old(pt.pm.kern.owned - pt.tables)
      && Backed(old(pt.flat), old(pt.pm.user.owned), f1, u1, {TF_PAGE - 1}, RWU)
      && Backed(f1, u1, pt.flat, pt.pm.user.owned, {CODE_PAGE}, RXU)
  {
    f1, u1 := map[], {};
    GrownNone(pt, RWU);
    ghost var base := Snap(pt);
    r := MapFresh(pt, TRAPFRAME - PGSIZE, RWU, base, {}, 0);
    if r.Panicked? {
      return;
    }
    assert {} + {Page(TRAPFRAME - PGSIZE)} == {TF_PAGE - 1};
    GrownIs(pt, base, {TF_PAGE - 1}, 1, RWU);
    f1, u1 := pt.flat, pt.pm.user.owned;
    GrownNone(pt, RXU);
    base := Snap(pt);
    r := MapFresh(pt, USER_BASE, RXU, base, {}, 0);
    if r.Returned? {
      assert {} + {Page(USER_BASE)} == {CODE_PAGE};
      GrownIs(pt, base, {CODE_PAGE}, 1, RXU);
    }
  }

  lemma GrownIs(pt: PageTable, base: Snapshot, pages: set<nat>, n: nat, perm: nat)
    requires Grown(pt, base, pages, n, perm)
    ensures pt.Valid() && Backed(base.flat, base.uowned, pt.flat, pt.pm.user.owned, pages, perm)
    ensures pt.pm.kern.owned - pt.tables == base.kothers
    ensures |pt.pm.user.chain| == base.ufree - n && |pt.pm.kern.chain| >= base.kfree - 2 * n
  {
    assert Opened(Closed.Mapping, 0);
  }

  /** proc.c:84-97: the fields of the first process. */
  method FirstFields(pm: Pmem, pool: MmapPool, pt: PageTable) returns (p: Proc)
    requires pt.pm == pm && pt.Valid() && pool.Valid()
    ensures fresh(p) && p.pm == pm && p.pool == pool && p.pt == pt && p.Valid()
    ensures p.View() == Space([], UHEAP_START, 1, pt.flat, pm.user.owned, |pool.free|, pm.kern.owned - pt.tables,
                              {CODE_PAGE, TF_PAGE, TRAMP_PAGE})
  {
    p := new Proc(pm, pool, pt);
    p.ustackNpage := 1;
    p.heapTop := USER_BASE + PGSIZE;
    p.mmap := null;
    p.fixed := {CODE_PAGE, TF_PAGE, TRAMP_PAGE};
  }

  /** proc.c:72-78: the trapframe page and a table with the fixed mappings. */
  method FirstTable(pm: Pmem, trampoline: nat) returns (r: Outcome<(nat, PageTable)>)
    requires pm.Valid() && IsPageBase(trampoline)
    modifies pm, pm.kern
    ensures r.Panicked? ==> |old(pm.kern.chain)| < 6
    ensures r.Returned? ==>
      var (tf, pt) := r.value;
      && fresh(pt) && pt.pm == pm && pt.Valid() && IsPageBase(tf) && tf !in old(pm.kern.owned)
      && pt.flat == FixedFlat(trampoline, tf) && pm.user.owned == old(pm.user.owned)
      && pm.kern.owned - pt.tables == old(pm.kern.owned) + {tf}
      && |pm.kern.chain| >= |old(pm.kern.chain)| - 6
  {
    var tf :- pm.Alloc(true);
    var pt :- PgtblInit(pm, trampoline, tf);
    return Returned((tf, pt));
  }

  /** proc_make_first (proc.c:64-97), its memory part. */
  method MakeFirst(pm: Pmem, pool: MmapPool, trampoline: nat) returns (r: Outcome<Proc>)
    requires pm.Valid() && pool.Valid() && IsPageBase(trampoline)
    modifies pm, pm.kern, pm.user
    ensures r.Panicked? ==> |old(pm.kern.chain)| < 10 || |old(pm.user.chain)| < 2
    ensures r.Returned? ==>
      && fresh(r.value) && fresh(r.value.pt) && r.value.pm == pm && r.value.pool == pool
      && r.value.Valid() && FirstSpace(r.value.View(), trampoline, old(pm.user.owned), old(pm.kern.owned), |pool.free|)
  {
    ghost var uowned, kowned := pm.user.owned, pm.kern.owned;
    var table :- FirstTable(pm, trampoline);
    var (tf, pt) := table;
    var pages, f1, u1 := FirstPages(pt);
    if pages.Panicked? {
      return Panicked;
    }
    var p := FirstFields(pm, pool, pt);
    FirstIs(trampoline, tf, f1, uowned, u1, kowned, p.View());
    return Returned(p);
  }

  // ---------- system calls ----------

  /** sys_brk (sysfunc.c:90-113) */
  method SysBrk(p: Proc, newTop: nat) returns (r: Outcome<int>)
    requires p.Valid() && Inv(p.View()) && newTop < TWO64
    modifies p`heapTop, p.pt, p.pm, p.pm.kern, p.pm.user
    ensures r.Panicked? ==> var n := Page(PgRoundUp(newTop)) - Page(PgRoundUp(old(p.heapTop)));
      newTop <= MMAP_BEGIN && (|old(p.pm.user.chain)| < n || |old(p.pm.kern.chain)| < 2 * n)
    ensures r.Returned? ==> p.Valid() && Brk(old(p.View()), newTop, p.View(), r.value)
    ensures r.Returned? ==>
      p.Kept(old(p.pm.mem), old(p.pm.user.owned)) && NewZeroed(old(p.pt.flat), p.pm.mem, p.pt.flat)
  {
    var oldTop := p.heapTop;
    PgRoundUpExact(newTop);
    NewZeroedNone(p.pt.flat, p.pm.mem, p.pt.flat);
    SteadyRefl(p.pm.mem, (p.pm.kern.owned - p.pt.tables) + (p.pm.user.owned * p.pm.user.owned));
    if newTop == 0 {
      return Returned(oldTop);
    }
    if newTop > oldTop {
      var ret :- p.HeapGrow(newTop);
      if ret < 0 {
        return Returned(-1);
      }
    } else if newTop < oldTop {
      p.HeapUngrow(newTop);
      NewZeroedNone(old(p.pt.flat), p.pm.mem, p.pt.flat);
    }
    return Returned(p.heapTop);
  }
}
