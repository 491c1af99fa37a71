/** A process's user memory: the heap, the stack and the mmap area of src/kernel/mem/uvm.c,
    working on a real page table, real free lists and real region nodes. */
module Uvm {
  import opened Layout
  import opened Outcomes
  import opened PhysMem
  import opened Kvm
  import opened Regions
  import opened RegionPool
  import opened RegionList
  import opened Spaces
  import opened Calls

  /** What a page table and the allocators looked like at some moment. */
  datatype Snapshot = Snapshot(
    mem: Memory,
    kothers: set<nat>,          // kernel pages that are not tables of this page table
    flat: map<nat, nat>,
    uowned: set<nat>,
    kfree: nat,
    ufree: nat)

  ghost function Snap(pt: PageTable): Snapshot
    reads pt, pt.pm, pt.pm.kern, pt.pm.user
  {
    Snapshot(pt.pm.mem, pt.pm.kern.owned - pt.tables, pt.flat, pt.pm.user.owned, |pt.pm.kern.chain|, |pt.pm.user.chain|)
  }

  /** The given pages hold what they held. */
  ghost predicate Steady(mem: Memory, keep: set<nat>, mem': Memory) {
    forall k {:trigger Opened(Closed.Growth, k)} :: Sealed(Closed.Growth, k) ==>
      mem'.Keys == mem.Keys && forall p :: p in mem && p in keep ==> mem'[p] == mem[p]
  }

  lemma SteadyRefl(mem: Memory, keep: set<nat>)
    ensures Steady(mem, keep, mem)
  {
  }

  lemma SteadyLess(mem: Memory, keep: set<nat>, mem': Memory, less: set<nat>)
    requires Steady(mem, keep, mem') && less <= keep
    ensures Steady(mem, less, mem')
  {
    assert Opened(Closed.Growth, 0);
  }

  /** The given pages are backed by frames full of zeroes. */
  ghost predicate Zeroed(mem: Memory, flat: map<nat, nat>, pages: set<nat>) {
    forall k {:trigger Opened(Closed.Growth, k)} :: Sealed(Closed.Growth, k) ==>
      forall v :: v in pages && v in flat ==> Blank(mem, PteToPa(flat[v]))
  }

  /** The pages mapped since the translation was flat0 are full of zeroes. */
  ghost predicate NewZeroed(flat0: map<nat, nat>, mem: Memory, flat: map<nat, nat>) {
    Zeroed(mem, flat, flat.Keys - flat0.Keys)
  }

  /** Word by word, for one new page. */
  lemma NewPageZero(flat0: map<nat, nat>, mem: Memory, flat: map<nat, nat>, v: nat, i: nat)
    requires NewZeroed(flat0, mem, flat) && v in flat && v !in flat0 && i < 512
    ensures PteToPa(flat[v]) in mem && mem[PteToPa(flat[v])][i] == 0
  {
    assert Opened(Closed.Growth, 0);
  }

  /** A page that is kept holds what it held, word by word. */
  lemma KeptPage(mem: Memory, keep: set<nat>, mem': Memory, p: nat)
    requires Steady(mem, keep, mem') && p in keep
    ensures p in mem' <==> p in mem
    ensures p in mem ==> mem'[p] == mem[p]
  {
    assert Opened(Closed.Growth, 0);
  }

  lemma NewZeroedNone(flat0: map<nat, nat>, mem: Memory, flat: map<nat, nat>)
    requires flat.Keys <= flat0.Keys
    ensures NewZeroed(flat0, mem, flat)
  {
  }

  lemma NewZeroedIs(flat0: map<nat, nat>, u0: set<nat>, mem: Memory, flat: map<nat, nat>, uowned: set<nat>,
                    pages: set<nat>, perm: nat)
    requires Backed(flat0, u0, flat, uowned, pages, perm) && Zeroed(mem, flat, pages)
    ensures NewZeroed(flat0, mem, flat)
  {
    assert Opened(Closed.Backing, 0);
    assert Opened(Closed.Growth, 0);
  }

  /** Since the snapshot, n pages were backed with fresh, zeroed frames; no page that was owned
      before and is not a table of this page table has been written. */
  ghost predicate Grown(pt: PageTable, base: Snapshot, pages: set<nat>, n: nat, perm: nat)
    reads pt, pt.pm, pt.pm.kern, pt.pm.user
  {
    forall k {:trigger Opened(Closed.Mapping, k)} :: Sealed(Closed.Mapping, k) ==>
    && pt.Valid()
    && Backed(base.flat, base.uowned, pt.flat, pt.pm.user.owned, pages, perm)
    && Steady(base.mem, base.kothers + base.uowned, pt.pm.mem)
    && Zeroed(pt.pm.mem, pt.flat, pages)
    && pt.pm.kern.owned - pt.tables == base.kothers
    && |pt.pm.user.chain| == base.ufree - n
    && |pt.pm.kern.chain| >= base.kfree - 2 * n
  }

  lemma GrownNone(pt: PageTable, perm: nat)
    requires pt.Valid()
    ensures Grown(pt, Snap(pt), {}, 0, perm)
  {
    assert Steady(pt.pm.mem, Snap(pt).kothers + pt.pm.user.owned, pt.pm.mem);
    BackedNone(pt.flat, pt.pm.user.owned, perm);
    assert Zeroed(pt.pm.mem, pt.flat, {});
  }

  /** Memory changes of one mapping step: a user page pa is taken and zeroed, then only
      tables are written. */
  lemma StepMemory(base: Snapshot, m1: Memory, tables: set<nat>, kowned: set<nat>, u1: set<nat>,
                   pa: nat, m2: Memory, tables': set<nat>, kowned': set<nat>)
    requires Steady(base.mem, base.kothers + base.uowned, m1) && base.uowned <= u1
    requires kowned - tables == base.kothers && tables <= kowned
    requires kowned !! u1 && pa !in kowned && pa !in u1 && pa in m1
    requires TablesGrew(m1[pa := ZERO_FRAME], tables, kowned, m2, tables', kowned', u1 + {pa})
    ensures Steady(base.mem, base.kothers + base.uowned, m2) && kowned' - tables' == base.kothers
  {
    assert Opened(Closed.Growth, 0);
  }

  /** Translation changes of one mapping step. */
  lemma StepFlat(base: Snapshot, flat: map<nat, nat>, u1: set<nat>, pages: set<nat>, va: nat, pa: nat, perm: nat,
                 flat': map<nat, nat>)
    requires Backed(base.flat, base.uowned, flat, u1, pages, perm) && Page(va) !in pages
    requires pa !in u1 && IsPageBase(pa) && perm < 1024
    requires Maps(flat, va, 1, pa, perm, flat')
    ensures Backed(base.flat, base.uowned, flat', u1 + {pa}, pages + {Page(va)}, perm)
    ensures base.uowned <= u1
  {
    MapsOne(flat, va, pa, perm, flat');
    BackedOne(flat, u1, Page(va), pa, perm);
    BackedGrows(base.flat, base.uowned, flat, u1, pages, perm);
    BackedJoin(base.flat, base.uowned, flat, u1, flat', u1 + {pa}, pages, {Page(va)}, perm);
  }

  /** The new frame is zeroed, and the earlier ones stay so. */
  lemma StepZeroed(base: Snapshot, m1: Memory, flat: map<nat, nat>, u1: set<nat>, pages: set<nat>, tables: set<nat>,
                   kowned: set<nat>, va: nat, pa: nat, perm: nat, m2: Memory, flat': map<nat, nat>, tables': set<nat>,
                   kowned': set<nat>)
    requires Backed(base.flat, base.uowned, flat, u1, pages, perm) && Zeroed(m1, flat, pages) && Page(va) !in pages
    requires Maps(flat, va, 1, pa, perm, flat') && IsPageBase(pa) && perm < 1024 && pa !in u1
    requires tables <= kowned && kowned !! u1 && pa !in kowned && pa in m1
    requires TablesGrew(m1[pa := ZERO_FRAME], tables, kowned, m2, tables', kowned', u1 + {pa})
    ensures Zeroed(m2, flat', pages + {Page(va)})
  {
    MapsOne(flat, va, pa, perm, flat');
    PteRoundTrip(pa, perm);
    assert Opened(Closed.Growth, 0);
    forall v | v in pages + {Page(va)} && v in flat'
      ensures Blank(m2, PteToPa(flat'[v]))
    {
      if v != Page(va) {
        assert Opened(Closed.Backing, 0);
        assert flat'[v] == flat[v] && PteToPa(flat[v]) in FramesOf(flat, pages);
      }
    }
  }

  /** `pa = pmem_alloc(false)` and vm_mappages of that one page: the step all the mapping
      loops of uvm.c share (lines 102-111, 153-164, 282-290, 513-516, 542-545, 572-584). */
  method MapFresh(pt: PageTable, va: nat, perm: nat, ghost base: Snapshot, ghost pages: set<nat>, ghost n: nat)
    returns (r: Outcome<()>)
    requires Grown(pt, base, pages, n, perm)
    requires va % 4096 == 0 && va < VA_MAX && Page(va) !in pages && perm < 1024
    modifies pt, pt.pm, pt.pm.kern, pt.pm.user
    ensures r.Panicked? ==> base.ufree < n + 1 || base.kfree < 2 * (n + 1)
    ensures r.Returned? ==> Grown(pt, base, pages + {Page(va)}, n + 1, perm)
  {
    var pm := pt.pm;
    assert Opened(Closed.Mapping, 0);
    ghost var m1, t1, k1, u1, f1 := pm.mem, pt.tables, pm.kern.owned, pm.user.owned, pt.flat;
    var pa :- pm.Alloc(false);
    MeansFrame(m1, pm.mem, pt.tree, t1, f1);
    var _ :- pt.MapPages(va, pa, PGSIZE, perm);
    StepFlat(base, f1, u1, pages, va, pa, perm, pt.flat);
    StepMemory(base, m1, t1, k1, u1, pa, pm.mem, pt.tables, pm.kern.owned);
    StepZeroed(base, m1, f1, u1, pages, t1, k1, va, pa, perm, pm.mem, pt.flat, pt.tables, pm.kern.owned);
    return Returned(());
  }

  /** n pages may not be had: too few user pages, or too few kernel pages for the tables. */
  predicate Short(n: int, ufree: int, kfree: int) { ufree < n || kfree < 2 * n }

  /** The ascending mapping loops of uvm.c: back every page from va up to vaEnd. */
  method MapUp(pt: PageTable, begin: nat, end: nat, perm: nat) returns (r: Outcome<()>)
    requires pt.Valid() && begin % 4096 == 0 && end % 4096 == 0 && begin <= end <= VA_MAX && perm < 1024
    modifies pt, pt.pm, pt.pm.kern, pt.pm.user
    ensures r.Panicked? ==> var n := Page(end) - Page(begin);
      |old(pt.pm.user.chain)| < n || |old(pt.pm.kern.chain)| < 2 * n
    ensures r.Returned? ==> Grown(pt, old(Snap(pt)), Pages(Page(begin), Page(end)), Page(end) - Page(begin), perm)
  {
    ghost var base, lo, v, hi := Snap(pt), Page(begin), Page(begin), Page(end);
    var va := begin;
    GrownNone(pt, perm);
    PagesNext(lo, lo);
    while va < end
      invariant lo <= v <= hi && va == v * 4096
      invariant Grown(pt, base, Pages(lo, v), v - lo, perm)
    {
      PagesNext(lo, v);
      var _ :- MapFresh(pt, va, perm, base, Pages(lo, v), v - lo);
      va, v := va + PGSIZE, v + 1;
    }
    assert v == hi;
    return Returned(());
  }

  /** The descending loop of uvm_ustack_grow (uvm.c:153-164): back every page below `top`
      down to and including the one at `bottom`. */
  method MapDown(pt: PageTable, top: nat, bottom: nat, perm: nat) returns (r: Outcome<()>)
    requires pt.Valid() && top % 4096 == 0 && bottom % 4096 == 0 && 0 < bottom < top <= VA_MAX && perm < 1024
    modifies pt, pt.pm, pt.pm.kern, pt.pm.user
    ensures r.Panicked? ==> var n := Page(top) - Page(bottom);
      |old(pt.pm.user.chain)| < n || |old(pt.pm.kern.chain)| < 2 * n
    ensures r.Returned? ==> Grown(pt, old(Snap(pt)), Pages(Page(bottom), Page(top)), Page(top) - Page(bottom), perm)
  {
    ghost var base, hi, v, lo := Snap(pt), Page(top), Page(top), Page(bottom);
    var va := top - PGSIZE;
    GrownNone(pt, perm);
    PagesBelow(lo, hi);
    while va >= bottom
      invariant lo <= v <= hi && va == v * 4096 - PGSIZE
      invariant Grown(pt, base, Pages(v, hi), hi - v, perm)
    {
      PagesBelow(v - 1, hi);
      var _ :- MapFresh(pt, va, perm, base, Pages(v, hi), hi - v);
      va, v := va - PGSIZE, v - 1;
    }
    assert v == lo;
    return Returned(());
  }

  /** uvm.c:150-175: several pages, or the one below the stack. */
  method MapStack(pt: PageTable, ustackTop: nat, newPageVa: nat) returns (r: Outcome<()>)
    requires pt.Valid() && ustackTop % 4096 == 0 && newPageVa % 4096 == 0 && 0 < newPageVa < ustackTop <= VA_MAX
    modifies pt, pt.pm, pt.pm.kern, pt.pm.user
    ensures r.Panicked? ==> var n := Page(ustackTop) - Page(newPageVa);
      |old(pt.pm.user.chain)| < n || |old(pt.pm.kern.chain)| < 2 * n
    ensures r.Returned? ==>
      Grown(pt, old(Snap(pt)), Pages(Page(newPageVa), Page(ustackTop)), Page(ustackTop) - Page(newPageVa), RWU)
  {
    if newPageVa < ustackTop - PGSIZE {
      r := MapDown(pt, ustackTop, newPageVa, RWU);
    } else {
      GrownNone(pt, RWU);
      PagesBelow(Page(newPageVa), Page(newPageVa) + 1);
      r := MapFresh(pt, newPageVa, RWU, Snap(pt), {}, 0);
    }
  }

  /** Since the snapshot, the given pages were unmapped and their frames freed; of the
      pages still owned only tables of this page table were written. */
  ghost predicate Shrunk(pt: PageTable, base: Snapshot, pages: set<nat>)
    reads pt, pt.pm, pt.pm.kern, pt.pm.user
  {
    forall k {:trigger Opened(Closed.Unmapping, k)} :: Sealed(Closed.Unmapping, k) ==>
    && pt.Valid()
    && Dropped(base.flat, base.uowned, pt.flat, pt.pm.user.owned, pages)
    && FramesOk(pt.flat, pt.pm.user.owned)
    && Steady(base.mem, base.kothers + pt.pm.user.owned, pt.pm.mem)
    && pt.pm.kern.owned - pt.tables == base.kothers
  }

  lemma ShrunkNone(pt: PageTable)
    requires pt.Valid() && FramesOk(pt.flat, pt.pm.user.owned)
    ensures Shrunk(pt, Snap(pt), {})
  {
    assert Steady(pt.pm.mem, Snap(pt).kothers + pt.pm.user.owned, pt.pm.mem);
    DroppedNone(pt.flat, pt.pm.user.owned);
  }

  /** vm_unmappages with freeit on pages below the trapframe cannot panic: their frames
      are distinct pages of the user region. */
  lemma UserFreeable(pm: Pmem, flat: map<nat, nat>, pages: set<nat>)
    requires pm.Valid() && FramesOk(flat, pm.user.owned)
    requires forall v :: v in pages && v in flat ==> v < TF_PAGE
    ensures Freeable(flat, pages, pm.user, pm.user.owned) && !Rejected(flat, pages, pm.user)
  {
    assert Opened(Closed.Agreement, 0);
    forall v | v in flat && v in pages
      ensures pm.user.InRange(PteToPa(flat[v]))
    {
      pm.OwnedUserPages(PteToPa(flat[v]));
    }
  }

  lemma ShrunkStep(base: Snapshot, flat: map<nat, nat>, u1: set<nat>, m1: Memory, pages: set<nat>, more: set<nat>,
                   flat': map<nat, nat>, u2: set<nat>, m2: Memory, kowned: set<nat>, tables: set<nat>)
    requires Dropped(base.flat, base.uowned, flat, u1, pages) && FramesOk(flat, u1)
    requires Steady(base.mem, base.kothers + u1, m1) && kowned - tables == base.kothers && kowned !! u1
    requires tables <= kowned
    requires flat' == flat - more && u2 == u1 - FramesOf(flat, more) && SlotsOnly(m1, m2, kowned + u2, tables)
    requires forall v :: v in more && v in flat ==> v < TF_PAGE
    ensures Dropped(base.flat, base.uowned, flat', u2, pages + more) && FramesOk(flat', u2)
    ensures Steady(base.mem, base.kothers + u2, m2)
  {
    DroppedJoin(base.flat, base.uowned, flat, u1, flat', u2, pages, more);
    DroppedFrames(flat, u1, flat', u2, more);
    assert Opened(Closed.Growth, 0);
  }

  /** vm_unmappages with freeit on a range of the size of whole pages below the trapframe: it
      halts exactly on an unaligned address or an empty range. */
  method TryRelease(pt: PageTable, va: nat, len: nat, ghost base: Snapshot, ghost pages: set<nat>)
    returns (r: Outcome<()>)
    requires Shrunk(pt, base, pages) && len % 4096 == 0 && va + len <= VA_MAX
    requires forall v :: v in pt.flat && Between(Page(va), v, Page(va) + len / 4096) ==> v < TF_PAGE
    modifies pt`flat, pt.pm, pt.pm.user
    ensures r.Panicked? <==> va % 4096 != 0 || len == 0
    ensures r.Returned? ==> Shrunk(pt, base, pages + Pages(Page(va), Page(va) + len / 4096))
  {
    var pm := pt.pm;
    assert Opened(Closed.Unmapping, 0);
    ghost var m1, u1, f1, more := pm.mem, pm.user.owned, pt.flat, Pages(Page(va), Page(va) + len / 4096);
    assert SpanCount(va, len) == len / 4096;
    assert PageTable.Span(va, len) == more;
    assert forall v :: v in more ==> Between(Page(va), v, Page(va) + len / 4096);
    UserFreeable(pm, f1, more);
    r := pt.UnmapPages(va, len, true);
    if r.Returned? {
      ShrunkStep(base, f1, u1, m1, pages, more, pt.flat, pm.user.owned, pm.mem, pm.kern.owned, pt.tables);
    }
  }

  /** Unmap and free the pages of len bytes from va on, as heap shrinking, munmap and destroy do. */
  method Release(pt: PageTable, va: nat, len: nat, ghost base: Snapshot, ghost pages: set<nat>)
    requires Shrunk(pt, base, pages)
    requires va % 4096 == 0 && len % 4096 == 0 && len > 0 && va + len <= VA_MAX
    requires forall v :: v in pt.flat && Between(Page(va), v, Page(va) + len / 4096) ==> v < TF_PAGE
    modifies pt`flat, pt.pm, pt.pm.user
    ensures Shrunk(pt, base, pages + Pages(Page(va), Page(va) + len / 4096))
  {
    var _ := TryRelease(pt, va, len, base, pages);
  }

  /** uvm.c:124-126 */
  method ReleaseDown(pt: PageTable, newTopPg: nat, oldTopPg: nat)
    requires pt.Valid() && FramesOk(pt.flat, pt.pm.user.owned)
    requires newTopPg % 4096 == 0 && oldTopPg % 4096 == 0 && newTopPg <= oldTopPg <= TRAPFRAME
    modifies pt`flat, pt.pm, pt.pm.user
    ensures Shrunk(pt, old(Snap(pt)), Pages(Page(newTopPg), Page(oldTopPg)))
  {
    ghost var base := Snap(pt);
    ShrunkNone(pt);
    if newTopPg < oldTopPg {
      Release(pt, newTopPg, oldTopPg - newTopPg, base, {});
      assert {} + Pages(Page(newTopPg), Page(newTopPg) + (oldTopPg - newTopPg) / 4096) ==
        Pages(Page(newTopPg), Page(oldTopPg));
    } else {
      PagesNext(Page(oldTopPg), Page(oldTopPg));
    }
  }

  class Proc {
    const pm: Pmem
    const pool: MmapPool
    var pt: PageTable                   // p->pgtbl
    var heapTop: nat
    var ustackNpage: nat
    var mmap: MmapRegion?
    ghost var list: seq<MmapRegion>     // the nodes from mmap on
    ghost var regs: seq<Region>         // the regions they describe
    ghost var fixed: set<nat>           // pages mapped for good: code, trapframe, trampoline

    ghost predicate ListOk()
      reads this, pool, list
    {
      && mmap == First(list, null)
      && Seg(list, regs, null)
      && Members(pool.nodes, pool.free, list)
    }

    ghost predicate TableOk()
      reads this, pt, pm, pm.kern, pm.user
    {
      pt.pm == pm && pt.Valid()
    }

    /** All structures are well formed; the invariant that ties them together is Inv(View()). */
    ghost predicate Valid()
      reads this, pt, pm, pm.kern, pm.user, pool, pool.nodes, pool.free, list
    {
      TableOk() && pool.Valid() && ListOk()
    }

    /** The table and the node store are well formed, and following the links from the head
        meets the regions of the list. */
    ghost predicate Standing()
      reads this, pt, pm, pm.kern, pm.user, pool, pool.nodes, pool.free, list
    {
      TableOk() && pool.Valid() && mmap == First(list, null) && Seg(list, regs, null)
    }

    /** A node on the list is free. */
    ghost predicate Dangling()
      reads this, pool
    {
      exists i :: 0 <= i < |list| && list[i] in pool.free
    }

    /** Then the list is not one of the process's own nodes. */
    lemma DanglingBreaks()
      requires Dangling()
      ensures !ListOk() && !Valid()
    {
      assert Members(pool.nodes, pool.free, list) ==> !Dangling() by {
        assert Opened(Closed.Roster, 0);
      }
    }

    ghost function View(): Space
      reads this, pt, pm, pm.kern, pm.user, pool
    {
      Space(regs, heapTop, ustackNpage, pt.flat, pm.user.owned, |pool.free|, pm.kern.owned - pt.tables, fixed)
    }

    /** Nothing that belongs to anybody else has been written since memory was mem. */
    ghost predicate OthersKept(mem: Memory)
      reads this, pt, pm, pm.kern, pm.user
    {
      Steady(mem, (pm.kern.owned - pt.tables) + (pm.user.owned - OwnFrames(pt.flat)), pm.mem)
    }

    /** Every page owned before and after, tables of this process apart, holds what it held. */
    ghost predicate Kept(mem: Memory, uowned: set<nat>)
      reads this, pt, pm, pm.kern, pm.user
    {
      Steady(mem, (pm.kern.owned - pt.tables) + (uowned * pm.user.owned), pm.mem)
    }

    constructor (pm: Pmem, pool: MmapPool, pt: PageTable)
      requires pt.pm == pm && pt.Valid() && pool.Valid()
      ensures this.pm == pm && this.pool == pool && this.pt == pt && Valid()
      ensures mmap == null && list == [] && regs == [] && heapTop == UHEAP_START && ustackNpage == 0 && fixed == {}
    {
      this.pm, this.pool, this.pt := pm, pool, pt;
      heapTop, ustackNpage, mmap := UHEAP_START, 0, null;
      list, regs, fixed := [], [], {};
      new;
      assert SegNodes(list, regs, null) && DistinctNodes(list);
    }

    // ---------- heap ----------

    /** uvm_heap_grow (uvm.c:84-116) */
    method HeapGrow(newTop: nat) returns (r: Outcome<int>)
      requires Valid() && newTop < TWO64 && heapTop < TWO64
      modifies this`heapTop, pt, pm, pm.kern, pm.user
      ensures r.Panicked? ==> var n := Page(PgRoundUp(newTop)) - Page(PgRoundUp(old(heapTop)));
        PgRoundUp(newTop) <= MMAP_BEGIN && (|old(pm.user.chain)| < n || |old(pm.kern.chain)| < 2 * n)
      ensures r.Returned? ==> Valid() && Calls.HeapGrow(old(View()), newTop, View(), r.value)
      ensures r.Returned? ==> Kept(old(pm.mem), old(pm.user.owned)) && NewZeroed(old(pt.flat), pm.mem, pt.flat)
    {
      var oldTopPg, newTopPg := PgRoundUp(heapTop), PgRoundUp(newTop);
      SteadyRefl(pm.mem, (pm.kern.owned - pt.tables) + (pm.user.owned * pm.user.owned));
      NewZeroedNone(pt.flat, pm.mem, pt.flat);
      if newTopPg <= oldTopPg {
        heapTop := newTop;
        return Returned(0);
      }
      if newTopPg > MMAP_BEGIN {
        return Returned(-1);
      }
      var _ :- MapUp(pt, oldTopPg, newTopPg, RWU);
      assert Opened(Closed.Mapping, 0);
      SteadyLess(old(pm.mem), old(pm.kern.owned - pt.tables) + old(pm.user.owned), pm.mem,
                 (pm.kern.owned - pt.tables) + (old(pm.user.owned) * pm.user.owned));
      NewZeroedIs(old(pt.flat), old(pm.user.owned), pm.mem, pt.flat, pm.user.owned,
                  Pages(Page(oldTopPg), Page(newTopPg)), RWU);
      heapTop := newTop;
      return Returned(0);
    }

    /** uvm_heap_ungrow (uvm.c:118-130) */
    method HeapUngrow(newTop: nat)
      requires Valid() && Inv(View()) && newTop < heapTop
      modifies this`heapTop, pt`flat, pm, pm.user
      ensures Valid() && HeapShrink(old(View()), newTop, View())
      ensures Kept(old(pm.mem), old(pm.user.owned))
    {
      var oldTopPg, newTopPg := PgRoundUp(heapTop), PgRoundUp(newTop);
      ghost var base := Snap(pt);
      ReleaseDown(pt, newTopPg, oldTopPg);
      assert Opened(Closed.Unmapping, 0);
      SteadyLess(old(pm.mem), old(pm.kern.owned - pt.tables) + pm.user.owned, pm.mem,
                 (pm.kern.owned - pt.tables) + (old(pm.user.owned) * pm.user.owned));
      heapTop := newTop;
    }

    // ---------- stack ----------

    /** uvm_ustack_grow (uvm.c:137-181) */
    method UstackGrow(faultVa: nat) returns (r: Outcome<int>)
      requires Valid() && Inv(View())
      modifies this`ustackNpage, pt, pm, pm.kern, pm.user
      ensures r.Panicked? ==> var n := TF_PAGE - old(ustackNpage) - Page(faultVa);
        |old(pm.user.chain)| < n || |old(pm.kern.chain)| < 2 * n
      ensures r.Returned? ==> Valid() && Fault(old(View()), faultVa, View(), r.value)
      ensures r.Returned? ==> Kept(old(pm.mem), old(pm.user.owned)) && NewZeroed(old(pt.flat), pm.mem, pt.flat)
    {
      var ustackTop := VA_MAX - (ustackNpage + 2) * 4096;
      SteadyRefl(pm.mem, (pm.kern.owned - pt.tables) + (pm.user.owned * pm.user.owned));
      NewZeroedNone(pt.flat, pm.mem, pt.flat);
      if faultVa >= ustackTop || faultVa < MMAP_END {
        return Returned(-1);
      }
      var newPageVa := PgRoundDown(faultVa);
      var _ :- MapStack(pt, ustackTop, newPageVa);
      assert Opened(Closed.Mapping, 0);
      SteadyLess(old(pm.mem), old(pm.kern.owned - pt.tables) + old(pm.user.owned), pm.mem,
                 (pm.kern.owned - pt.tables) + (old(pm.user.owned) * pm.user.owned));
      NewZeroedIs(old(pt.flat), old(pm.user.owned), pm.mem, pt.flat, pm.user.owned,
                  Pages(Page(newPageVa), Page(ustackTop)), RWU);
      ustackNpage := (VA_MAX - 2 * PGSIZE - newPageVa) / 4096;
      return Returned(0);
    }
  }

  /** Two processes of one kernel that share no table, no user frame and no region node. */
  ghost predicate Apart(p: Proc, q: Proc)
    reads p, q, p.pt, q.pt
  {
    && p != q && p.pt != q.pt && p.pm == q.pm && p.pool == q.pool
    && p.pt.tables !! q.pt.tables && OwnFrames(p.pt.flat) !! OwnFrames(q.pt.flat)
    && ListsApart(p.list, q.list)
    && KeepsOff(p.pt.flat, q.pt.tables) && KeepsOff(q.pt.flat, p.pt.tables)
  }

  /** The trapframe is none of these pages. */
  ghost predicate KeepsOff(flat: map<nat, nat>, tables: set<nat>) {
    TF_PAGE in flat ==> PteToPa(flat[TF_PAGE]) !in tables
  }
}
