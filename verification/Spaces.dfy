/** A process's address space as a value, the invariant that ties its heap, mmap list and
    stack to its translations and frames, and what each system call does to it. */
module Spaces {
  import opened Layout
  import opened Outcomes
  import opened Regions
  import opened Kvm

  /** The part of a kernel state that one process's memory calls read or change. */
  datatype Space = Space(
    regs: seq<Region>,          // the mmap list
    heapTop: nat,
    ustack: nat,                // stack pages
    flat: map<nat, nat>,        // translations: page number -> leaf entry
    uowned: set<nat>,           // user frames handed out, to this process or to others
    nodes: nat,                 // free region nodes
    kothers: set<nat>,          // kernel frames that are not tables of this process
    fixed: set<nat>)            // pages mapped once and for all: code, trapframe, trampoline

  const CODE_PAGE := 1
  const HEAP_PAGE := 2
  const RWU := PTE_R + PTE_W + PTE_U

  function HeapEnd(s: Space): nat { PgRoundUp(s.heapTop) / 4096 }

  predicate IsHeap(s: Space, v: nat) { HEAP_PAGE <= v < HeapEnd(s) }

  predicate IsStack(s: Space, v: nat) { TF_PAGE - s.ustack <= v < TF_PAGE }

  predicate IsMmap(regs: seq<Region>, v: nat) { Covers(regs, v * 4096) }

  /** The pages a process should have mapped. */
  predicate Wanted(s: Space, v: nat) {
    v in s.fixed || IsHeap(s, v) || IsMmap(s.regs, v) || IsStack(s, v)
  }

  /** Frames behind the pages below the trapframe: those the process owns. */
  ghost function OwnFrames(flat: map<nat, nat>): set<nat> {
    FramesOf(flat, Pages(0, TF_PAGE))
  }

  /** Frames handed out to somebody else. */
  ghost function OtherFrames(s: Space): set<nat> {
    s.uowned - OwnFrames(s.flat)
  }

  /** Bounds that keep code, heap, mmap area and stack in order and apart. */
  predicate Ordered(s: Space) {
    && USER_BASE < s.heapTop <= TWO64 - PGSIZE
    && PgRoundUp(s.heapTop) <= MMAP_BEGIN
    && 1 <= s.ustack <= 4096
    && Canonical(s.regs)
    && s.fixed <= {CODE_PAGE, TF_PAGE, TRAMP_PAGE}
  }

  /** Exactly the wanted pages are mapped. */
  ghost predicate DomainOk(s: Space) {
    forall k {:trigger Opened(Closed.Agreement, k)} :: Sealed(Closed.Agreement, k) ==>
      forall v :: v in s.flat <==> Wanted(s, v)
  }

  /** Distinct user pages have distinct frames, all of them handed out, hence none free. */
  ghost predicate FramesOk(flat: map<nat, nat>, uowned: set<nat>) {
    forall k {:trigger Opened(Closed.Agreement, k)} :: Sealed(Closed.Agreement, k) ==>
      && (forall v :: v in flat && v < TF_PAGE ==> PteToPa(flat[v]) in uowned)
      && forall v: nat, w: nat {:trigger Differ(v, w)} ::
           Differ(v, w) && v in flat && w in flat && v < TF_PAGE && w < TF_PAGE ==> PteToPa(flat[v]) != PteToPa(flat[w])
  }

  /** Heap and stack pages are user read-write, mmap pages user accessible. */
  ghost predicate FlagsOk(s: Space) {
    forall k {:trigger Opened(Closed.Agreement, k)} :: Sealed(Closed.Agreement, k) ==>
      && (forall v :: v in s.flat && (IsHeap(s, v) || IsStack(s, v)) ==> PteFlags(s.flat[v]) == RWU + PTE_V)
      && forall v :: v in s.flat && IsMmap(s.regs, v) ==> HasU(PteFlags(s.flat[v]))
  }

  /** All mmap pages have these flags. */
  ghost predicate MmapFlags(s: Space, flags: nat) {
    forall k {:trigger Opened(Closed.Agreement, k)} :: Sealed(Closed.Agreement, k) ==>
      forall v :: v in s.flat && IsMmap(s.regs, v) ==> PteFlags(s.flat[v]) == flags
  }

  /** The trapframe is a kernel page, and a user may use neither it nor the trampoline. */
  ghost predicate TrapframeOk(flat: map<nat, nat>, kothers: set<nat>) {
    && (TF_PAGE in flat ==> PteToPa(flat[TF_PAGE]) in kothers && !HasU(flat[TF_PAGE]))
    && (TRAMP_PAGE in flat ==> !HasU(flat[TRAMP_PAGE]))
  }

  /** The invariant of every reachable address space. */
  ghost predicate Inv(s: Space) {
    Ordered(s) && DomainOk(s) && FramesOk(s.flat, s.uowned) && FlagsOk(s) && TrapframeOk(s.flat, s.kothers)
  }

  // ---------- frames and translations added page by page ----------

  /** Exactly the given pages have been backed, by fresh frames and with the given flags. */
  ghost predicate Backed(flat: map<nat, nat>, uowned: set<nat>, flat': map<nat, nat>, uowned': set<nat>,
                         pages: set<nat>, perm: nat) {
    forall k {:trigger Opened(Closed.Backing, k)} :: Sealed(Closed.Backing, k) ==>
      Backs(flat, uowned, flat', uowned', pages, perm)
  }

  ghost predicate Backs(flat: map<nat, nat>, uowned: set<nat>, flat': map<nat, nat>, uowned': set<nat>,
                        pages: set<nat>, perm: nat) {
      && flat'.Keys == flat.Keys + pages
      && (forall v :: v in flat && v !in pages ==> flat'[v] == flat[v])
      && (forall v :: v in pages ==> PteFlags(flat'[v]) == OrFlag(perm, PTE_V) && PteToPa(flat'[v]) !in uowned)
      && (forall v, w {:trigger Differ(v, w)} :: Differ(v, w) && v in pages && w in pages ==>
          PteToPa(flat'[v]) != PteToPa(flat'[w]))
      && uowned' == uowned + FramesOf(flat', pages)
  }

  lemma BackedNone(flat: map<nat, nat>, uowned: set<nat>, perm: nat)
    ensures Backed(flat, uowned, flat, uowned, {}, perm)
  {
    assert FramesOf(flat, {}) == {};
    assert Backs(flat, uowned, flat, uowned, {}, perm);
  }

  lemma BackedOne(flat: map<nat, nat>, uowned: set<nat>, v: nat, pa: nat, perm: nat)
    requires pa !in uowned && IsPageBase(pa) && perm < 1024
    ensures Backed(flat, uowned, flat[v := MakePte(pa, perm)], uowned + {pa}, {v}, perm)
  {
    PteRoundTrip(pa, perm);
    var flat' := flat[v := MakePte(pa, perm)];
    assert v in flat' && PteToPa(flat'[v]) == pa;
    assert FramesOf(flat', {v}) == {pa};
    assert Backs(flat, uowned, flat', uowned + {pa}, {v}, perm);
  }

  lemma BackedGrows(flat: map<nat, nat>, uowned: set<nat>, flat': map<nat, nat>, uowned': set<nat>, pages: set<nat>,
                    perm: nat)
    requires Backed(flat, uowned, flat', uowned', pages, perm)
    ensures uowned <= uowned'
  {
    assert Opened(Closed.Backing, 0);
  }

  /** Backing some pages and then some others backs them all. */
  lemma BackedJoin(f0: map<nat, nat>, u0: set<nat>, f1: map<nat, nat>, u1: set<nat>, f2: map<nat, nat>, u2: set<nat>,
                   ps: set<nat>, qs: set<nat>, perm: nat)
    requires Backed(f0, u0, f1, u1, ps, perm) && Backed(f1, u1, f2, u2, qs, perm) && ps !! qs
    ensures Backed(f0, u0, f2, u2, ps + qs, perm)
  {
    assert Opened(Closed.Backing, 0);
    forall v, w | v in ps && w in qs
      ensures PteToPa(f2[v]) != PteToPa(f2[w])
    {
      assert f2[v] == f1[v] && PteToPa(f1[v]) in FramesOf(f1, ps);
    }
    assert FramesOf(f2, ps + qs) == FramesOf(f1, ps) + FramesOf(f2, qs) by {
      assert forall v :: v in ps ==> f2[v] == f1[v];
    }
    assert Backs(f0, u0, f2, u2, ps + qs, perm);
  }

  /** Exactly the given pages have been unmapped and their frames given back. */
  ghost predicate Dropped(flat: map<nat, nat>, uowned: set<nat>, flat': map<nat, nat>, uowned': set<nat>,
                          pages: set<nat>) {
    flat' == flat - pages && uowned' == uowned - FramesOf(flat, pages)
  }

  lemma DroppedNone(flat: map<nat, nat>, uowned: set<nat>)
    ensures Dropped(flat, uowned, flat, uowned, {})
  {
    assert FramesOf(flat, {}) == {};
    assert flat - {} == flat;
  }

  lemma DroppedJoin(f0: map<nat, nat>, u0: set<nat>, f1: map<nat, nat>, u1: set<nat>, f2: map<nat, nat>, u2: set<nat>,
                    ps: set<nat>, qs: set<nat>)
    requires Dropped(f0, u0, f1, u1, ps) && Dropped(f1, u1, f2, u2, qs)
    ensures Dropped(f0, u0, f2, u2, ps + qs)
  {
    assert f0 - ps - qs == f0 - (ps + qs);
    assert FramesOf(f0, ps + qs) == FramesOf(f0, ps) + FramesOf(f1, qs);
  }

  // ---------- frame ownership under both changes ----------

  lemma BackedFrames(flat: map<nat, nat>, uowned: set<nat>, flat': map<nat, nat>, uowned': set<nat>, pages: set<nat>,
                     perm: nat)
    requires FramesOk(flat, uowned) && Backed(flat, uowned, flat', uowned', pages, perm)
    requires forall v :: v in pages ==> v < TF_PAGE && v !in flat
    ensures FramesOk(flat', uowned')
    ensures uowned' - OwnFrames(flat') == uowned - OwnFrames(flat)
  {
    assert Opened(Closed.Agreement, 0);
    assert Opened(Closed.Backing, 0);
    assert forall v :: v in flat ==> v in flat' && flat'[v] == flat[v];
    assert forall v :: v in pages ==> PteToPa(flat'[v]) in FramesOf(flat', pages);
    assert OwnFrames(flat') == OwnFrames(flat) + FramesOf(flat', pages) by {
      forall v | v in pages
        ensures v in Pages(0, TF_PAGE)
      {
        assert Between(0, v, TF_PAGE);
      }
    }
  }

  lemma DroppedFrames(flat: map<nat, nat>, uowned: set<nat>, flat': map<nat, nat>, uowned': set<nat>, pages: set<nat>)
    requires FramesOk(flat, uowned) && Dropped(flat, uowned, flat', uowned', pages)
    requires forall v :: v in pages && v in flat ==> v < TF_PAGE
    ensures FramesOk(flat', uowned')
    ensures uowned' - OwnFrames(flat') == uowned - OwnFrames(flat)
  {
    assert Opened(Closed.Agreement, 0);
    forall v | v in flat' && v < TF_PAGE
      ensures PteToPa(flat'[v]) in uowned'
    {
      assert forall w :: w in pages && w in flat ==> Differ(v, w);
    }
    assert OwnFrames(flat) == OwnFrames(flat') + FramesOf(flat, pages) by {
      forall v | v in pages && v in flat
        ensures v in Pages(0, TF_PAGE)
      {
        assert Between(0, v, TF_PAGE);
      }
      forall v | v in Pages(0, TF_PAGE) && v in flat
        ensures v in pages || (v in flat' && flat'[v] == flat[v])
      {
      }
    }
  }

  // ---------- the areas do not meet ----------

  lemma MmapBounds(regs: seq<Region>, v: nat)
    requires Canonical(regs) && IsMmap(regs, v)
    ensures MMAP_BEGIN <= v * 4096 < MMAP_END
  {
    var i :| 0 <= i < |regs| && In(regs[i], v * 4096);
    assert Proper(regs[i]);
  }

  lemma AreasApart(s: Space, v: nat)
    requires Ordered(s)
    ensures IsHeap(s, v) ==> CODE_PAGE < v && v * 4096 < MMAP_BEGIN
    ensures IsStack(s, v) ==> MMAP_END <= v * 4096 && v < TF_PAGE
    ensures IsMmap(s.regs, v) ==> !IsHeap(s, v) && !IsStack(s, v) && v !in s.fixed
    ensures IsHeap(s, v) ==> !IsStack(s, v) && v !in s.fixed
    ensures IsStack(s, v) ==> v !in s.fixed
  {
    if IsMmap(s.regs, v) {
      MmapBounds(s.regs, v);
    }
  }

  /** Backing missing pages keeps the invariant when exactly those pages become wanted, and
      takes no frame from anybody else. */
  lemma GainKeeps(s: Space, t: Space, pages: set<nat>, perm: nat)
    requires Inv(s) && Ordered(t) && perm < 1024 && HasU(perm) && t.kothers == s.kothers
    requires Backed(s.flat, s.uowned, t.flat, t.uowned, pages, perm)
    requires forall v :: v in pages ==> v < TF_PAGE && !Wanted(s, v)
    requires forall v: nat :: Wanted(t, v) <==> Wanted(s, v) || v in pages
    requires forall v: nat :: IsHeap(t, v) || IsStack(t, v) ==>
      IsHeap(s, v) || IsStack(s, v) || (v in pages && perm == RWU)
    requires forall v: nat :: IsMmap(t.regs, v) ==> IsMmap(s.regs, v) || v in pages
    ensures Inv(t) && OtherFrames(t) == OtherFrames(s)
  {
    assert forall v :: v in pages ==> v !in s.flat by {
      assert Opened(Closed.Agreement, 0);
    }
    BackedFrames(s.flat, s.uowned, t.flat, t.uowned, pages, perm);
    assert DomainOk(t) by {
      assert Opened(Closed.Agreement, 0);
      assert Opened(Closed.Backing, 0);
    }
    GainFlags(s, t, pages, perm);
    assert TrapframeOk(t.flat, t.kothers) by {
      assert Opened(Closed.Backing, 0);
      assert TF_PAGE !in pages && TRAMP_PAGE !in pages;
    }
  }

  lemma GainFlags(s: Space, t: Space, pages: set<nat>, perm: nat)
    requires DomainOk(s) && FlagsOk(s) && perm < 1024 && HasU(perm)
    requires Backed(s.flat, s.uowned, t.flat, t.uowned, pages, perm)
    requires forall v :: v in pages ==> !Wanted(s, v)
    requires forall v: nat :: IsHeap(t, v) || IsStack(t, v) ==>
      IsHeap(s, v) || IsStack(s, v) || (v in pages && perm == RWU)
    requires forall v: nat :: IsMmap(t.regs, v) ==> IsMmap(s.regs, v) || v in pages
    ensures FlagsOk(t)
  {
    assert Opened(Closed.Agreement, 0);
    assert Opened(Closed.Backing, 0);
    assert HasU(OrFlag(perm, PTE_V));
  }

  /** Dropping pages keeps the invariant when exactly those pages stop being wanted. */
  lemma LossKeeps(s: Space, t: Space, pages: set<nat>)
    requires Inv(s) && Ordered(t) && t.kothers == s.kothers
    requires Dropped(s.flat, s.uowned, t.flat, t.uowned, pages)
    requires forall v :: v in pages && Wanted(s, v) ==> v < TF_PAGE
    requires forall v: nat :: Wanted(t, v) <==> Wanted(s, v) && v !in pages
    requires forall v: nat :: IsHeap(t, v) || IsStack(t, v) ==> IsHeap(s, v) || IsStack(s, v)
    requires forall v: nat :: IsMmap(t.regs, v) ==> IsMmap(s.regs, v)
    ensures Inv(t) && OtherFrames(t) == OtherFrames(s)
  {
    assert forall v :: v in pages && v in s.flat ==> v < TF_PAGE by {
      assert Opened(Closed.Agreement, 0);
    }
    DroppedFrames(s.flat, s.uowned, t.flat, t.uowned, pages);
    assert DomainOk(t) && FlagsOk(t) by {
      assert Opened(Closed.Agreement, 0);
    }
  }
}
