/** From the first process's first instruction to its teardown. */
module Lifecycle {
  import opened Layout
  import opened Outcomes
  import opened PhysMem
  import opened RegionPool
  import opened RegionList
  import opened Spaces
  import opened Uvm
  import opened SysCalls
  import opened Runs
  import opened Kernel
  import opened Teardown

  /** The machine before the first process is made: the trampoline, the user and kernel pages
      handed out, and the free region nodes. */
  datatype Born = Born(trampoline: nat, uowned: set<nat>, kowned: set<nat>, free: seq<MmapRegion>)

  ghost predicate First(s: Space, b: Born) {
    FirstSpace(s, b.trampoline, b.uowned, b.kowned, |b.free|)
  }

  /** At any point of a run from the first process's initial state, what tearing it down gives
      back is everything that was free before it was built, but for the trapframe page, which is
      still the one it was given; and as written the teardown would panic. */
  lemma RunFromFirst(version: Version, ss: seq<Space>, es: seq<Event>, b: Born)
    requires Run(version, ss, es) && First(ss[0], b) && SaneUpTo(version, ss, es, |es|)
    ensures var s := ss[|es|];
      && Inv(s)
      && OtherFrames(s) == b.uowned
      && s.kothers == b.kowned + {Trapframe(s)} && Trapframe(s) == Trapframe(ss[0]) && Trapframe(s) !in b.kowned
      && |s.regs| + s.nodes == |b.free|
      && TF_PAGE in s.flat
  {
    RunExact(version, ss, es, |es|);
    var s := ss[|es|];
    assert SameElsewhere(ss[0], s) && Inv(s);
    assert TF_PAGE in ss[0].fixed;
  }

  /** The events of a run so far are the first of these calls. */
  predicate Begins(es: seq<Event>, calls: seq<Call>) {
    |es| <= |calls| && forall i :: 0 <= i < |es| ==> es[i].call == calls[i]
  }

  /** Every call is sane in every state that the calls before it can lead to. */
  ghost predicate SaneScript(version: Version, calls: seq<Call>, b: Born) {
    forall ss, es :: Run(version, ss, es) && Begins(es, calls) && |es| < |calls| && First(ss[0], b)
                     ==> Sane(version, ss[|es|], calls[|es|])
  }

  /** One more event. */
  lemma RunMore(version: Version, ss: seq<Space>, es: seq<Event>, e: Event, t: Space, calls: seq<Call>)
    requires Run(version, ss, es) && Step(version, ss[|es|], e, t) && SaneUpTo(version, ss, es, |es|)
    requires Sane(version, ss[|es|], e.call)
    requires Begins(es, calls) && |es| < |calls| && e.call == calls[|es|]
    ensures Run(version, ss + [t], es + [e]) && SaneUpTo(version, ss + [t], es + [e], |es| + 1)
    ensures Begins(es + [e], calls)
  {
    var ss', es' := ss + [t], es + [e];
    forall i | 0 <= i < |es'|
      ensures Step(version, ss'[i], es'[i], ss'[i + 1]) && Sane(version, ss'[i], es'[i].call)
    {
      if i < |es| {
        assert Step(version, ss[i], es[i], ss[i + 1]) && Sane(version, ss[i], es[i].call);
      }
    }
  }

  /** Everything is as it was before the process was made, but for the trapframe page. */
  ghost predicate AllBack(pm: Pmem, pool: MmapPool, b: Born, trapframe: nat)
    reads pm, pm.kern, pm.user, pool, pool.nodes, pool.free
  {
    && pm.Valid() && pool.Valid()
    && pm.user.owned == b.uowned && pm.kern.owned == b.kowned + {trapframe} && trapframe !in b.kowned
    && |pool.free| == |b.free| && SameNodes(pool.free, [], b.free, [])
  }

  /** The process has come through the run ss, es from a first space, made of the first calls. */
  ghost predicate Come(version: Version, s: Space, ss: seq<Space>, es: seq<Event>, calls: seq<Call>) {
    forall k {:trigger Opened(Closed.Passing, k)} :: Sealed(Closed.Passing, k) ==>
      Run(version, ss, es) && SaneUpTo(version, ss, es, |es|) && Begins(es, calls) && ss[|es|] == s
  }

  lemma ComeMore(version: Version, s: Space, ss: seq<Space>, es: seq<Event>, calls: seq<Call>, e: Event, t: Space)
    requires Come(version, s, ss, es, calls) && |es| < |calls| && e.call == calls[|es|] && Step(version, s, e, t)
    requires Sane(version, s, e.call)
    ensures Come(version, t, ss + [t], es + [e], calls)
  {
    assert Opened(Closed.Passing, 0);
    RunMore(version, ss, es, e, t, calls);
    assert Run(version, ss + [t], es + [e]) && SaneUpTo(version, ss + [t], es + [e], |es + [e]|)
      && Begins(es + [e], calls);
  }

  lemma NextSane(version: Version, s: Space, ss: seq<Space>, es: seq<Event>, calls: seq<Call>, b: Born)
    requires Come(version, s, ss, es, calls) && |es| < |calls| && ss != [] && First(ss[0], b)
    requires SaneScript(version, calls, b)
    ensures Sane(version, s, calls[|es|])
  {
    assert Opened(Closed.Passing, 0);
  }

  /** The moment at which a call has halted the kernel: the run so far, the state it has led to,
      and the free pages and owned kernel pages then. */
  datatype Moment = Moment(s: Space, ss: seq<Space>, es: seq<Event>, ufree: nat, kfree: nat, kowned: set<nat>)

  /** The next call is one that may halt there; users and kerns number the pages of the regions. */
  ghost predicate HaltedAt(version: Version, calls: seq<Call>, first: Space, m: Moment, users: nat, kerns: nat) {
    && |m.es| < |calls| && m.ss != [] && m.ss[0] == first && Come(version, m.s, m.ss, m.es, calls)
    && MayHalt(m.s, calls[|m.es|], m.ufree, m.kfree)
    && m.ufree + |m.s.uowned| == users && m.kfree + |m.kowned| == kerns && m.s.kothers <= m.kowned
  }

  /** The pages of a region are free or handed out. */
  lemma RegionCount(pm: Pmem)
    requires pm.Valid()
    ensures |pm.user.chain| + |pm.user.owned| == |Frames(pm.user.begin, pm.user.end)|
    ensures |pm.kern.chain| + |pm.kern.owned| == |Frames(pm.kern.begin, pm.kern.end)|
  {
    assert Opened(Closed.FreeLists, 0);
    CountFree(Frames(pm.user.begin, pm.user.end), pm.user.chain, pm.user.owned);
    CountFree(Frames(pm.kern.begin, pm.kern.end), pm.kern.chain, pm.kern.owned);
  }

  ghost function Now(p: Proc, ss: seq<Space>, es: seq<Event>): Moment
    reads p, p.pt, p.pm, p.pm.kern, p.pm.user, p.pool
  {
    Moment(p.View(), ss, es, |p.pm.user.chain|, |p.pm.kern.chain|, p.pm.kern.owned)
  }

  /** The process serves the calls. */
  method ServeAll(p: Proc, calls: seq<Call>, version: Version, ghost b: Born) returns (r: Outcome<()>, ghost m: Moment)
    requires p.Valid() && First(p.View(), b) && p.list == [] && p.pool.free == b.free
    requires forall i :: 0 <= i < |calls| ==> Admissible(calls[i])
    requires SaneScript(version, calls, b)
    modifies p`mmap, p`list, p`regs, p`heapTop, p`ustackNpage, p.pool, p.pool.free, p.list, p.pt, p.pm, p.pm.kern,
             p.pm.user
    ensures r.Panicked? ==>
      HaltedAt(version, calls, old(p.View()), m,
               |Frames(p.pm.user.begin, p.pm.user.end)|, |Frames(p.pm.kern.begin, p.pm.kern.end)|)
    ensures r.Returned? ==>
      && p.Valid() && Inv(p.View()) && SameNodes(p.pool.free, p.list, b.free, [])
      && |m.es| == |calls| && m.ss != [] && m.ss[0] == old(p.View()) && Come(version, p.View(), m.ss, m.es, calls)
  {
    ghost var ss, es := [p.View()], [];
    assert Run(version, ss, es) && SaneUpTo(version, ss, es, |es|) && Begins(es, calls);
    SameRefl(b.free, []);
    var i := 0;
    while i < |calls|
      invariant 0 <= i == |es| <= |calls| && p.Valid() && Inv(p.View()) && SameNodes(p.pool.free, p.list, b.free, [])
      invariant ss != [] && ss[0] == old(p.View()) && Come(version, p.View(), ss, es, calls)
    {
      ghost var s, free1, list1 := p.View(), p.pool.free, p.list;
      m := Now(p, ss, es);
      RegionCount(p.pm);
      SameReach(free1, list1, b.free, []);
      NextSane(version, s, ss, es, calls, b);
      var ret := Serve(p, calls[i], version);
      if ret.Panicked? {
        return Panicked, m;
      }
      SameTrans(p.pool.free, p.list, free1, list1, b.free, []);
      ComeMore(version, s, ss, es, calls, Event(calls[i], ret.value), p.View());
      ss, es := ss + [p.View()], es + [Event(calls[i], ret.value)];
      i := i + 1;
    }
    return Returned(()), Now(p, ss, es);
  }

  /** The whole life of the first process: made, served any calls that are sane when their turn
      comes, and torn down. With the repaired teardown every frame, table and node is back, and
      the kernel halts only if there were too few pages to make the process or at a call that
      may halt it. As written the kernel never gets to the end of it. */
  method WholeLife(pm: Pmem, pool: MmapPool, trampoline: nat, calls: seq<Call>, version: Version, teardown: Version)
    returns (r: Outcome<()>, ghost first: Space, ghost m: Moment)
    requires pm.Valid() && pool.Valid() && IsPageBase(trampoline)
    requires forall i :: 0 <= i < |calls| ==> Admissible(calls[i])
    requires SaneScript(version, calls, Born(trampoline, pm.user.owned, pm.kern.owned, pool.free))
    modifies pm, pm.kern, pm.user, pool, pool.free
    ensures var b := Born(trampoline, old(pm.user.owned), old(pm.kern.owned), old(pool.free));
      && (teardown.AsWritten? ==> r.Panicked?)
      && (r.Returned? ==> First(first, b) && AllBack(pm, pool, b, Trapframe(first)))
      && (r.Panicked? && teardown.Repaired? ==>
            || |old(pm.kern.chain)| < 10 || |old(pm.user.chain)| < 2
            || (First(first, b)
                && HaltedAt(version, calls, first, m, |Frames(pm.user.begin, pm.user.end)|,
                            |Frames(pm.kern.begin, pm.kern.end)|)))
  {
    ghost var b := Born(trampoline, pm.user.owned, pm.kern.owned, pool.free);
    first := Space([], 0, 0, map[], {}, 0, {}, {});
    m := Moment(first, [], [], 0, 0, {});
    var made := MakeFirst(pm, pool, trampoline);
    if made.Panicked? {
      return Panicked, first, m;
    }
    first := made.value.View();
    assert made.value.list == [];
    r, m := LiveOn(made.value, calls, version, teardown, b);
  }

  /** The life of the first process from its first call on. */
  method LiveOn(p: Proc, calls: seq<Call>, version: Version, teardown: Version, ghost b: Born)
    returns (r: Outcome<()>, ghost m: Moment)
    requires p.Valid() && First(p.View(), b) && p.list == [] && p.pool.free == b.free
    requires forall i :: 0 <= i < |calls| ==> Admissible(calls[i])
    requires SaneScript(version, calls, b)
    modifies p, p.pool, p.pool.free, p.pt, p.pm, p.pm.kern, p.pm.user
    ensures teardown.AsWritten? ==> r.Panicked?
    ensures r.Returned? ==> AllBack(p.pm, p.pool, b, Trapframe(old(p.View())))
    ensures r.Panicked? && teardown.Repaired? ==>
      HaltedAt(version, calls, old(p.View()), m,
               |Frames(p.pm.user.begin, p.pm.user.end)|, |Frames(p.pm.kern.begin, p.pm.kern.end)|)
  {
    ghost var first := p.View();
    var served;
    served, m := ServeAll(p, calls, version, b);
    if served.Panicked? {
      return Panicked, m;
    }
    ComeFromFirst(version, p.View(), m.ss, m.es, calls, b);
    SameReach(p.pool.free, p.list, b.free, []);
    r := EndLife(p, teardown, b, Trapframe(first));
  }

  lemma ComeFromFirst(version: Version, s: Space, ss: seq<Space>, es: seq<Event>, calls: seq<Call>, b: Born)
    requires Come(version, s, ss, es, calls) && ss != [] && First(ss[0], b)
    ensures OtherFrames(s) == b.uowned && TF_PAGE in s.flat && |s.regs| + s.nodes == |b.free|
    ensures s.kothers == b.kowned + {Trapframe(ss[0])} && Trapframe(ss[0]) !in b.kowned
  {
    assert Opened(Closed.Passing, 0);
    RunFromFirst(version, ss, es, b);
  }

  /** The teardown at the end. */
  method EndLife(p: Proc, teardown: Version, ghost b: Born, ghost trapframe: nat) returns (r: Outcome<()>)
    requires p.Valid() && Inv(p.View()) && TF_PAGE in p.pt.flat && OtherFrames(p.View()) == b.uowned
    requires p.View().kothers == b.kowned + {trapframe} && trapframe !in b.kowned
    requires |p.regs| + |p.pool.free| == |b.free| && SameNodes(p.pool.free, p.list, b.free, [])
    modifies p`mmap, p`list, p`regs, p`heapTop, p`ustackNpage, p.pt`flat, p.pm, p.pm.kern, p.pm.user, p.pool,
             p.list`freeNext
    ensures teardown.AsWritten? ==> r.Panicked?
    ensures teardown.Repaired? ==> r.Returned?
    ensures r.Returned? ==> AllBack(p.pm, p.pool, b, trapframe)
  {
    ghost var free, list := p.pool.free, p.list;
    r := DestroyPgtbl(p, teardown);
    if r.Returned? {
      SameTrans(p.pool.free, [], free, list, b.free, []);
    }
  }
}
