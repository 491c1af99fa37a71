/** Processes come and go: a copy joins the processes that share a kernel, a teardown takes one
    of them away. What the others are does not change, and no region node is lost. */
module Forks {
  import opened Layout
  import opened Outcomes
  import opened PhysMem
  import opened Kvm
  import opened RegionPool
  import opened RegionList
  import opened Spaces
  import opened Uvm
  import opened Processes
  import SysCalls
  import Copying
  import Teardown

  /** The first process (proc_make_first) coexists with nobody, and all nodes are still free. */
  method FirstAlone(pm: Pmem, pool: MmapPool, trampoline: nat) returns (r: Outcome<Proc>)
    requires pm.Valid() && pool.Valid() && IsPageBase(trampoline)
    requires forall n :: n in pool.nodes ==> n in pool.free
    modifies pm, pm.kern, pm.user
    ensures r.Panicked? ==> |old(pm.kern.chain)| < 10 || |old(pm.user.chain)| < 2
    ensures r.Returned? ==> fresh(r.value) && r.value.pool == pool && Coexist([r.value]) && Accounted(pool, [r.value])
  {
    r := SysCalls.MakeFirst(pm, pool, trampoline);
  }

  /** Among several processes of which the i-th is served, or none if i is their number, the
      others stay as they were, in themselves and towards each other. */
  twostate lemma OthersStay(team: Team)
    requires old(Coexist(team.ps)) && OthersStill(team.ps, team.i)
    requires forall j :: 0 <= j < |team.ps| && j != team.i ==> Spared(team.ps[j])
    ensures forall j :: 0 <= j < |team.ps| && j != team.i ==>
      team.ps[j].Valid() && Inv(team.ps[j].View()) && OldLook(team.ps[j])
    ensures forall j, k :: 0 <= j < |team.ps| && 0 <= k < |team.ps| && j != k && j != team.i && k != team.i ==>
      Apart(team.ps[j], team.ps[k])
  {
    forall j | 0 <= j < |team.ps| && j != team.i
      ensures team.ps[j].Valid() && Inv(team.ps[j].View()) && OldLook(team.ps[j])
    {
      StaysWell(team.ps[j]);
    }
    OthersApart(team);
  }

  // ---------- teardown ----------

  /** p has been torn down. */
  twostate predicate Gone(p: Proc)
    reads p, p.pt, p.pm, p.pm.kern, p.pm.user, p.pool, p.pool.nodes, p.pool.free
  {
    && p.pm.Valid() && p.pool.Valid()
    && p.pm.kern.owned == old(p.View().kothers) && old(OtherFrames(p.View())) <= p.pm.user.owned
    && Steady(old(p.pm.mem), p.pm.Owned(), p.pm.mem)
    && SameNodes(p.pool.free, [], old(p.pool.free), old(p.list))
  }

  twostate lemma SparedByExit(two: Two)
    requires old(two.p.Valid() && Inv(two.p.View()) && two.q.Valid() && Inv(two.q.View()) && Apart(two.p, two.q))
    requires Gone(two.p) && Unwritten(two.q)
    ensures Spared(two.q)
  {
    ghost var p, q := two.p, two.q;
    OwnElsewhere(old(p.View()), old(p.pt.tables), old(q.View()), q.pt.tables, old(p.pm.kern.owned));
    NodesElsewhere(p.pool.nodes, old(p.pool.free), old(p.list), q.list, p.pool.free, []);
    SteadyLess(old(q.pm.mem), p.pm.Owned(), q.pm.mem, q.pt.tables + OwnFrames(q.pt.flat));
  }

  method ExitBeside(ps: seq<Proc>, i: nat, p: Proc, version: Version) returns (r: Outcome<()>)
    requires i < |ps| && p == ps[i] && p.Valid() && Inv(p.View()) && OutOfReach(ps, i)
    modifies p`mmap, p`list, p`regs, p`heapTop, p`ustackNpage, p.pt`flat, p.pm, p.pm.kern, p.pm.user, p.pool,
             p.list`freeNext
    ensures r.Panicked? <==> version.AsWritten? && TF_PAGE in old(p.pt.flat)
    ensures r.Returned? ==> Gone(p)
    ensures OthersStill(ps, i)
  {
    r := Teardown.DestroyPgtbl(p, version);
    assert forall j :: 0 <= j < |ps| && j != i ==> ps[j].list == old(ps[j].list);
  }

  function Without<T>(s: seq<T>, i: nat): (r: seq<T>)
    requires i < |s|
    ensures |r| == |s| - 1 && forall j :: 0 <= j < |r| ==> r[j] == s[if j < i then j else j + 1]
  {
    s[..i] + s[i + 1..]
  }

  /** Tear the i-th of several processes down (uvm_destroy_pgtbl): the others coexist as before,
      as they were, and every node of the one that is gone is free. */
  method ExitAmong(ps: seq<Proc>, i: nat, p: Proc, version: Version) returns (r: Outcome<()>)
    requires i < |ps| && p == ps[i] && Coexist(ps)
    modifies p`mmap, p`list, p`regs, p`heapTop, p`ustackNpage, p.pt`flat, p.pm, p.pm.kern, p.pm.user, p.pool,
             p.list`freeNext
    ensures r.Panicked? <==> version.AsWritten? && TF_PAGE in old(p.pt.flat)
    ensures r.Returned? ==>
      && Coexist(Without(ps, i))
      && (forall j :: 0 <= j < |ps| && j != i ==> OldLook(ps[j]))
      && (old(Accounted(p.pool, ps)) ==> Accounted(p.pool, Without(ps, i)))
  {
    ghost var free, lists := p.pool.free, Lists(ps);
    OthersOut(ps, i);
    r := ExitBeside(ps, i, p, version);
    if r.Returned? {
      AllLeft(Team(ps, i));
      if old(Accounted(p.pool, ps)) {
        FewerAccounted(p.pool, ps, i, free, lists);
      }
    }
  }

  twostate lemma AllSpared(team: Team)
    requires team.i < |team.ps| && old(Coexist(team.ps)) && Gone(team.ps[team.i]) && OthersStill(team.ps, team.i)
    ensures forall j :: 0 <= j < |team.ps| && j != team.i ==> Spared(team.ps[j])
  {
    forall j | 0 <= j < |team.ps| && j != team.i
      ensures Spared(team.ps[j])
    {
      assert old(Apart(team.ps[team.i], team.ps[j]));
      SparedByExit(Two(team.ps[team.i], team.ps[j]));
    }
  }

  twostate lemma AllLeft(team: Team)
    requires team.i < |team.ps| && old(Coexist(team.ps)) && Gone(team.ps[team.i]) && OthersStill(team.ps, team.i)
    ensures Coexist(Without(team.ps, team.i))
    ensures forall j :: 0 <= j < |team.ps| && j != team.i ==> OldLook(team.ps[j])
  {
    AllSpared(team);
    OthersStay(team);
    CoexistWithout(team.ps, team.i);
  }

  lemma CoexistWithout(ps: seq<Proc>, i: nat)
    requires i < |ps|
    requires forall j :: 0 <= j < |ps| && j != i ==> ps[j].Valid() && Inv(ps[j].View())
    requires forall j, k :: 0 <= j < |ps| && 0 <= k < |ps| && j != k && j != i && k != i ==> Apart(ps[j], ps[k])
    ensures Coexist(Without(ps, i))
  {
    var rest := Without(ps, i);
    forall j, k | 0 <= j < |rest| && 0 <= k < |rest| && j != k
      ensures Apart(rest[j], rest[k])
    {
      assert Apart(ps[if j < i then j else j + 1], ps[if k < i then k else k + 1]);
    }
  }

  lemma FewerAccounted(pool: MmapPool, ps: seq<Proc>, i: nat, free: seq<MmapRegion>, lists: seq<seq<MmapRegion>>)
    requires i < |ps| == |lists| && SameNodes(pool.free, [], free, lists[i])
    requires forall j :: 0 <= j < |ps| && j != i ==> ps[j].list == lists[j]
    requires forall n :: n in pool.nodes ==> n in free || exists j :: 0 <= j < |lists| && n in lists[j]
    ensures Accounted(pool, Without(ps, i))
  {
    assert Opened(Closed.Roster, 0);
    var rest := Without(ps, i);
    forall n | n in pool.nodes && n !in pool.free
      ensures OnSome(rest, n)
    {
      var j :| 0 <= j < |lists| && n in lists[j];
      var k := if j < i then j else j - 1;
      assert rest[k] == ps[j];
    }
  }

  // ---------- copy ----------

  /** Frames, tables and nodes of a copy have been taken; nothing that was in use has changed. */
  twostate predicate Grown(p: Proc, new copy: seq<MmapRegion>)
    reads p.pm, p.pm.kern, p.pm.user, p.pool, p.pool.nodes, p.pool.free
  {
    && p.pm.Valid() && p.pool.Valid()
    && old(p.pm.kern.owned) <= p.pm.kern.owned && old(p.pm.user.owned) <= p.pm.user.owned
    && Steady(old(p.pm.mem), old(p.pm.kern.owned) + old(p.pm.user.owned), p.pm.mem)
    && SameNodes(p.pool.free, copy, old(p.pool.free), [])
  }

  /** The i-th of several processes has been copied; the copy has these nodes. */
  datatype Family = Family(ps: seq<Proc>, i: nat, child: Proc, copy: seq<MmapRegion>)

  twostate lemma SparedByCopy(f: Family)
    requires f.i < |f.ps| && old(f.child.Valid() && Inv(f.child.View()))
    requires f.child.pm == f.ps[f.i].pm && f.child.pool == f.ps[f.i].pool
    requires Grown(f.ps[f.i], f.copy) && Unwritten(f.child)
    ensures Spared(f.child) && ListsApart(f.copy, f.child.list)
  {
    ghost var p, q := f.ps[f.i], f.child;
    FramesOwned(old(q.View()));
    NodesElsewhere(p.pool.nodes, old(p.pool.free), [], q.list, p.pool.free, f.copy);
    SteadyLess(old(q.pm.mem), old(p.pm.kern.owned) + old(p.pm.user.owned), q.pm.mem,
               q.pt.tables + OwnFrames(q.pt.flat));
  }

  lemma FramesOwned(s: Space)
    requires Inv(s)
    ensures OwnFrames(s.flat) <= s.uowned && (TF_PAGE in s.flat ==> PteToPa(s.flat[TF_PAGE]) in s.kothers)
  {
    assert Opened(Closed.Agreement, 0);
    assert forall v :: v in Pages(0, TF_PAGE) ==> Between(0, v, TF_PAGE);
  }

  /** All that were there stay as they were. */
  twostate lemma ParentsStay(f: Family)
    requires f.i < |f.ps| && old(Coexist(f.ps)) && OthersStill(f.ps, |f.ps|) && Grown(f.ps[f.i], f.copy)
    ensures Coexist(f.ps) && forall j :: 0 <= j < |f.ps| ==> OldLook(f.ps[j]) && ListsApart(f.copy, f.ps[j].list)
  {
    forall j | 0 <= j < |f.ps|
      ensures Spared(f.ps[j]) && ListsApart(f.copy, f.ps[j].list)
    {
      assert j != f.i ==> old(Apart(f.ps[j], f.ps[f.i]));
      SparedByCopy(f.(child := f.ps[j]));
    }
    OthersStay(Team(f.ps, |f.ps|));
  }

  lemma RootIsTable(pt: PageTable)
    requires pt.Valid()
    ensures pt.root in pt.tables
  {
    assert Opened(Closed.Meaning, 0);
  }

  /** What a copy has of its own was nobody's. */
  lemma NewApart(q: Proc, child: Proc, kowned: set<nat>, uowned: set<nat>)
    requires q != child && q.pm == child.pm && q.pool == child.pool && child.TableOk()
    requires Inv(child.View()) && child.fixed == {TRAMP_PAGE}
    requires child.View().kothers == kowned && OtherFrames(child.View()) == uowned
    requires q.pt.tables <= kowned && OwnFrames(q.pt.flat) <= uowned
    requires TF_PAGE in q.pt.flat ==> PteToPa(q.pt.flat[TF_PAGE]) in kowned
    requires ListsApart(child.list, q.list)
    ensures Apart(child, q) && Apart(q, child)
  {
    Copying.NoTrapframe(child.View());
    RootIsTable(child.pt);
    ApartBoth(child, q);
  }

  /** The copy is apart from all that were there. */
  twostate lemma ChildApart(f: Family)
    requires f.i < |f.ps| && old(Coexist(f.ps)) && OthersStill(f.ps, |f.ps|) && f.child !in f.ps
    requires f.child.pm == f.ps[f.i].pm && f.child.pool == f.ps[f.i].pool
    requires forall j :: 0 <= j < |f.ps| ==> ListsApart(f.child.list, f.ps[j].list)
    requires f.child.TableOk()
    requires Inv(f.child.View()) && f.child.fixed == {TRAMP_PAGE}
    requires f.child.View().kothers == old(f.ps[f.i].pm.kern.owned)
    requires OtherFrames(f.child.View()) == old(f.ps[f.i].pm.user.owned)
    ensures forall j :: 0 <= j < |f.ps| ==> Apart(f.child, f.ps[j]) && Apart(f.ps[j], f.child)
  {
    forall j | 0 <= j < |f.ps|
      ensures Apart(f.child, f.ps[j]) && Apart(f.ps[j], f.child)
    {
      assert j != f.i ==> old(Apart(f.ps[j], f.ps[f.i]));
      FramesOwned(old(f.ps[j].View()));
      NewApart(f.ps[j], f.child, old(f.ps[f.i].pm.kern.owned), old(f.ps[f.i].pm.user.owned));
    }
  }

  lemma CoexistMore(ps: seq<Proc>, child: Proc)
    requires Coexist(ps) && child.Valid() && Inv(child.View())
    requires forall j :: 0 <= j < |ps| ==> Apart(child, ps[j]) && Apart(ps[j], child)
    ensures Coexist(ps + [child])
  {
  }

  /** A copy that is well formed joins the others. */
  twostate lemma CopyJoins(f: Family)
    requires f.i < |f.ps| && old(Coexist(f.ps)) && OthersStill(f.ps, |f.ps|) && f.child !in f.ps
    requires Born(f.ps[f.i], f.child) && f.copy == f.child.list
    ensures Coexist(f.ps) && forall j :: 0 <= j < |f.ps| ==> OldLook(f.ps[j])
    ensures f.child.Valid() ==> Coexist(f.ps + [f.child])
  {
    ParentsStay(f);
    ChildApart(f);
    if f.child.Valid() {
      CoexistMore(f.ps, f.child);
    }
  }

  lemma MoreAccounted(pool: MmapPool, ps: seq<Proc>, child: Proc, free: seq<MmapRegion>, lists: seq<seq<MmapRegion>>)
    requires |ps| == |lists| && SameNodes(pool.free, child.list, free, [])
    requires forall j :: 0 <= j < |ps| ==> ps[j].list == lists[j]
    requires forall n :: n in pool.nodes ==> n in free || exists j :: 0 <= j < |lists| && n in lists[j]
    ensures Accounted(pool, ps + [child])
  {
    assert Opened(Closed.Roster, 0);
    var all := ps + [child];
    forall n | n in pool.nodes && n !in pool.free
      ensures OnSome(all, n)
    {
      if n in free {
        assert n in all[|ps|].list;
      } else {
        var j :| 0 <= j < |lists| && n in lists[j];
        assert n in all[j].list;
      }
    }
  }

  lemma AsAccounted(pool: MmapPool, ps: seq<Proc>, free: seq<MmapRegion>, lists: seq<seq<MmapRegion>>)
    requires |ps| == |lists| && SameNodes(pool.free, [], free, [])
    requires forall j :: 0 <= j < |ps| ==> ps[j].list == lists[j]
    requires forall n :: n in pool.nodes ==> n in free || exists j :: 0 <= j < |lists| && n in lists[j]
    ensures Accounted(pool, ps)
  {
    assert Opened(Closed.Roster, 0);
    forall n | n in pool.nodes && n !in pool.free
      ensures OnSome(ps, n)
    {
      var j :| 0 <= j < |lists| && n in lists[j];
      assert n in ps[j].list;
    }
  }

  /** What a finished copy of p is made of. */
  twostate predicate Born(p: Proc, child: Proc)
    reads p, p.pt, p.pm, p.pm.kern, p.pm.user, p.pool, p.pool.nodes, p.pool.free, p.list,
          child, child.pt, child.pm, child.pm.kern, child.pm.user, child.pool, child.pool.nodes, child.pool.free,
          child.list
  {
    && Grown(p, child.list) && child.TableOk() && Inv(child.View()) && child.fixed == {TRAMP_PAGE}
    && child.pm == p.pm && child.pool == p.pool
    && child.View().kothers == old(p.pm.kern.owned) && OtherFrames(child.View()) == old(p.pm.user.owned)
  }

  /** Copy one process (uvm_copy_pgtbl). */
  method CopyOne(p: Proc, child: Proc, trampoline: nat, heap: Version, version: Version)
    returns (r: Outcome<Copying.Ending>)
    requires p.Valid() && Inv(p.View()) && IsPageBase(trampoline)
    requires child != p && child.pm == p.pm && child.pool == p.pool && child.list == [] && child.regs == []
    modifies child, p.pm, p.pm.kern, p.pm.user, p.pool, p.pool.free
    ensures r.Returned? && r.value.Finished? ==> r.value.ret == 0 || r.value.ret == -1
    ensures r == Returned(Copying.Finished(0)) ==>
      Born(p, child) && forall k :: 0 <= k < |child.list| ==> child.list[k] in old(p.pool.free)
    ensures r == Returned(Copying.Finished(0)) ==> (child.Valid() <==> old(child.mmap) == null || old(p.regs) != [])
    ensures r == Returned(Copying.Finished(-1)) ==> Grown(p, [])
    ensures forall n :: n in p.pool.nodes && n !in old(p.pool.free) ==>
      n.begin == old(n.begin) && n.npages == old(n.npages) && n.next == old(n.next)
  {
    ghost var free := p.pool.free;
    ghost var c := Copying.Job(p.View(), Copying.Before(p.pm.mem, p.pm.kern.owned, p.pm.user.owned), free, child.mmap,
                             trampoline);
    ghost var stores, m1;
    r, stores, m1 := Copying.CopyPgtbl(p, child, trampoline, heap, version);
    forall n | n in p.pool.nodes && n !in free
      ensures n.begin == old(n.begin) && n.npages == old(n.npages) && n.next == old(n.next)
    {
      assert forall k :: 0 <= k < |free| ==> free[k] in free && free[k] != n;
    }
    if r == Returned(Copying.Finished(0)) {
      Copying.StandsExact(child, c);
      SameReach(p.pool.free, child.list, free, []);
    }
  }

  method CopyBeside(ps: seq<Proc>, i: nat, p: Proc, child: Proc, trampoline: nat, heap: Version, version: Version)
    returns (r: Outcome<Copying.Ending>)
    requires i < |ps| && p == ps[i] && p.Valid() && Inv(p.View()) && IsPageBase(trampoline)
    requires child !in ps && child.pm == p.pm && child.pool == p.pool && child.list == [] && child.regs == []
    requires forall j, n :: 0 <= j < |ps| && n in ps[j].list ==> n in p.pool.nodes && n !in p.pool.free
    modifies child, p.pm, p.pm.kern, p.pm.user, p.pool, p.pool.free
    ensures r.Returned? && r.value.Finished? ==> r.value.ret == 0 || r.value.ret == -1
    ensures r == Returned(Copying.Finished(0)) ==>
      Born(p, child) && forall k :: 0 <= k < |child.list| ==> child.list[k] in old(p.pool.free)
    ensures r == Returned(Copying.Finished(0)) ==> (child.Valid() <==> old(child.mmap) == null || old(p.regs) != [])
    ensures r == Returned(Copying.Finished(-1)) ==> Grown(p, [])
    ensures OthersStill(ps, |ps|)
  {
    r := CopyOne(p, child, trampoline, heap, version);
    assert forall j :: 0 <= j < |ps| ==> ps[j].list == old(ps[j].list) && unchanged(ps[j]) && unchanged(ps[j].pt);
  }

  lemma ListsHeld(ps: seq<Proc>, i: nat)
    requires i < |ps| && Coexist(ps)
    ensures forall j, n :: 0 <= j < |ps| && n in ps[j].list ==> n in ps[i].pool.nodes && n !in ps[i].pool.free
  {
    forall j | 0 <= j < |ps|
      ensures forall n :: n in ps[j].list ==> n in ps[i].pool.nodes && n !in ps[i].pool.free
    {
      assert j != i ==> Apart(ps[j], ps[i]);
      NodesUntouched(ps[i].pool.nodes, ps[i].pool.free, [], ps[j].list);
    }
  }

  /** Copy the i-th of several processes (uvm_copy_pgtbl). All of them coexist as before, as they
      were, whether the copy is made or given up. A copy that is made joins them, unless a stale
      list head survives in it. Every node is accounted for. */
  method CopyAmong(ps: seq<Proc>, i: nat, p: Proc, child: Proc, trampoline: nat, heap: Version, version: Version)
    returns (r: Outcome<Copying.Ending>)
    requires i < |ps| && p == ps[i] && Coexist(ps) && IsPageBase(trampoline)
    requires child !in ps && child.pm == p.pm && child.pool == p.pool && child.list == [] && child.regs == []
    modifies child, p.pm, p.pm.kern, p.pm.user, p.pool, p.pool.free
    ensures r.Returned? && r.value.Finished? ==> r.value.ret == 0 || r.value.ret == -1
    ensures r.Returned? && r.value.Finished? ==> Coexist(ps) && forall j :: 0 <= j < |ps| ==> OldLook(ps[j])
    ensures r == Returned(Copying.Finished(0)) && (old(child.mmap) == null || old(p.regs) != []) ==>
      Coexist(ps + [child])
    ensures r == Returned(Copying.Finished(0)) && old(Accounted(p.pool, ps)) ==> Accounted(p.pool, ps + [child])
    ensures r == Returned(Copying.Finished(-1)) && old(Accounted(p.pool, ps)) ==> Accounted(p.pool, ps)
  {
    ghost var free, lists := p.pool.free, Lists(ps);
    ListsHeld(ps, i);
    r := CopyBeside(ps, i, p, child, trampoline, heap, version);
    if r == Returned(Copying.Finished(0)) {
      ghost var f := Family(ps, i, child, child.list);
      CopyJoins(f);
      if old(Accounted(p.pool, ps)) {
        MoreAccounted(p.pool, ps, child, free, lists);
      }
    } else if r == Returned(Copying.Finished(-1)) {
      ParentsStay(Family(ps, i, child, []));
      if old(Accounted(p.pool, ps)) {
        AsAccounted(p.pool, ps, free, lists);
      }
    }
  }
}
