/** Several processes in one kernel: they share the allocators and the node pool, and nothing
    else. Serving one of them leaves the others as they were. */
module Processes {
  import opened Layout
  import opened Outcomes
  import opened Kvm
  import opened RegionPool
  import opened RegionList
  import opened Spaces
  import opened Uvm
  import opened Runs
  import opened Kernel

  /** An address space keeps its invariant while others take and give back frames and tables, as
      long as its own frames and its trapframe stay handed out. */
  lemma OthersMove(s: Space, t: Space)
    requires Inv(s) && t == s.(uowned := t.uowned, nodes := t.nodes, kothers := t.kothers)
    requires OwnFrames(s.flat) <= t.uowned && (TF_PAGE in s.flat ==> PteToPa(s.flat[TF_PAGE]) in t.kothers)
    ensures Inv(t)
  {
    assert Opened(Closed.Agreement, 0);
    forall v | v in t.flat && v < TF_PAGE
      ensures PteToPa(t.flat[v]) in t.uowned
    {
      assert Between(0, v, TF_PAGE);
      assert PteToPa(t.flat[v]) in OwnFrames(s.flat);
    }
    assert forall v :: Wanted(t, v) == Wanted(s, v);
  }

  /** What one process owns lies in what the other one's calls leave alone. */
  lemma OwnElsewhere(p: Space, ptables: set<nat>, q: Space, qtables: set<nat>, kowned: set<nat>)
    requires Inv(q) && q.uowned == p.uowned && p.kothers == kowned - ptables && q.kothers == kowned - qtables
    requires qtables <= kowned && ptables !! qtables && OwnFrames(p.flat) !! OwnFrames(q.flat)
    requires KeepsOff(q.flat, ptables)
    ensures OwnFrames(q.flat) <= OtherFrames(p) && qtables <= p.kothers
    ensures TF_PAGE in q.flat ==> PteToPa(q.flat[TF_PAGE]) in p.kothers && PteToPa(q.flat[TF_PAGE]) !in qtables
  {
    assert Opened(Closed.Agreement, 0);
    assert forall v :: v in Pages(0, TF_PAGE) ==> Between(0, v, TF_PAGE);
  }

  /** A node of the other list is neither on the one nor free, and stays so. */
  lemma NodesElsewhere(nodes: set<MmapRegion>, free: seq<MmapRegion>, list: seq<MmapRegion>, other: seq<MmapRegion>,
                       free': seq<MmapRegion>, list': seq<MmapRegion>)
    requires Members(nodes, free, other) && ListsApart(list, other) && SameNodes(free', list', free, list)
    ensures Members(nodes, free', other) && ListsApart(list', other)
  {
    assert Opened(Closed.Roster, 0);
    assert forall n :: n in list' ==> n !in other;
    assert DistinctNodes(other) && forall i :: 0 <= i < |other| ==> other[i] in nodes && other[i] !in free';
  }

  lemma NodesUntouched(nodes: set<MmapRegion>, free: seq<MmapRegion>, list: seq<MmapRegion>, other: seq<MmapRegion>)
    requires Members(nodes, free, other) && ListsApart(list, other)
    ensures forall n :: n in other ==> n in nodes && n !in free && n !in list
  {
    assert Opened(Closed.Roster, 0);
  }

  /** The trapframe of a process that has one is the one it had. */
  lemma SameTrapframe(s: Space, t: Space)
    requires Inv(s) && Inv(t) && SameElsewhere(s, t)
    ensures TF_PAGE in t.flat ==> TF_PAGE in s.flat && t.flat[TF_PAGE] == s.flat[TF_PAGE]
  {
    AreasApart(t, TF_PAGE);
    if IsMmap(t.regs, TF_PAGE) {
      MmapBounds(t.regs, TF_PAGE);
    }
    assert TF_PAGE in t.flat ==> TF_PAGE in t.fixed by {
      assert Opened(Closed.Agreement, 0);
      assert TF_PAGE in t.flat ==> Wanted(t, TF_PAGE);
    }
  }

  /** What a call of another process leaves of q: regions, nodes, translations, tops and pages. */
  twostate predicate OldLook(q: Proc)
    reads q, q.pt, q.pm
  {
    && q.regs == old(q.regs) && q.list == old(q.list) && q.pt == old(q.pt) && q.pt.flat == old(q.pt.flat)
    && q.heapTop == old(q.heapTop) && q.ustackNpage == old(q.ustackNpage)
    && Steady(old(q.pm.mem), OwnFrames(old(q.pt.flat)), q.pm.mem)
  }

  /** A call by p that kept p's invariant. */
  twostate predicate Kept(p: Proc)
    reads p, p.pt, p.pm, p.pm.kern, p.pm.user, p.pool, p.pool.nodes, p.pool.free, p.list
  {
    && p.Valid() && Inv(p.View()) && SameElsewhere(old(p.View()), p.View()) && p.pt == old(p.pt)
    && p.OthersKept(old(p.pm.mem)) && SameNodes(p.pool.free, p.list, old(p.pool.free), old(p.list))
  }

  lemma ApartBoth(p: Proc, q: Proc)
    requires Apart(p, q)
    ensures Apart(q, p)
  {
    assert Opened(Closed.Roster, 0);
    assert forall n :: n in q.list ==> n !in p.list;
  }

  /** A process being served and another one. */
  datatype Two = Two(p: Proc, q: Proc)

  /** The i-th of several processes being served. */
  datatype Team = Team(ps: seq<Proc>, i: nat)

  /** What q owns is still handed out and holds what it held, and its nodes are not free. */
  twostate predicate Spared(q: Proc)
    reads q, q.pt, q.pm, q.pm.kern, q.pm.user, q.pool, q.pool.nodes, q.pool.free
  {
    && q.pm.Valid() && q.pool.Valid() && Members(q.pool.nodes, q.pool.free, q.list)
    && q.pt.tables <= q.pm.kern.owned && OwnFrames(q.pt.flat) <= q.pm.user.owned
    && (TF_PAGE in q.pt.flat ==> PteToPa(q.pt.flat[TF_PAGE]) in q.pm.kern.owned)
    && Steady(old(q.pm.mem), q.pt.tables + OwnFrames(q.pt.flat), q.pm.mem)
  }

  /** None of q's own fields, tables and nodes is written. */
  twostate predicate Unwritten(q: Proc)
    reads q, q.pt, q.list
  {
    && unchanged(q) && unchanged(q.pt)
    && forall n :: n in q.list ==> n.begin == old(n.begin) && n.npages == old(n.npages) && n.next == old(n.next)
  }

  /** Then q is well formed as before, and keeps its invariant. */
  twostate lemma StaysWell(q: Proc)
    requires old(q.Valid() && Inv(q.View())) && Unwritten(q) && Spared(q)
    ensures q.Valid() && Inv(q.View()) && OldLook(q)
  {
    assert TF_PAGE in q.pt.flat ==> PteToPa(q.pt.flat[TF_PAGE]) in old(q.View().kothers) by {
      assert Opened(Closed.Agreement, 0);
    }
    assert q.pt.Valid() by {
      assert q.pm.mem.Keys == old(q.pm.mem).Keys
        && forall f :: f in q.pt.tables && f in old(q.pm.mem) ==> q.pm.mem[f] == old(q.pm.mem)[f] by {
        assert Opened(Closed.Growth, 0);
      }
      MeansFrame(old(q.pm.mem), q.pm.mem, q.pt.tree, q.pt.tables, q.pt.flat);
    }
    assert Seg(q.list, q.regs, null) by {
      assert Opened(Closed.Links, 0);
      assert forall i :: 0 <= i < |q.list| ==> q.list[i] in q.list;
    }
    OthersMove(old(q.View()), q.View());
    SteadyLess(old(q.pm.mem), q.pt.tables + OwnFrames(q.pt.flat), q.pm.mem, OwnFrames(q.pt.flat));
  }

  /** A call by p that keeps p's invariant leaves every other process q well formed, with its
      invariant, its regions, translations and page contents, and apart from p. */
  twostate lemma BesideKept(two: Two)
    requires old(two.p.Valid() && Inv(two.p.View()) && two.q.Valid() && Inv(two.q.View()) && Apart(two.p, two.q))
    requires Kept(two.p) && Unwritten(two.q)
    ensures two.q.Valid() && Inv(two.q.View()) && OldLook(two.q)
    ensures Apart(two.p, two.q) && Apart(two.q, two.p)
  {
    ghost var p, q := two.p, two.q;
    ghost var s0, s1, u0 := old(p.View()), p.View(), old(q.View());
    OwnElsewhere(s0, old(p.pt.tables), u0, q.pt.tables, old(p.pm.kern.owned));
    assert OtherFrames(s1) == OtherFrames(s0) && s1.kothers == s0.kothers;
    NodesElsewhere(p.pool.nodes, old(p.pool.free), old(p.list), q.list, p.pool.free, p.list);
    SteadyLess(old(q.pm.mem), s1.kothers + OtherFrames(s1), q.pm.mem, q.pt.tables + OwnFrames(q.pt.flat));
    StaysWell(q);
    SameTrapframe(s0, s1);
    ApartBoth(p, q);
  }

  /** Any number of processes, each well formed with its invariant, any two apart. */
  ghost predicate Coexist(ps: seq<Proc>)
    reads *
  {
    && (forall j :: 0 <= j < |ps| ==> ps[j].Valid() && Inv(ps[j].View()))
    && PairsApart(ps)
  }

  ghost predicate PairsApart(ps: seq<Proc>)
    reads ps, set j | 0 <= j < |ps| :: ps[j].pt
  {
    forall j, k :: 0 <= j < |ps| && 0 <= k < |ps| && j != k ==> Apart(ps[j], ps[k])
  }

  /** Every node is free or on the list of one of the processes. */
  ghost predicate Accounted(pool: MmapPool, ps: seq<Proc>)
    reads pool, ps
  {
    forall n :: n in pool.nodes ==> n in pool.free || OnSome(ps, n)
  }

  ghost predicate OnSome(ps: seq<Proc>, n: MmapRegion)
    reads ps
  {
    exists j :: 0 <= j < |ps| && n in ps[j].list
  }

  /** Then every node is in exactly one place: free, or on one list. */
  lemma OnePlace(ps: seq<Proc>, n: MmapRegion)
    requires ps != [] && Coexist(ps) && Accounted(ps[0].pool, ps) && n in ps[0].pool.nodes
    ensures n in ps[0].pool.free <==> !OnSome(ps, n)
    ensures forall j, k :: 0 <= j < |ps| && 0 <= k < |ps| && n in ps[j].list && n in ps[k].list ==> j == k
  {
    assert forall j :: 0 <= j < |ps| ==> ps[j].pool == ps[0].pool by {
      assert forall j :: 0 < j < |ps| ==> Apart(ps[j], ps[0]);
    }
    forall j | 0 <= j < |ps| && n in ps[j].list
      ensures n !in ps[0].pool.free
    {
      assert Opened(Closed.Roster, 0);
      assert Members(ps[j].pool.nodes, ps[j].pool.free, ps[j].list);
    }
    forall j, k | 0 <= j < |ps| && 0 <= k < |ps| && j != k
      ensures !(n in ps[j].list && n in ps[k].list)
    {
      NotOnBoth(ps[j], ps[k], n);
    }
  }

  lemma NotOnBoth(p: Proc, q: Proc, n: MmapRegion)
    requires Apart(p, q)
    ensures !(n in p.list && n in q.list)
  {
    assert Opened(Closed.Roster, 0);
  }

  /** A node that is neither free nor on the served process's list is on another one's. */
  lemma StillAccounted(pool: MmapPool, ps: seq<Proc>, i: nat, free: seq<MmapRegion>, lists: seq<seq<MmapRegion>>)
    requires i < |ps| == |lists| && SameNodes(pool.free, ps[i].list, free, lists[i])
    requires forall j :: 0 <= j < |ps| && j != i ==> ps[j].list == lists[j]
    requires forall n :: n in pool.nodes ==> n in free || exists j :: 0 <= j < |lists| && n in lists[j]
    ensures Accounted(pool, ps)
  {
    assert Opened(Closed.Roster, 0);
    forall n | n in pool.nodes && n !in pool.free
      ensures OnSome(ps, n)
    {
      if n in free {
        assert n in ps[i].list;
      } else {
        var j :| 0 <= j < |lists| && n in lists[j];
        assert if j == i then n in ps[i].list else n in ps[j].list;
      }
    }
  }

  ghost predicate OutOfReach(ps: seq<Proc>, i: nat)
    requires i < |ps|
    reads ps, ps[i].pool
  {
    && (forall j :: 0 <= j < |ps| && j != i ==> ps[j] != ps[i] && ps[j].pt != ps[i].pt)
    && (forall j, n :: 0 <= j < |ps| && j != i && n in ps[j].list ==>
          n in ps[i].pool.nodes && n !in ps[i].pool.free && n !in ps[i].list)
  }

  /** A call by the i-th process writes none of the others' fields, tables and nodes. */
  twostate predicate OthersStill(ps: seq<Proc>, i: nat)
    reads *
  {
    forall j :: 0 <= j < |ps| && j != i ==> Unwritten(ps[j])
  }

  /** Who is on neither of two, where no node has come or gone, is on neither afterwards. */
  lemma OutsideStays(f1: seq<MmapRegion>, l1: seq<MmapRegion>, f2: seq<MmapRegion>, l2: seq<MmapRegion>)
    requires SameNodes(f1, l1, f2, l2)
    ensures forall n :: n !in f2 && n !in l2 ==> n !in f1 && n !in l1
  {
    assert Opened(Closed.Roster, 0);
  }

  /** Serve one process: every node that is neither free nor on its list is as it was, and stays
      on neither. */
  method ServeOne(p: Proc, call: Call, version: Version) returns (r: Outcome<int>)
    requires p.Valid() && Inv(p.View()) && Admissible(call)
    modifies p`mmap, p`list, p`regs, p`heapTop, p`ustackNpage, p.pool, p.pool.free, p.list,
             p.pt, p.pm, p.pm.kern, p.pm.user
    ensures r.Panicked? ==> MayHalt(old(p.View()), call, |old(p.pm.user.chain)|, |old(p.pm.kern.chain)|)
    ensures r.Returned? ==> (Inv(p.View()) <==> Sane(version, old(p.View()), call))
    ensures r.Returned? && Inv(p.View()) ==> Kept(p)
    ensures forall n :: n in p.pool.nodes && n !in old(p.pool.free) && n !in old(p.list) ==>
      n.begin == old(n.begin) && n.npages == old(n.npages) && n.next == old(n.next)
    ensures r.Returned? ==>
      forall n :: n !in old(p.pool.free) && n !in old(p.list) ==> n !in p.pool.free && n !in p.list
  {
    ghost var free, list := p.pool.free, p.list;
    r := Serve(p, call, version);
    forall n | n in p.pool.nodes && n !in free && n !in list
      ensures n.begin == old(n.begin) && n.npages == old(n.npages) && n.next == old(n.next)
    {
      assert forall k :: 0 <= k < |free| ==> free[k] in free && free[k] != n;
      assert forall k :: 0 <= k < |list| ==> list[k] in list && list[k] != n;
    }
    if r.Returned? {
      OutsideStays(p.pool.free, p.list, free, list);
    }
  }

  /** The other processes' own fields, tables and nodes are out of the call's reach. */
  method ServeBeside(ps: seq<Proc>, i: nat, p: Proc, call: Call, version: Version) returns (r: Outcome<int>)
    requires i < |ps| && p == ps[i] && p.Valid() && Inv(p.View()) && Admissible(call)
    requires OutOfReach(ps, i)
    modifies p`mmap, p`list, p`regs, p`heapTop, p`ustackNpage, p.pool, p.pool.free, p.list,
             p.pt, p.pm, p.pm.kern, p.pm.user
    ensures r.Panicked? ==> MayHalt(old(p.View()), call, |old(p.pm.user.chain)|, |old(p.pm.kern.chain)|)
    ensures r.Returned? ==> (Inv(p.View()) <==> Sane(version, old(p.View()), call))
    ensures r.Returned? && Inv(p.View()) ==> Kept(p)
    ensures OthersStill(ps, i)
  {
    r := ServeOne(p, call, version);
    assert forall j :: 0 <= j < |ps| && j != i ==> ps[j].list == old(ps[j].list);
  }

  /** Serve the i-th of several processes. After a sane call all of them coexist as before, the
      others with the regions, translations, tops and page contents they had, and no region node
      is lost or shared. */
  method ServeAmong(ps: seq<Proc>, i: nat, p: Proc, call: Call, version: Version) returns (r: Outcome<int>)
    requires i < |ps| && p == ps[i] && Coexist(ps) && Admissible(call)
    modifies p`mmap, p`list, p`regs, p`heapTop, p`ustackNpage, p.pool, p.pool.free, p.list,
             p.pt, p.pm, p.pm.kern, p.pm.user
    ensures r.Panicked? ==> MayHalt(old(p.View()), call, |old(p.pm.user.chain)|, |old(p.pm.kern.chain)|)
    ensures r.Returned? ==> (Inv(p.View()) <==> Sane(version, old(p.View()), call))
    ensures r.Returned? && Inv(p.View()) ==>
      && Coexist(ps)
      && (forall j :: 0 <= j < |ps| && j != i ==> OldLook(ps[j]))
      && (old(Accounted(p.pool, ps)) ==> Accounted(p.pool, ps))
  {
    ghost var free, lists := p.pool.free, Lists(ps);
    OthersOut(ps, i);
    r := ServeBeside(ps, i, p, call, version);
    if r.Returned? && Inv(p.View()) {
      AllKept(Team(ps, i));
      if old(Accounted(p.pool, ps)) {
        StillAccounted(p.pool, ps, i, free, lists);
      }
    }
  }

  ghost function Lists(ps: seq<Proc>): (r: seq<seq<MmapRegion>>)
    reads ps
    ensures |r| == |ps| && forall j :: 0 <= j < |ps| ==> r[j] == ps[j].list
  {
    if ps == [] then [] else Lists(ps[..|ps| - 1]) + [ps[|ps| - 1].list]
  }

  /** A call by p writes nothing of the other processes' own. */
  lemma OthersOut(ps: seq<Proc>, i: nat)
    requires i < |ps| && Coexist(ps)
    ensures OutOfReach(ps, i)
  {
    forall j | 0 <= j < |ps| && j != i
      ensures ps[j] != ps[i] && ps[j].pt != ps[i].pt
      ensures forall n :: n in ps[j].list ==> n in ps[i].pool.nodes && n !in ps[i].pool.free && n !in ps[i].list
    {
      assert Apart(ps[i], ps[j]);
      NodesUntouched(ps[i].pool.nodes, ps[i].pool.free, ps[i].list, ps[j].list);
    }
  }

  twostate lemma OthersApart(team: Team)
    requires OthersStill(team.ps, team.i)
    requires old(PairsApart(team.ps))
    ensures forall j, k :: 0 <= j < |team.ps| && 0 <= k < |team.ps| && j != k && j != team.i && k != team.i ==>
      Apart(team.ps[j], team.ps[k])
  {
    ghost var ps, i := team.ps, team.i;
    forall j, k | 0 <= j < |ps| && 0 <= k < |ps| && j != k && j != i && k != i
      ensures Apart(ps[j], ps[k])
    {
      assert old(Apart(ps[j], ps[k]));
    }
  }

  twostate lemma AllKept(team: Team)
    requires team.i < |team.ps| && old(Coexist(team.ps))
    requires Kept(team.ps[team.i])
    requires OthersStill(team.ps, team.i)
    ensures Coexist(team.ps)
    ensures forall j :: 0 <= j < |team.ps| && j != team.i ==> OldLook(team.ps[j])
  {
    ghost var ps, i := team.ps, team.i;
    ghost var p := ps[i];
    forall j | 0 <= j < |ps| && j != i
      ensures ps[j].Valid() && Inv(ps[j].View()) && Apart(p, ps[j]) && Apart(ps[j], p) && OldLook(ps[j])
    {
      assert old(Apart(ps[i], ps[j]));
      BesideKept(Two(p, ps[j]));
    }
    OthersApart(team);
  }
}
