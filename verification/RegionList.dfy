/** The pointer surgery on a process's region list (src/kernel/mem/uvm.c, mmap_merge and
    the unmap shapes). A list is a sequence of nodes with the regions they describe; its
    first node is the dummy head that uvm_mmap and uvm_munmap put in front. */
module RegionList {
  import opened Layout
  import opened Outcomes
  import opened Regions
  import opened RegionPool

  function Next(s: seq<MmapRegion>, i: int, after: MmapRegion?): MmapRegion? {
    if 0 <= i + 1 < |s| then s[i + 1] else after
  }

  function First(s: seq<MmapRegion>, after: MmapRegion?): MmapRegion? {
    if s == [] then after else s[0]
  }

  ghost predicate Is(n: MmapRegion, r: Region)
    reads n`begin, n`npages
  {
    n.begin == r.begin && n.npages == r.npages
  }

  /** The nodes of s describe the regions rs; each links to the one behind it and the last
      one to `after`. */
  ghost predicate Seg(s: seq<MmapRegion>, rs: seq<Region>, after: MmapRegion?)
    reads s`begin, s`npages, s`next
  {
    && |rs| == |s|
    && forall k {:trigger Opened(Closed.Links, k)} :: Sealed(Closed.Links, k) ==> SegNodes(s, rs, after)
  }

  ghost predicate SegNodes(s: seq<MmapRegion>, rs: seq<Region>, after: MmapRegion?)
    requires |rs| == |s|
    reads s`begin, s`npages, s`next
  {
    forall i {:trigger Next(s, i, after)} :: 0 <= i < |s| ==> s[i].next == Next(s, i, after) && Is(s[i], rs[i])
  }

  lemma SegSplit(s: seq<MmapRegion>, rs: seq<Region>, k: nat, after: MmapRegion?)
    requires Seg(s, rs, after) && k <= |s|
    ensures Seg(s[..k], rs[..k], First(s[k..], after)) && Seg(s[k..], rs[k..], after)
  {
    assert Opened(Closed.Links, 0);
    forall i | 0 <= i < k
      ensures s[..k][i].next == Next(s[..k], i, First(s[k..], after)) && Is(s[..k][i], rs[..k][i])
    {
      assert s[i].next == Next(s, i, after);
    }
    forall i | 0 <= i < |s[k..]|
      ensures s[k..][i].next == Next(s[k..], i, after) && Is(s[k..][i], rs[k..][i])
    {
      assert s[k + i].next == Next(s, k + i, after);
    }
  }

  lemma SegJoin(s: seq<MmapRegion>, rs: seq<Region>, t: seq<MmapRegion>, qs: seq<Region>, after: MmapRegion?)
    requires Seg(s, rs, First(t, after)) && Seg(t, qs, after)
    ensures Seg(s + t, rs + qs, after)
  {
    assert Opened(Closed.Links, 0);
    forall i | 0 <= i < |s + t|
      ensures (s + t)[i].next == Next(s + t, i, after) && Is((s + t)[i], (rs + qs)[i])
    {
      if i < |s| {
        assert s[i].next == Next(s, i, First(t, after));
      } else {
        assert t[i - |s|].next == Next(t, i - |s|, after);
      }
    }
  }

  lemma SegOne(n: MmapRegion, r: Region, after: MmapRegion?)
    requires n.next == after && Is(n, r)
    ensures Seg([n], [r], after)
  {
    assert [n][0].next == Next([n], 0, after);
    assert SegNodes([n], [r], after);
  }

  /** Split a list around its k-th node. */
  lemma Around(l: seq<MmapRegion>, rs: seq<Region>, k: nat)
    requires Seg(l, rs, null) && k < |l|
    ensures Seg(l[..k], rs[..k], l[k]) && Seg(l[k + 1..], rs[k + 1..], null)
    ensures l[k].next == First(l[k + 1..], null) && Is(l[k], rs[k])
  {
    assert Opened(Closed.Links, 0);
    SegSplit(l, rs, k, null);
    SegSplit(l, rs, k + 1, null);
    assert l[k].next == Next(l, k, null);
  }

  /** Split a list around two neighbours. */
  lemma AroundTwo(l: seq<MmapRegion>, rs: seq<Region>, k: nat)
    requires Seg(l, rs, null) && k + 1 < |l|
    ensures Seg(l[..k], rs[..k], l[k]) && Seg(l[k + 2..], rs[k + 2..], null)
    ensures l[k].next == l[k + 1] && Is(l[k], rs[k])
    ensures l[k + 1].next == First(l[k + 2..], null) && Is(l[k + 1], rs[k + 1])
  {
    Around(l, rs, k);
    Around(l, rs, k + 1);
  }

  /** Put a list together around one node. */
  lemma Rebuild(s: seq<MmapRegion>, rs: seq<Region>, n: MmapRegion, r: Region, t: seq<MmapRegion>, qs: seq<Region>)
    requires Seg(s, rs, n) && n.next == First(t, null) && Is(n, r) && Seg(t, qs, null)
    ensures Seg(s + ([n] + t), rs + ([r] + qs), null)
  {
    assert SegNodes([n], [r], First(t, null));
    SegJoin([n], [r], t, qs, null);
    SegJoin(s, rs, [n] + t, [r] + qs, null);
  }

  /** The k-th node describes another region. */
  lemma Reseat(l: seq<MmapRegion>, rs: seq<Region>, k: nat, r: Region)
    requires k < |l| && |rs| == |l| && Seg(l[..k], rs[..k], l[k]) && Seg(l[k + 1..], rs[k + 1..], null)
    requires l[k].next == First(l[k + 1..], null) && Is(l[k], r)
    ensures Seg(l, rs[..k] + ([r] + rs[k + 1..]), null)
  {
    Rebuild(l[..k], rs[..k], l[k], r, l[k + 1..], rs[k + 1..]);
    assert l == l[..k] + ([l[k]] + l[k + 1..]);
  }

  /** A new node stands behind the k-th. */
  lemma Behind(l: seq<MmapRegion>, rs: seq<Region>, k: nat, n: MmapRegion, r: Region)
    requires k < |l| && |rs| == |l| && Seg(l[..k], rs[..k], l[k]) && Seg(l[k + 1..], rs[k + 1..], null)
    requires l[k].next == n && Is(l[k], rs[k]) && n.next == First(l[k + 1..], null) && Is(n, r)
    ensures Seg(l[..k + 1] + ([n] + l[k + 1..]), Splice(rs, k + 1, k + 1, r), null)
  {
    RebuildTwo(l[..k], rs[..k], l[k], rs[k], n, r, l[k + 1..], rs[k + 1..]);
    assert l[..k + 1] + ([n] + l[k + 1..]) == l[..k] + ([l[k]] + ([n] + l[k + 1..]));
    assert Splice(rs, k + 1, k + 1, r) == rs[..k] + ([rs[k]] + ([r] + rs[k + 1..]));
  }

  /** Put a list together around two nodes. */
  lemma RebuildTwo(s: seq<MmapRegion>, rs: seq<Region>, n: MmapRegion, r: Region,
                   m: MmapRegion, q: Region, t: seq<MmapRegion>, qs: seq<Region>)
    requires Seg(s, rs, n) && n.next == m && Is(n, r) && m.next == First(t, null) && Is(m, q) && Seg(t, qs, null)
    ensures Seg(s + ([n] + ([m] + t)), rs + ([r] + ([q] + qs)), null)
  {
    assert SegNodes([], [], m);
    Rebuild([], [], m, q, t, qs);
    assert [] + ([m] + t) == [m] + t && [] + ([q] + qs) == [q] + qs;
    Rebuild(s, rs, n, r, [m] + t, [q] + qs);
  }

  /** The nodes of l are distinct; all but the dummy come from the pool and are not free. */
  ghost predicate Roster(nodes: set<MmapRegion>, free: seq<MmapRegion>, l: seq<MmapRegion>) {
    forall k {:trigger Opened(Closed.Roster, k)} :: Sealed(Closed.Roster, k) ==>
      && DistinctNodes(l)
      && l != [] && l[0] !in nodes
      && forall i :: 1 <= i < |l| ==> l[i] in nodes && l[i] !in free
  }

  /** The nodes of a process list: distinct, from the pool, not free. */
  ghost predicate Members(nodes: set<MmapRegion>, free: seq<MmapRegion>, list: seq<MmapRegion>) {
    forall k {:trigger Opened(Closed.Roster, k)} :: Sealed(Closed.Roster, k) ==>
      DistinctNodes(list) && forall i :: 0 <= i < |list| ==> list[i] in nodes && list[i] !in free
  }

  /** The region of a dummy head: it ends below every region of the mmap area. */
  ghost predicate LiesBelow(r: Region) {
    forall k {:trigger Opened(Closed.Links, k)} :: Sealed(Closed.Links, k) ==>
      r.npages < 0x10_0000 && r.End() < MMAP_BEGIN
  }

  /** The regions `regs` behind that of a dummy head. */
  ghost predicate HeadOf(rs: seq<Region>, regs: seq<Region>) {
    rs != [] && LiesBelow(rs[0]) && rs == [rs[0]] + regs
  }

  /** A list behind a dummy head, with its nodes taken from the pool. */
  ghost predicate Headed(pool: MmapPool, l: seq<MmapRegion>, rs: seq<Region>)
    reads pool, l
  {
    && l != [] && |rs| == |l| && LiesBelow(rs[0])
    && Seg(l, rs, null)
    && Roster(pool.nodes, pool.free, l)
  }

  lemma RosterTwo(nodes: set<MmapRegion>, free: seq<MmapRegion>, l: seq<MmapRegion>, k: nat, cur: MmapRegion)
    requires Roster(nodes, free, l) && k < |l|
    ensures l[k] !in l[..k] && l[k] !in l[k + 1..]
    ensures k > 0 ==> l[k] in nodes && l[k] !in free && l[0] != l[k]
    ensures l[0] !in nodes
    ensures cur !in l ==> cur !in l[..k] && cur !in l[k + 1..] && cur != l[k]
    ensures k + 1 < |l| ==>
      && l[k + 1] in nodes && l[k + 1] !in free && l[k] != l[k + 1] && l[0] != l[k + 1]
      && l[k] !in l[k + 2..] && l[k + 1] !in l[..k] && l[k + 1] !in l[k + 2..]
      && (cur !in l ==> cur !in l[k + 2..] && cur != l[k + 1])
  {
    assert Opened(Closed.Roster, 0);
  }

  /** A node that is not on the list may be freed. */
  lemma RosterFree(nodes: set<MmapRegion>, free: seq<MmapRegion>, l: seq<MmapRegion>, n: MmapRegion)
    requires Roster(nodes, free, l) && n !in l
    ensures Roster(nodes, [n] + free, l)
  {
    assert Opened(Closed.Roster, 0);
  }

  /** Taking the k-th node off the list and freeing it. */
  lemma RosterDrop(nodes: set<MmapRegion>, free: seq<MmapRegion>, l: seq<MmapRegion>, k: nat)
    requires Roster(nodes, free, l) && 0 < k < |l|
    ensures Roster(nodes, [l[k]] + free, l[..k] + l[k + 1..])
    ensures forall n :: n in l[..k] + l[k + 1..] ==> n in l
  {
    assert Opened(Closed.Roster, 0);
    var l' := l[..k] + l[k + 1..];
    assert forall i :: 0 <= i < |l'| ==> l'[i] == l[if i < k then i else i + 1];
  }

  /** Replacing the k-th node by a fresh one and freeing it. */
  lemma RosterSwap(nodes: set<MmapRegion>, free: seq<MmapRegion>, l: seq<MmapRegion>, k: nat, n: MmapRegion)
    requires Roster(nodes, free, l) && 0 < k < |l| && n in nodes && n !in free && n !in l
    ensures Roster(nodes, [l[k]] + free, l[..k] + ([n] + l[k + 1..]))
    ensures forall m :: m in l[..k] + ([n] + l[k + 1..]) ==> m in l || m == n
  {
    assert Opened(Closed.Roster, 0);
    var l' := l[..k] + ([n] + l[k + 1..]);
    assert forall i :: 0 <= i < |l'| ==> l'[i] == if i == k then n else l[i];
  }

  /** Putting a fresh pool node at position k. */
  lemma RosterAdd(nodes: set<MmapRegion>, free: seq<MmapRegion>, l: seq<MmapRegion>, k: nat, n: MmapRegion)
    requires Roster(nodes, free, l) && 0 < k <= |l| && n in nodes && n !in free && n !in l
    ensures Roster(nodes, free, l[..k] + ([n] + l[k..]))
    ensures forall m :: m in l[..k] + ([n] + l[k..]) ==> m in l || m == n
  {
    assert Opened(Closed.Roster, 0);
    var l' := l[..k] + ([n] + l[k..]);
    assert forall i :: 0 <= i < |l'| ==> l'[i] == if i < k then l[i] else if i == k then n else l[i - 1];
  }

  lemma ProperBytes(r: Region)
    requires Proper(r)
    ensures Bytes32(r.npages) == r.npages * 4096 && r.npages <= 16384
  {
  }

  lemma RosterOfMembers(nodes: set<MmapRegion>, free: seq<MmapRegion>, list: seq<MmapRegion>, dummy: MmapRegion)
    requires Members(nodes, free, list) && dummy !in nodes
    ensures Roster(nodes, free, [dummy] + list)
  {
    assert Opened(Closed.Roster, 0);
  }

  /** No node of a list is free. */
  lemma RosterTake(nodes: set<MmapRegion>, free: seq<MmapRegion>, l: seq<MmapRegion>)
    requires Roster(nodes, free, l) && forall n :: n in free ==> n in nodes
    ensures forall n :: n in l ==> n !in free
  {
    assert Opened(Closed.Roster, 0);
  }

  lemma RosterTaken(nodes: set<MmapRegion>, free: seq<MmapRegion>, l: seq<MmapRegion>, n: MmapRegion,
                    free': seq<MmapRegion>)
    requires Roster(nodes, free, l) && free == [n] + free' && n in nodes
    ensures Roster(nodes, free', l) && n !in l
  {
    assert Opened(Closed.Roster, 0);
  }

  lemma MembersOfRoster(nodes: set<MmapRegion>, free: seq<MmapRegion>, l: seq<MmapRegion>)
    requires Roster(nodes, free, l)
    ensures l != [] && Members(nodes, free, l[1..])
  {
    assert Opened(Closed.Roster, 0);
  }

  /** A node just taken off the free list is on no process list. */
  lemma MembersTake(nodes: set<MmapRegion>, free: seq<MmapRegion>, list: seq<MmapRegion>, n: MmapRegion,
                    free': seq<MmapRegion>)
    requires Members(nodes, free, list) && free == [n] + free'
    ensures Members(nodes, free', list) && n !in list
  {
    assert Opened(Closed.Roster, 0);
  }

  /** Two pairs of lists hold the same nodes. */
  ghost predicate SameNodes(f1: seq<MmapRegion>, l1: seq<MmapRegion>, f2: seq<MmapRegion>, l2: seq<MmapRegion>) {
    forall k {:trigger Opened(Closed.Roster, k)} :: Sealed(Closed.Roster, k) ==>
      && (forall n :: n in f1 ==> n in f2 || n in l2)
      && (forall n :: n in l1 ==> n in f2 || n in l2)
      && (forall n :: n in f2 ==> n in f1 || n in l1)
      && (forall n :: n in l2 ==> n in f1 || n in l1)
  }

  /** Node by node: who was on one of the two is on one of them, and nobody else. */
  lemma SameNode(f1: seq<MmapRegion>, l1: seq<MmapRegion>, f2: seq<MmapRegion>, l2: seq<MmapRegion>, n: MmapRegion)
    requires SameNodes(f1, l1, f2, l2)
    ensures n in f1 || n in l1 <==> n in f2 || n in l2
  {
    assert Opened(Closed.Roster, 0);
  }

  lemma SameRefl(f: seq<MmapRegion>, l: seq<MmapRegion>)
    ensures SameNodes(f, l, f, l)
  {
  }

  lemma SameTrans(f1: seq<MmapRegion>, l1: seq<MmapRegion>, f2: seq<MmapRegion>, l2: seq<MmapRegion>,
                  f3: seq<MmapRegion>, l3: seq<MmapRegion>)
    requires SameNodes(f1, l1, f2, l2) && SameNodes(f2, l2, f3, l3)
    ensures SameNodes(f1, l1, f3, l3)
  {
    assert Opened(Closed.Roster, 0);
  }

  /** The k-th node leaves the list and is free. */
  lemma SameDrop(f: seq<MmapRegion>, l: seq<MmapRegion>, k: nat)
    requires k < |l|
    ensures SameNodes([l[k]] + f, l[..k] + l[k + 1..], f, l)
  {
    assert forall i :: 0 <= i < |l| ==>
      l[i] == (if i < k then l[..k][i] else if i == k then l[k] else l[k + 1..][i - k - 1]);
    assert forall n :: n in l ==> n in [l[k]] + f || n in l[..k] + l[k + 1..];
  }

  /** A free node comes onto the list. */
  lemma SameAdd(f: seq<MmapRegion>, l: seq<MmapRegion>, k: nat, n: MmapRegion)
    requires k <= |l|
    ensures SameNodes(f, l[..k] + ([n] + l[k..]), [n] + f, l)
  {
    assert l == l[..k] + l[k..];
    assert forall m :: m in l ==> m in l[..k] || m in l[k..];
  }

  /** A free node takes the place of the k-th, which is free then. */
  lemma SameSwap(f: seq<MmapRegion>, l: seq<MmapRegion>, k: nat, n: MmapRegion)
    requires k < |l|
    ensures SameNodes([l[k]] + f, l[..k] + ([n] + l[k + 1..]), [n] + f, l)
  {
    assert l == l[..k] + ([l[k]] + l[k + 1..]);
    assert forall m :: m in l ==> m in l[..k] || m == l[k] || m in l[k + 1..];
  }

  /** The k-th node is freed, but stays on the list behind the new one. */
  lemma SameSpoilt(f: seq<MmapRegion>, l: seq<MmapRegion>, k: nat, n: MmapRegion)
    requires k < |l|
    ensures SameNodes([l[k]] + f, l[..k] + ([n] + l[k..]), [n] + f, l)
  {
    assert l == l[..k] + l[k..] && l[k..][0] == l[k];
    assert forall m :: m in l ==> m in l[..k] || m in l[k..];
  }

  /** Two lists have no node in common. */
  ghost predicate ListsApart(l: seq<MmapRegion>, k: seq<MmapRegion>) {
    forall j {:trigger Opened(Closed.Roster, j)} :: Sealed(Closed.Roster, j) ==> forall n :: n in l ==> n !in k
  }

  /** The nodes at hand are among those there were. */
  lemma SameReach(f1: seq<MmapRegion>, l1: seq<MmapRegion>, f2: seq<MmapRegion>, l2: seq<MmapRegion>)
    requires SameNodes(f1, l1, f2, l2)
    ensures forall i :: 0 <= i < |f1| ==> f1[i] in f2 || f1[i] in l2
    ensures forall i :: 0 <= i < |l1| ==> l1[i] in f2 || l1[i] in l2
  {
    assert Opened(Closed.Roster, 0);
  }

  /** A dummy in front, which is no node of the pool, makes no difference. */
  lemma SameBehind(nodes: set<MmapRegion>, f1: seq<MmapRegion>, l1: seq<MmapRegion>, g1: seq<MmapRegion>,
                   f2: seq<MmapRegion>, l2: seq<MmapRegion>, g2: seq<MmapRegion>)
    requires SameNodes(f1, l1, f2, l2) && Roster(nodes, g1, l1) && Roster(nodes, g2, l2)
    requires l1 != [] && l2 != [] && l1[0] == l2[0]
    requires forall n :: n in f1 || n in f2 ==> n in nodes
    ensures SameNodes(f1, l1[1..], f2, l2[1..])
  {
    assert Opened(Closed.Roster, 0);
    assert (forall n :: n in l1 ==> n == l1[0] || n in l1[1..]) && forall n :: n in l2 ==> n == l2[0] || n in l2[1..];
  }

  /** Splicing a list that is given in pieces. */
  lemma SplicePieces(s: seq<Region>, p: Region, q: Region, t: seq<Region>, m: Region)
    ensures Splice(s + ([p] + t), |s|, |s| + 1, m) == s + ([m] + t)
    ensures Splice(s + ([p] + t), |s| + 1, |s| + 1, m) == s + ([p] + ([m] + t))
    ensures Splice(s + ([p] + ([q] + t)), |s|, |s| + 2, m) == s + ([m] + t)
    ensures Splice(s + ([p] + ([q] + t)), |s| + 1, |s| + 2, m) == s + ([p] + ([m] + t))
  {
  }

  /** First half of mmap_merge (uvm.c:194-198): the predecessor takes cur's pages and cur
      goes back to the pool. */
  method GrowPrev(pool: MmapPool, pre: MmapRegion, cur: MmapRegion, ghost l: seq<MmapRegion>, ghost rs: seq<Region>,
                  ghost k: nat)
    returns (ghost rs': seq<Region>)
    requires pool.Valid() && Headed(pool, l, rs) && 0 < k < |l| && pre == l[k]
    requires cur in pool.nodes && cur !in pool.free && cur !in l && rs[k].npages + cur.npages < TWO32
    modifies pool, pre`npages, cur`freeNext
    ensures pool.Valid() && pool.free == [cur] + old(pool.free)
    ensures rs' == Splice(rs, k, k + 1, Region(rs[k].begin, rs[k].npages + cur.npages)) && Headed(pool, l, rs')
    ensures pre.npages == old(pre.npages) + cur.npages
  {
    Around(l, rs, k);
    RosterTwo(pool.nodes, pool.free, l, k, cur);
    RosterFree(pool.nodes, pool.free, l, cur);
    ghost var m := Region(rs[k].begin, rs[k].npages + cur.npages);
    pre.npages := Add32(pre.npages, cur.npages);
    pool.Release(cur);
    rs' := Splice(rs, k, k + 1, m);
    Reseat(l, rs, k, m);
  }

  /** uvm.c:203-205: cur takes the pages of next, which goes back to the pool. */
  method Swallow(pool: MmapPool, cur: MmapRegion, next: MmapRegion)
    requires pool.Valid() && next in pool.nodes && next !in pool.free && cur != next && cur.npages + next.npages < TWO32
    modifies pool, cur`npages, cur`next, next`freeNext
    ensures pool.Valid() && pool.free == [next] + old(pool.free)
    ensures cur.npages == old(cur.npages) + next.npages && cur.next == next.next
  {
    cur.npages := Add32(cur.npages, next.npages);
    cur.next := next.next;
    pool.Release(next);
  }

  /** Second half of mmap_merge on a list node (uvm.c:201-207). */
  method TakeNext(pool: MmapPool, cur: MmapRegion, next: MmapRegion, ghost l: seq<MmapRegion>, ghost rs: seq<Region>,
                  ghost k: nat)
    returns (ghost l': seq<MmapRegion>, ghost rs': seq<Region>)
    requires pool.Valid() && Headed(pool, l, rs) && 0 < k && k + 1 < |l| && cur == l[k] && next == l[k + 1]
    requires rs[k].npages + rs[k + 1].npages < TWO32
    modifies pool, cur`npages, cur`next, next`freeNext
    ensures pool.Valid() && pool.free == [next] + old(pool.free)
    ensures l' == l[..k + 1] + l[k + 2..] && forall n :: n in l' ==> n in l
    ensures rs' == Splice(rs, k, k + 2, Region(rs[k].begin, rs[k].npages + rs[k + 1].npages)) && Headed(pool, l', rs')
  {
    AroundTwo(l, rs, k);
    RosterTwo(pool.nodes, pool.free, l, k, cur);
    RosterDrop(pool.nodes, pool.free, l, k + 1);
    ghost var m := Region(rs[k].begin, rs[k].npages + rs[k + 1].npages);
    SplicePieces(rs[..k], rs[k], rs[k + 1], rs[k + 2..], m);
    Swallow(pool, cur, next);
    l', rs' := l[..k + 1] + l[k + 2..], Splice(rs, k, k + 2, m);
    Rebuild(l[..k], rs[..k], cur, m, l[k + 2..], rs[k + 2..]);
    assert l' == l[..k] + ([cur] + l[k + 2..]);
  }

  /** uvm.c:210-213 with no neighbour touching. */
  method LinkBetween(pool: MmapPool, pre: MmapRegion, cur: MmapRegion, ghost l: seq<MmapRegion>, ghost rs: seq<Region>,
                     ghost k: nat)
    returns (ghost l': seq<MmapRegion>, ghost rs': seq<Region>)
    requires pool.Valid() && Headed(pool, l, rs) && k < |l| && pre == l[k]
    requires cur in pool.nodes && cur !in pool.free && cur !in l
    modifies pre`next, cur`next
    ensures l' == l[..k + 1] + ([cur] + l[k + 1..]) && forall n :: n in l' ==> n in l || n == cur
    ensures rs' == Splice(rs, k + 1, k + 1, Region(cur.begin, cur.npages)) && Headed(pool, l', rs')
  {
    Around(l, rs, k);
    RosterTwo(pool.nodes, pool.free, l, k, cur);
    RosterAdd(pool.nodes, pool.free, l, k + 1, cur);
    ghost var m := Region(cur.begin, cur.npages);
    cur.next := pre.next;
    pre.next := cur;
    Behind(l, rs, k, cur, m);
    l', rs' := l[..k + 1] + ([cur] + l[k + 1..]), Splice(rs, k + 1, k + 1, m);
  }

  /** The list after the successor-only shape: with the repair the new node stands for the
      swallowed one; as written it stands in front of it. */
  ghost predicate Swallowed(version: Version, pool: MmapPool, pre: MmapRegion, cur: MmapRegion, m: Region,
                            l: seq<MmapRegion>, rs: seq<Region>, k: nat, l': seq<MmapRegion>, rs': seq<Region>)
    requires k + 1 < |l| && |rs| == |l|
    reads pool, l'
  {
    if version.Repaired? then
      && l' == l[..k + 1] + ([cur] + l[k + 2..]) && (forall n :: n in l' ==> n in l || n == cur)
      && rs' == Splice(rs, k + 1, k + 2, m) && Headed(pool, l', rs')
    else
      && l' == l[..k + 1] + ([cur] + l[k + 1..])
      && rs' == rs[..k + 1] + ([m] + rs[k + 1..]) && Seg(l', rs', null)
  }

  /** uvm.c:202-213 with only the successor touching. As written, line 211 overwrites the
      link that line 204 has just set, so the list runs on through the node just freed. */
  method LinkSwallowing(pool: MmapPool, pre: MmapRegion, cur: MmapRegion, next: MmapRegion,
                        ghost l: seq<MmapRegion>, ghost rs: seq<Region>, ghost k: nat, version: Version)
    returns (ghost l': seq<MmapRegion>, ghost rs': seq<Region>)
    requires pool.Valid() && Headed(pool, l, rs) && k + 1 < |l| && pre == l[k] && next == l[k + 1]
    requires cur in pool.nodes && cur !in pool.free && cur !in l && cur.npages + rs[k + 1].npages < TWO32
    modifies pool, pre`next, cur, next`freeNext
    ensures pool.Valid() && pool.free == [next] + old(pool.free)
    ensures Swallowed(version, pool, pre, cur, Region(old(cur.begin), old(cur.npages) + rs[k + 1].npages), l, rs, k, l',
                      rs')
  {
    AroundTwo(l, rs, k);
    RosterTwo(pool.nodes, pool.free, l, k, cur);
    RosterSwap(pool.nodes, pool.free, l, k + 1, cur);
    ghost var m := Region(cur.begin, cur.npages + rs[k + 1].npages);
    Swallow(pool, cur, next);
    if version.AsWritten? {
      cur.next := pre.next;
    }
    pre.next := cur;
    if version.Repaired? {
      SwallowedOnce(l, rs, k, pre, cur, m);
      l', rs' := l[..k + 1] + ([cur] + l[k + 2..]), Splice(rs, k + 1, k + 2, m);
    } else {
      SwallowedTwice(l, rs, k, pre, cur, next, m);
      l', rs' := l[..k + 1] + ([cur] + l[k + 1..]), rs[..k + 1] + ([m] + rs[k + 1..]);
    }
  }

  lemma SwallowedOnce(l: seq<MmapRegion>, rs: seq<Region>, k: nat, pre: MmapRegion, cur: MmapRegion, m: Region)
    requires k + 1 < |l| && |rs| == |l| && pre == l[k] && pre.next == cur && Is(pre, rs[k]) && Is(cur, m)
    requires Seg(l[..k], rs[..k], pre) && Seg(l[k + 2..], rs[k + 2..], null) && cur.next == First(l[k + 2..], null)
    ensures Seg(l[..k + 1] + ([cur] + l[k + 2..]), Splice(rs, k + 1, k + 2, m), null)
  {
    RebuildTwo(l[..k], rs[..k], pre, rs[k], cur, m, l[k + 2..], rs[k + 2..]);
    assert l[..k + 1] + ([cur] + l[k + 2..]) == l[..k] + ([pre] + ([cur] + l[k + 2..]));
    assert Splice(rs, k + 1, k + 2, m) == rs[..k] + ([rs[k]] + ([m] + rs[k + 2..]));
  }

  lemma SwallowedTwice(l: seq<MmapRegion>, rs: seq<Region>, k: nat, pre: MmapRegion, cur: MmapRegion, next: MmapRegion,
                       m: Region)
    requires k + 1 < |l| && |rs| == |l| && pre == l[k] && next == l[k + 1] && pre.next == cur && Is(pre, rs[k])
    requires Is(cur, m)
    requires Seg(l[..k], rs[..k], pre) && Seg(l[k + 2..], rs[k + 2..], null)
    requires cur.next == next && next.next == First(l[k + 2..], null) && Is(next, rs[k + 1])
    ensures Seg(l[..k + 1] + ([cur] + l[k + 1..]), rs[..k + 1] + ([m] + rs[k + 1..]), null)
  {
    assert SegNodes([], [], next);
    Rebuild([], [], next, rs[k + 1], l[k + 2..], rs[k + 2..]);
    assert [] + ([next] + l[k + 2..]) == l[k + 1..] && [] + ([rs[k + 1]] + rs[k + 2..]) == rs[k + 1..];
    RebuildTwo(l[..k], rs[..k], pre, rs[k], cur, m, l[k + 1..], rs[k + 1..]);
    assert l[..k + 1] + ([cur] + l[k + 1..]) == l[..k] + ([pre] + ([cur] + l[k + 1..]));
    assert rs[..k + 1] + ([m] + rs[k + 1..]) == rs[..k] + ([rs[k]] + ([m] + rs[k + 1..]));
  }

  /** What the code makes of the list behind the k-th region when the new one is m: by whether
      the predecessor and the successor touch it. */
  function Spliced(version: Version, rs: seq<Region>, m: Region, k: nat, prev: bool, next: bool): seq<Region>
    requires k < |rs| && (next ==> k + 1 < |rs|)
  {
    if prev && next then Splice(rs, k, k + 2, Region(rs[k].begin, rs[k].npages + m.npages + rs[k + 1].npages))
    else if prev then Splice(rs, k, k + 1, Region(rs[k].begin, rs[k].npages + m.npages))
    else if next then
      var both := Region(m.begin, m.npages + rs[k + 1].npages);
      if version.Repaired? then Splice(rs, k + 1, k + 2, both) else rs[..k + 1] + ([both] + rs[k + 1..])
    else Splice(rs, k + 1, k + 1, m)
  }

  lemma GrownAt(rs: seq<Region>, k: nat, m: Region)
    requires k < |rs|
    ensures var grown := Splice(rs, k, k + 1, m);
      |grown| == |rs| && grown[k] == m && (k + 1 < |rs| ==> grown[k + 1] == rs[k + 1])
  {
  }

  lemma GrownTwice(rs: seq<Region>, k: nat, m: Region, p: Region)
    requires k + 1 < |rs|
    ensures Splice(Splice(rs, k, k + 1, m), k, k + 2, p) == Splice(rs, k, k + 2, p)
  {
    var grown := Splice(rs, k, k + 1, m);
    assert grown[..k] == rs[..k] && grown[k + 2..] == rs[k + 2..];
  }

  lemma PlacedBoth(version: Version, rs: seq<Region>, r: Region, npages: nat, k: nat)
    requires k < |rs| && r.npages <= npages && TouchesPrev(rs, r, k + 1) && TouchesNext(rs, r, k + 1)
    ensures Placed(version, rs, r, npages - r.npages, k + 1) ==
      Spliced(version, rs, Region(r.begin, npages), k, true, true)
  {
  }

  lemma PlacedPrev(version: Version, rs: seq<Region>, r: Region, npages: nat, k: nat)
    requires k < |rs| && r.npages <= npages && TouchesPrev(rs, r, k + 1) && !TouchesNext(rs, r, k + 1)
    ensures Placed(version, rs, r, npages - r.npages, k + 1) ==
      Spliced(version, rs, Region(r.begin, npages), k, true, false)
  {
  }

  lemma PlacedAlone(version: Version, rs: seq<Region>, r: Region, npages: nat, k: nat)
    requires k < |rs| && r.npages <= npages && !TouchesPrev(rs, r, k + 1)
    ensures Placed(version, rs, r, npages - r.npages, k + 1)
         == Spliced(version, rs, Region(r.begin, npages), k, false, TouchesNext(rs, r, k + 1))
  {
  }

  lemma PlacedSpliced(version: Version, rs: seq<Region>, r: Region, npages: nat, k: nat)
    requires k < |rs| && r.npages <= npages
    ensures Placed(version, rs, r, npages - r.npages, k + 1)
         == Spliced(version, rs, Region(r.begin, npages), k, TouchesPrev(rs, r, k + 1), TouchesNext(rs, r, k + 1))
  {
    if TouchesPrev(rs, r, k + 1) && TouchesNext(rs, r, k + 1) {
      PlacedBoth(version, rs, r, npages, k);
    } else if TouchesPrev(rs, r, k + 1) {
      PlacedPrev(version, rs, r, npages, k);
    } else {
      PlacedAlone(version, rs, r, npages, k);
    }
  }

  /** A region of npages pages that starts at `begin` ends, in 32-bit sizes, at `end`. */
  ghost predicate Abuts(begin: nat, npages: nat, end: nat) {
    forall k {:trigger Opened(Closed.Links, k)} :: Sealed(Closed.Links, k) ==> begin + Bytes32(npages) == end
  }

  lemma AbutsIs(begin: nat, npages: nat, end: nat)
    ensures Abuts(begin, npages, end) <==> begin + Bytes32(npages) == end
  {
    assert Opened(Closed.Links, 0);
  }

  lemma NodeIs(l: seq<MmapRegion>, rs: seq<Region>, k: nat)
    requires Seg(l, rs, null) && k < |l|
    ensures l[k].next == Next(l, k, null) && Is(l[k], rs[k])
  {
    assert Opened(Closed.Links, 0);
    assert l[k].next == Next(l, k, null);
  }

  /** The comparison of lines 194 and 202. */
  method AbutsNode(n: MmapRegion, next: MmapRegion) returns (yes: bool)
    ensures yes <==> Abuts(n.begin, n.npages, next.begin)
  {
    yes := n.begin + Bytes32(n.npages) == next.begin;
    assert Opened(Closed.Links, 0);
  }

  /** The region of a node as the 32-bit size computations of the code see it. */
  ghost function SeenRegion(n: MmapRegion): Region
    reads n`begin, n`npages
  {
    Region(n.begin, Seen(n.npages))
  }

  lemma TouchesPrevTest(rs: seq<Region>, r: Region, npages: nat, k: nat)
    requires k < |rs| && LiesBelow(rs[0]) && ProperBehind(rs)
    requires r.npages == Seen(npages) && Placeable(r) && npages < TWO32
    ensures Abuts(rs[k].begin, rs[k].npages, r.begin) <==> TouchesPrev(rs, r, k + 1)
    ensures TouchesPrev(rs, r, k + 1) ==> k > 0 && rs[k].npages + npages < TWO32 - 0x8000
  {
    ProperAt(rs, k);
    assert rs[0].npages < 0x10_0000 && rs[0].End() < MMAP_BEGIN by {
      assert Opened(Closed.Links, 0);
    }
    SeenExact(rs[k].npages);
    AbutsIs(rs[k].begin, rs[k].npages, r.begin);
    if TouchesPrev(rs, r, k + 1) {
      assert k > 0 && r.npages <= 0x4000;
      SeenSmall(npages);
    }
  }

  /** The second test of mmap_merge when the first has succeeded. */
  lemma TouchesBothTest(rs: seq<Region>, r: Region, npages: nat, k: nat)
    requires k + 1 < |rs| && ProperBehind(rs) && k > 0 && TouchesPrev(rs, r, k + 1)
    requires r.npages == Seen(npages) && Placeable(r)
    ensures Abuts(rs[k].begin, rs[k].npages + npages, rs[k + 1].begin) <==> TouchesNext(rs, r, k + 1)
  {
    ProperAt(rs, k);
    SeenSum(rs[k].npages, npages);
    BytesSeen(rs[k].npages + npages);
    AbutsIs(rs[k].begin, rs[k].npages + npages, rs[k + 1].begin);
  }

  lemma TouchesNextTest(rs: seq<Region>, r: Region, npages: nat, k: nat)
    requires k + 1 < |rs| && ProperBehind(rs)
    requires r.npages == Seen(npages) && Placeable(r) && npages < TWO32
    ensures Abuts(r.begin, npages, rs[k + 1].begin) <==> TouchesNext(rs, r, k + 1)
    ensures TouchesNext(rs, r, k + 1) ==> npages + rs[k + 1].npages < TWO32
    ensures rs[k + 1].npages <= 16384
  {
    ProperAt(rs, k + 1);
    BytesSeen(npages);
    AbutsIs(r.begin, npages, rs[k + 1].begin);
    if TouchesNext(rs, r, k + 1) {
      SeenSmall(npages);
    }
  }

  /** Behind the dummy stand proper regions. */
  ghost predicate ProperBehind(rs: seq<Region>) {
    forall k {:trigger Opened(Closed.Links, k)} :: Sealed(Closed.Links, k) ==>
      forall i :: 1 <= i < |rs| ==> Proper(rs[i])
  }

  lemma ProperAt(rs: seq<Region>, k: nat)
    requires ProperBehind(rs) && k < |rs|
    ensures k > 0 ==> Proper(rs[k]) && Bytes32(rs[k].npages) == rs[k].npages * 4096 && rs[k].npages <= 16384
  {
    assert Opened(Closed.Links, 0);
    if k > 0 {
      ProperBytes(rs[k]);
    }
  }

  /** The tests of mmap_merge (lines 194 and 202) decide whether the predecessor and the
      successor of the new node touch it. */
  ghost predicate Tests(pre: MmapRegion, cur: MmapRegion, l: seq<MmapRegion>, rs: seq<Region>, k: nat, prev: bool,
                        next: bool)
    reads pre, cur, l
  {
    && k < |l| == |rs| && pre == l[k] && pre.next == Next(l, k, null)
    && (Abuts(pre.begin, pre.npages, cur.begin) <==> prev)
    && (prev ==> k > 0 && rs[k].npages + cur.npages < TWO32 - 0x8000)
    && (k + 1 < |l| ==>
          && rs[k + 1].npages <= 16384
          && (Abuts(cur.begin, cur.npages, l[k + 1].begin) <==> next)
          && (prev ==> (Abuts(pre.begin, pre.npages + cur.npages, l[k + 1].begin) <==> next)))
    && (next ==> k + 1 < |l| && cur.npages + rs[k + 1].npages < TWO32)
  }

  lemma TouchTests(pre: MmapRegion, cur: MmapRegion, l: seq<MmapRegion>, rs: seq<Region>, r: Region, k: nat)
    requires Seg(l, rs, null) && k < |l| && pre == l[k] && LiesBelow(rs[0]) && ProperBehind(rs)
    requires r == SeenRegion(cur) && Placeable(r) && cur.npages < TWO32
    ensures Tests(pre, cur, l, rs, k, TouchesPrev(rs, r, k + 1), TouchesNext(rs, r, k + 1))
  {
    NodeIs(l, rs, k);
    TouchesPrevTest(rs, r, cur.npages, k);
    if k + 1 < |l| {
      NodeIs(l, rs, k + 1);
      TouchesNextTest(rs, r, cur.npages, k);
      if TouchesPrev(rs, r, k + 1) {
        TouchesBothTest(rs, r, cur.npages, k);
      }
    }
  }

  /** mmap_merge (uvm.c:189-214) for a node cur that belongs right behind pre, the k-th node.
      The outcome is the list with the region inserted and merged with every neighbour it
      touches, the swallowed nodes returned to the pool, unless only the successor touches
      and the code is taken as written: then the list keeps the node that was just freed. */
  method MmapMerge(pool: MmapPool, pre: MmapRegion, cur: MmapRegion, ghost l: seq<MmapRegion>, ghost rs: seq<Region>,
                   ghost k: nat, version: Version)
    returns (ghost l': seq<MmapRegion>, ghost rs': seq<Region>)
    requires pool.Valid() && Headed(pool, l, rs) && k < |l| && pre == l[k]
    requires cur in pool.nodes && cur !in pool.free && cur !in l
    requires ProperBehind(rs)
    requires Placeable(SeenRegion(cur)) && cur.npages < TWO32
    modifies pool, pre, cur, l`freeNext
    ensures pool.Valid() && Seg(l', rs', null) && l' != [] && l'[0] == l[0]
    ensures var r := old(SeenRegion(cur));
      && rs' == Placed(version, rs, r, old(cur.npages) - r.npages, k + 1)
      && if Spoils(version, rs, r, k + 1) then
           l' == l[..k + 1] + ([cur] + l[k + 1..]) && pool.free == [l[k + 1]] + old(pool.free)
         else
           && Headed(pool, l', rs')
           && (forall n :: n in l' ==> n in l || n == cur)
           && |l'| + |pool.free| == |l| + 1 + |old(pool.free)|
    ensures SameNodes(pool.free, l', [cur] + old(pool.free), l)
    ensures exists f :: Roster(pool.nodes, f, l')
  {
    ghost var r := SeenRegion(cur);
    TouchTests(pre, cur, l, rs, r, k);
    PlacedSpliced(version, rs, r, cur.npages, k);
    l', rs' := MergeNodes(pool, pre, cur, l, rs, k, version, TouchesPrev(rs, r, k + 1), TouchesNext(rs, r, k + 1));
  }

  /** The body of mmap_merge, once it is known what its tests decide. */
  method MergeNodes(pool: MmapPool, pre: MmapRegion, cur: MmapRegion, ghost l: seq<MmapRegion>, ghost rs: seq<Region>,
                    ghost k: nat, version: Version, ghost prev: bool, ghost both: bool)
    returns (ghost l': seq<MmapRegion>, ghost rs': seq<Region>)
    requires pool.Valid() && Headed(pool, l, rs) && Tests(pre, cur, l, rs, k, prev, both)
    requires cur in pool.nodes && cur !in pool.free && cur !in l
    modifies pool, pre, cur, l`freeNext
    ensures pool.Valid() && Seg(l', rs', null) && l' != [] && l'[0] == l[0]
    ensures rs' == Spliced(version, rs, Region(old(cur.begin), old(cur.npages)), k, prev, both)
    ensures if version.AsWritten? && both && !prev then
              l' == l[..k + 1] + ([cur] + l[k + 1..]) && pool.free == [l[k + 1]] + old(pool.free)
            else
              && Headed(pool, l', rs')
              && (forall n :: n in l' ==> n in l || n == cur)
              && |l'| + |pool.free| == |l| + 1 + |old(pool.free)|
    ensures SameNodes(pool.free, l', [cur] + old(pool.free), l)
    ensures exists f :: Roster(pool.nodes, f, l')
  {
    var next := pre.next;
    RosterTwo(pool.nodes, pool.free, l, k, cur);
    var abuts := AbutsNode(pre, cur);
    if abuts {
      l', rs' := MergePrev(pool, pre, cur, next, l, rs, k, both);
      return;
    }
    l', rs' := LinkNode(pool, pre, cur, next, l, rs, k, version, both);
  }

  /** uvm.c:201-213 when the predecessor does not touch. */
  method LinkNode(pool: MmapPool, pre: MmapRegion, cur: MmapRegion, next: MmapRegion?,
                  ghost l: seq<MmapRegion>, ghost rs: seq<Region>, ghost k: nat, version: Version, ghost both: bool)
    returns (ghost l': seq<MmapRegion>, ghost rs': seq<Region>)
    requires pool.Valid() && Headed(pool, l, rs) && Tests(pre, cur, l, rs, k, false, both) && next == pre.next
    requires cur in pool.nodes && cur !in pool.free && cur !in l
    modifies pool, pre`next, cur, l`freeNext
    ensures pool.Valid() && Seg(l', rs', null) && l' != [] && l'[0] == l[0]
    ensures rs' == Spliced(version, rs, Region(old(cur.begin), old(cur.npages)), k, false, both)
    ensures if version.AsWritten? && both then
              l' == l[..k + 1] + ([cur] + l[k + 1..]) && pool.free == [l[k + 1]] + old(pool.free)
            else
              && Headed(pool, l', rs')
              && (forall n :: n in l' ==> n in l || n == cur)
              && |l'| + |pool.free| == |l| + 1 + |old(pool.free)|
    ensures SameNodes(pool.free, l', [cur] + old(pool.free), l)
    ensures exists f :: Roster(pool.nodes, f, l')
  {
    var abuts := false;
    if next != null {
      abuts := AbutsNode(cur, next);
    }
    RosterAdd(pool.nodes, pool.free, l, k + 1, cur);
    if abuts {
      SameSwap(pool.free, l, k + 1, cur);
      SameSpoilt(pool.free, l, k + 1, cur);
      l', rs' := LinkSwallowing(pool, pre, cur, next, l, rs, k, version);
    } else {
      SameAdd(pool.free, l, k + 1, cur);
      l', rs' := LinkBetween(pool, pre, cur, l, rs, k);
    }
  }

  /** uvm.c:194-207 when the predecessor touches: it takes cur's pages and, if the successor
      touches it then, those of the successor. */
  method MergePrev(pool: MmapPool, pre: MmapRegion, cur: MmapRegion, next: MmapRegion?,
                   ghost l: seq<MmapRegion>, ghost rs: seq<Region>, ghost k: nat, ghost both: bool)
    returns (ghost l': seq<MmapRegion>, ghost rs': seq<Region>)
    requires pool.Valid() && Headed(pool, l, rs) && 0 < k < |l| && pre == l[k]
    requires next == (if k + 1 < |l| then l[k + 1] else null)
    requires cur in pool.nodes && cur !in pool.free && cur !in l && rs[k].npages + cur.npages < TWO32 - 0x8000
    requires both ==> next != null && rs[k + 1].npages <= 16384
    requires next != null ==> (Abuts(pre.begin, pre.npages + cur.npages, next.begin) <==> both)
    modifies pool, pre`npages, pre`next, cur`freeNext, l`freeNext
    ensures pool.Valid() && Headed(pool, l', rs') && l'[0] == l[0] && forall n :: n in l' ==> n in l
    ensures rs' ==
      if both then Splice(rs, k, k + 2, Region(rs[k].begin, rs[k].npages + old(cur.npages) + rs[k + 1].npages))
      else Splice(rs, k, k + 1, Region(rs[k].begin, rs[k].npages + old(cur.npages)))
    ensures |l'| + |pool.free| == |l| + 1 + |old(pool.free)|
    ensures SameNodes(pool.free, l', [cur] + old(pool.free), l)
  {
    RosterTwo(pool.nodes, pool.free, l, k, cur);
    ghost var m := Region(rs[k].begin, rs[k].npages + cur.npages);
    ghost var grown := GrowPrev(pool, pre, cur, l, rs, k);
    GrownAt(rs, k, m);
    l', rs' := TakeTouching(pool, pre, next, l, grown, k, both);
    if both {
      GrownTwice(rs, k, m, Region(m.begin, m.npages + rs[k + 1].npages));
    }
  }

  /** uvm.c:201-207 for a node of the list. */
  method TakeTouching(pool: MmapPool, cur: MmapRegion, next: MmapRegion?,
                      ghost l: seq<MmapRegion>, ghost rs: seq<Region>, ghost k: nat, ghost both: bool)
    returns (ghost l': seq<MmapRegion>, ghost rs': seq<Region>)
    requires pool.Valid() && Headed(pool, l, rs) && 0 < k < |l| && cur == l[k]
    requires next == (if k + 1 < |l| then l[k + 1] else null)
    requires both ==> next != null && rs[k].npages + rs[k + 1].npages < TWO32
    requires next != null ==> (Abuts(cur.begin, cur.npages, next.begin) <==> both)
    modifies pool, cur`npages, cur`next, l`freeNext
    ensures pool.Valid() && Headed(pool, l', rs') && l'[0] == l[0] && forall n :: n in l' ==> n in l
    ensures rs' == if both then Splice(rs, k, k + 2, Region(rs[k].begin, rs[k].npages + rs[k + 1].npages)) else rs
    ensures |l'| + |pool.free| == |l| + |old(pool.free)|
    ensures SameNodes(pool.free, l', old(pool.free), l)
  {
    RosterTwo(pool.nodes, pool.free, l, k, cur);
    l', rs' := l, rs;
    SameRefl(pool.free, l);
    if next != null {
      var abuts := AbutsNode(cur, next);
      if abuts {
        SameDrop(pool.free, l, k + 1);
        l', rs' := TakeNext(pool, cur, next, l, rs, k);
      }
    }
  }

  /** uvm.c:345-351, the unmapped range covers the k-th region: unlink and free its node. */
  method DropNode(pool: MmapPool, pre: MmapRegion, cur: MmapRegion, ghost l: seq<MmapRegion>, ghost rs: seq<Region>,
                  ghost k: nat)
    returns (ghost l': seq<MmapRegion>, ghost rs': seq<Region>)
    requires pool.Valid() && Headed(pool, l, rs) && 0 < k < |l| && pre == l[k - 1] && cur == l[k]
    modifies pool, pre`next, cur`freeNext
    ensures pool.Valid() && pool.free == [cur] + old(pool.free)
    ensures l' == l[..k] + l[k + 1..] && rs' == rs[..k] + rs[k + 1..] && Headed(pool, l', rs')
    ensures forall n :: n in l' ==> n in l
  {
    AroundTwo(l, rs, k - 1);
    RosterTwo(pool.nodes, pool.free, l, k - 1, cur);
    RosterDrop(pool.nodes, pool.free, l, k);
    pre.next := cur.next;
    pool.Release(cur);
    DroppedSeg(l, rs, k, pre);
    l', rs' := l[..k] + l[k + 1..], rs[..k] + rs[k + 1..];
  }

  lemma DroppedSeg(l: seq<MmapRegion>, rs: seq<Region>, k: nat, pre: MmapRegion)
    requires 0 < k < |l| && |rs| == |l| && pre == l[k - 1]
    requires Seg(l[..k - 1], rs[..k - 1], pre) && Seg(l[k + 1..], rs[k + 1..], null)
    requires pre.next == First(l[k + 1..], null) && Is(pre, rs[k - 1])
    ensures Seg(l[..k] + l[k + 1..], rs[..k] + rs[k + 1..], null)
  {
    Rebuild(l[..k - 1], rs[..k - 1], pre, rs[k - 1], l[k + 1..], rs[k + 1..]);
    assert l[..k] + l[k + 1..] == l[..k - 1] + ([pre] + l[k + 1..]);
    assert rs[..k] + rs[k + 1..] == rs[..k - 1] + ([rs[k - 1]] + rs[k + 1..]);
  }

  /** uvm.c:384-385, 397: the k-th region shrinks in place. */
  method TrimNode(pool: MmapPool, cur: MmapRegion, begin: nat, npages: nat, ghost l: seq<MmapRegion>,
                  ghost rs: seq<Region>, ghost k: nat)
    returns (ghost rs': seq<Region>)
    requires pool.Valid() && Headed(pool, l, rs) && 0 < k < |l| && cur == l[k]
    modifies cur`begin, cur`npages
    ensures rs' == rs[..k] + ([Region(begin, npages)] + rs[k + 1..]) && Headed(pool, l, rs')
    ensures cur.begin == begin && cur.npages == npages
  {
    Around(l, rs, k);
    RosterTwo(pool.nodes, pool.free, l, k, cur);
    cur.begin, cur.npages := begin, npages;
    rs' := rs[..k] + ([Region(begin, npages)] + rs[k + 1..]);
    Reseat(l, rs, k, Region(begin, npages));
  }

  /** mmap_region_alloc while a list behind a dummy head stands. */
  method TakeBehind(pool: MmapPool, ghost l: seq<MmapRegion>, ghost rs: seq<Region>) returns (node: MmapRegion?)
    requires pool.Valid() && Headed(pool, l, rs)
    modifies pool, pool.free
    ensures pool.Valid() && Headed(pool, l, rs)
    ensures node == null <==> old(pool.free) == []
    ensures node == null ==> pool.free == []
    ensures node != null ==>
      && [node] + pool.free == old(pool.free) && node in old(pool.free)
      && node in pool.nodes && node !in pool.free && node !in l
  {
    RosterTake(pool.nodes, pool.free, l);
    ghost var free := pool.free;
    node := pool.Alloc();
    if node != null {
      RosterTaken(pool.nodes, free, l, node, pool.free);
      assert node == free[0];
    }
    assert Seg(l, rs, null) by {
      assert Opened(Closed.Links, 0);
      assert forall i :: 0 <= i < |l| ==> l[i] in l;
    }
  }

  /** uvm.c:354-367: the unmapped range lies strictly inside the k-th region: the node
      keeps the left part and a new node behind it takes the right part. The left part is
      cut off before the new node is asked for, so without one the right part is lost. */
  method SplitNode(pool: MmapPool, cur: MmapRegion, begin: nat, end: nat, ghost l: seq<MmapRegion>,
                   ghost rs: seq<Region>, ghost k: nat)
    returns (node: MmapRegion?, ghost l': seq<MmapRegion>, ghost rs': seq<Region>)
    requires pool.Valid() && Headed(pool, l, rs) && 0 < k < |l| && cur == l[k]
    requires rs[k].begin < begin <= end < rs[k].End() && Proper(rs[k])
    modifies pool, pool.free, cur`begin, cur`npages, cur`next
    ensures pool.Valid()
    ensures var left := Region(rs[k].begin, (begin - rs[k].begin) / 4096);
      if old(pool.free) == [] then
        node == null && pool.free == [] && l' == l && rs' == rs[..k] + ([left] + rs[k + 1..]) && Headed(pool, l, rs')
      else
        && node != null && [node] + pool.free == old(pool.free)
        && l' == l[..k + 1] + ([node] + l[k + 1..])
        && rs' == rs[..k] + ([left] + ([Region(end, (rs[k].End() - end) / 4096)] + rs[k + 1..]))
        && Headed(pool, l', rs')
  {
    Around(l, rs, k);
    var oldEnd := cur.begin + Bytes32(cur.npages);
    rs' := TrimNode(pool, cur, cur.begin, (begin - cur.begin) / 4096, l, rs, k);
    ghost var left, right := rs'[k], Region(end, (rs[k].End() - end) / 4096);
    SplicePieces(rs[..k], left, left, rs[k + 1..], right);
    node, l', rs' := AddBehind(pool, cur, end, (oldEnd - end) / 4096, l, rs', k);
  }

  /** uvm.c:362-367: a new node behind the k-th one. */
  method AddBehind(pool: MmapPool, cur: MmapRegion, begin: nat, npages: nat, ghost l: seq<MmapRegion>,
                   ghost rs: seq<Region>, ghost k: nat)
    returns (node: MmapRegion?, ghost l': seq<MmapRegion>, ghost rs': seq<Region>)
    requires pool.Valid() && Headed(pool, l, rs) && 0 < k < |l| && cur == l[k]
    modifies pool, pool.free, cur`next
    ensures pool.Valid() && Headed(pool, l', rs')
    ensures if old(pool.free) == [] then node == null && pool.free == [] && l' == l && rs' == rs
            else
              && node != null && [node] + pool.free == old(pool.free)
              && l' == l[..k + 1] + ([node] + l[k + 1..]) && rs' == Splice(rs, k + 1, k + 1, Region(begin, npages))
  {
    l', rs' := l, rs;
    node := TakeBehind(pool, l, rs);
    if node == null {
      return;
    }
    node.begin := begin;
    node.npages := npages;
    l', rs' := LinkBetween(pool, cur, node, l, rs, k);
  }

  /** mmap_region_alloc as a process with list `list` sees it. */
  method TakeNode(pool: MmapPool, ghost list: seq<MmapRegion>, ghost regs: seq<Region>) returns (node: MmapRegion?)
    requires pool.Valid() && Seg(list, regs, null) && Members(pool.nodes, pool.free, list)
    modifies pool, pool.free
    ensures pool.Valid() && Seg(list, regs, null) && Members(pool.nodes, pool.free, list)
    ensures node == null <==> old(pool.free) == []
    ensures node == null ==> pool.free == []
    ensures node != null ==>
      [node] + pool.free == old(pool.free) && node in pool.nodes && node !in pool.free && node !in list
  {
    ghost var free := pool.free;
    node := pool.Alloc();
    if node != null {
      MembersTake(pool.nodes, free, list, node, pool.free);
    }
    assert Seg(list, regs, null) by {
      assert Opened(Closed.Links, 0);
      assert Opened(Closed.Roster, 0);
    }
  }
}
