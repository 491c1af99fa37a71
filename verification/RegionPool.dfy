/** The node store of src/kernel/mem/mmap.c: N_MMAP nodes, each with a region and two
    links. `next` chains the regions of a process (mmap.next in the source), `freeNext`
    chains the free nodes (the wrapper's own next). */
module RegionPool {
  import opened Layout
  import opened Outcomes

  class MmapRegion {
    var begin: nat
    var npages: nat
    var next: MmapRegion?
    var freeNext: MmapRegion?

    constructor ()
      ensures begin == 0 && npages == 0 && next == null
    {
      begin, npages, next, freeNext := 0, 0, null, null;
    }
  }

  ghost predicate DistinctNodes(s: seq<MmapRegion>) {
    forall i, j :: 0 <= i < j < |s| ==> s[i] != s[j]
  }

  function NodeAfter(s: seq<MmapRegion>, i: int): MmapRegion? {
    if 0 <= i + 1 < |s| then s[i + 1] else null
  }

  class MmapPool {
    var head: MmapRegion?               // list_head.next
    ghost var free: seq<MmapRegion>     // the free list, first node first
    ghost const nodes: set<MmapRegion>  // node_list

    ghost predicate Chained()
      reads this, nodes`freeNext, free`freeNext
    {
      && head == NodeAfter(free, -1)
      && DistinctNodes(free)
      && forall i {:trigger NodeAfter(free, i)} :: 0 <= i < |free| ==> free[i].freeNext == NodeAfter(free, i)
    }

    ghost predicate Valid()
      reads this, nodes`freeNext, free`freeNext
    {
      && (forall n :: n in free ==> n in nodes)
      && (head == null <==> free == [])
      && forall k {:trigger Opened(Closed.NodeLinks, k)} :: Sealed(Closed.NodeLinks, k) ==> Chained()
    }

    /** Nodes that are not on the free list: some process list or some caller has them. */
    ghost function Used(): set<MmapRegion>
      reads this
    {
      set n | n in nodes && n !in free
    }

    /** mmap_init (mmap.c:31-41): head insertion of every node. */
    constructor (nodeList: seq<MmapRegion>)
      requires |nodeList| == N_MMAP && DistinctNodes(nodeList)
      modifies nodeList
      ensures Valid() && nodes == (set n | n in nodeList)
      ensures Used() == {} && |free| == N_MMAP
      ensures forall i :: 0 <= i < N_MMAP ==> free[i] == nodeList[N_MMAP - 1 - i]
    {
      head, free := null, [];
      nodes := set n | n in nodeList;
      new;
      assert Chained();
      for i := 0 to N_MMAP
        invariant |free| == i
        invariant forall j :: 0 <= j < i ==> free[j] == nodeList[i - 1 - j]
        invariant Valid()
      {
        assert nodeList[i] in nodes && nodeList[i] !in free;
        Release(nodeList[i]);
      }
      forall n | n in nodes
        ensures n in free
      {
        var i :| 0 <= i < N_MMAP && nodeList[i] == n;
        assert free[N_MMAP - 1 - i] == n;
      }
    }

    /** mmap_region_alloc (mmap.c:43-56): NULL exactly when no node is free, otherwise the
        first free node with its region cleared. */
    method Alloc() returns (node: MmapRegion?)
      requires Valid()
      modifies this, free
      ensures Valid()
      ensures node == null <==> old(free) == []
      ensures node == null ==> free == []
      ensures node != null ==>
        && [node] + free == old(free) && node !in free && node in nodes
        && node.begin == 0 && node.npages == 0 && node.next == null
    {
      assert Opened(Closed.NodeLinks, 0);
      node := head;
      if node != null {
        assert node == free[0] && node in nodes;
        assert node.freeNext == NodeAfter(free, 0);
        head := node.freeNext;
        node.begin, node.npages, node.next := 0, 0, null;
        free := free[1..];
        forall i | 0 <= i < |free|
          ensures free[i].freeNext == NodeAfter(free, i)
        {
          assert NodeAfter(free, i) == NodeAfter(old(free), i + 1);
        }
      }
    }

    /** mmap_region_free (mmap.c:58-69) */
    method Release(node: MmapRegion)
      requires Valid() && node in nodes && node !in free
      modifies this, node`freeNext
      ensures Valid() && free == [node] + old(free)
    {
      assert Opened(Closed.NodeLinks, 0);
      node.freeNext := head;
      head := node;
      free := [node] + free;
      forall i | 0 <= i < |free|
        ensures free[i].freeNext == NodeAfter(free, i)
      {
        if i > 0 {
          assert NodeAfter(free, i) == NodeAfter(old(free), i - 1);
        }
      }
    }
  }

  /** A duplicate-free list and its node set have the same size. */
  lemma {:induction false} DistinctCount(s: seq<MmapRegion>, nodes: set<MmapRegion>)
    requires DistinctNodes(s) && nodes == set n | n in s
    ensures |s| == |nodes|
  {
    if s != [] {
      var last, rest := s[|s| - 1], s[..|s| - 1];
      assert nodes - {last} == set n | n in rest by {
        forall n | n in nodes && n != last
          ensures n in rest
        {
          var i :| 0 <= i < |s| && s[i] == n;
          assert rest[i] == n;
        }
      }
      DistinctCount(rest, nodes - {last});
    }
  }

  /** Every node is free or used, and not both. */
  lemma NodesCount(pool: MmapPool)
    requires pool.Valid()
    ensures |pool.free| + |pool.Used()| == |pool.nodes|
  {
    assert Opened(Closed.NodeLinks, 0);
    var frees := set n | n in pool.free;
    DistinctCount(pool.free, frees);
    assert pool.nodes == frees + pool.Used() && frees !! pool.Used();
  }
}
