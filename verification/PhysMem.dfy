/** Physical pages and the two allocators of src/kernel/mem/pmem.c. A free list lives
    inside the free pages themselves: word 0 of a free page is the address of the next. */
module PhysMem {
  import opened Layout
  import opened Outcomes

  /** A physical page as 512 machine words. */
  type Frame = s: seq<nat> | |s| == 512 witness seq(512, _ => 0)
  type Memory = map<nat, Frame>

  const ZERO_FRAME: Frame := seq(512, _ => 0)

  /** All words of the page are 0. */
  predicate Blank(mem: Memory, p: nat) {
    p in mem && forall i :: 0 <= i < 512 ==> mem[p][i] == 0
  }

  /** Base addresses of the pages of [begin, end). */
  ghost function Frames(begin: nat, end: nat): set<nat> {
    set p | begin <= p < end && WholePage(begin, end, p)
  }

  predicate WholePage(begin: nat, end: nat, p: nat) {
    begin <= p && p + PGSIZE <= end && (p - begin) % 4096 == 0
  }

  /** Following the in-page links from head visits exactly `chain` and ends at NULL. */
  ghost predicate Linked(mem: Memory, head: nat, chain: seq<nat>) {
    && head == (if chain == [] then 0 else chain[0])
    && (forall i :: 0 <= i < |chain| ==> chain[i] in mem && chain[i] != 0)
    && forall i {:trigger Successor(chain, i)} :: 0 <= i < |chain| ==> mem[chain[i]][0] == Successor(chain, i)
  }

  function Successor(chain: seq<nat>, i: nat): nat {
    if i + 1 < |chain| then chain[i + 1] else 0
  }

  /** Page after page downwards from an address. */
  ghost predicate Descending(chain: seq<nat>, from: nat) {
    forall i :: 0 <= i < |chain| ==> chain[i] == from - (i + 1) * 4096
  }

  lemma DescendingMore(chain: seq<nat>, addr: nat)
    requires Descending(chain, addr)
    ensures Descending([addr] + chain, addr + PGSIZE)
  {
    assert forall i :: 0 < i < |chain| + 1 ==> ([addr] + chain)[i] == chain[i - 1];
  }

  ghost predicate Distinct<T>(s: seq<T>) {
    forall i, j :: 0 <= i < j < |s| ==> s[i] != s[j]
  }

  /** The pages on the free list and the pages handed out partition the region. */
  ghost predicate Partition(frames: set<nat>, chain: seq<nat>, owned: set<nat>) {
    && Distinct(chain)
    && (forall i :: 0 <= i < |chain| ==> chain[i] in frames && chain[i] !in owned)
    && owned <= frames
    && forall p :: p in frames && p !in owned ==> p in chain
  }

  class AllocRegion {
    const begin: nat
    const end: nat
    var head: nat
    var allocable: nat
    ghost var chain: seq<nat>     // the free list, first element first
    ghost var owned: set<nat>     // pages currently handed out

    constructor (begin: nat, end: nat)
      ensures this.begin == begin && this.end == end
    {
      this.begin, this.end := begin, end;
    }

    /** The assertions of pmem_free (pmem.c:87-88). */
    predicate InRange(page: nat) {
      page % 4096 == 0 && begin <= page < end
    }

    ghost predicate Ok(mem: Memory)
      reads this
    {
      && 0 < begin
      && begin % 4096 == 0 && end % 4096 == 0 && end <= TWO64
      && Frames(begin, end) <= mem.Keys
      && Linked(mem, head, chain)
      && Partition(Frames(begin, end), chain, owned)
      && allocable == |chain|
    }
  }

  /** Memory that agrees on the free pages carries the same free list. */
  lemma LinkedFrame(mem: Memory, mem': Memory, head: nat, chain: seq<nat>)
    requires Linked(mem, head, chain)
    requires mem.Keys <= mem'.Keys
    requires forall p :: p in chain ==> mem'[p] == mem[p]
    ensures Linked(mem', head, chain)
  {
    forall i | 0 <= i < |chain|
      ensures mem'[chain[i]][0] == Successor(chain, i)
    {
      assert chain[i] in chain;
    }
  }

  /** Whole pages at or above addr. */
  ghost function FramesFrom(begin: nat, end: nat, addr: nat): set<nat> {
    set p | p in Frames(begin, end) && p >= addr
  }

  lemma NextFrame(begin: nat, end: nat, addr: nat)
    requires begin <= addr && (addr - begin) % 4096 == 0 && addr + PGSIZE <= end
    ensures addr in FramesFrom(begin, end, addr)
    ensures FramesFrom(begin, end, addr) - {addr} == FramesFrom(begin, end, addr + PGSIZE)
    ensures (addr + PGSIZE - begin) % 4096 == 0
  {
    assert WholePage(begin, end, addr);
    forall p | p in FramesFrom(begin, end, addr) && p != addr
      ensures p >= addr + PGSIZE
    {
      assert (p - begin) - (addr - begin) > 0;
    }
  }

  lemma FramesAreAligned(begin: nat, end: nat, p: nat)
    requires begin % 4096 == 0 && end <= TWO64 && p in Frames(begin, end)
    ensures IsPageBase(p) && begin <= p < end
  {
  }

  /** Popping the head of a free list. */
  lemma PopKeeps(mem: Memory, head: nat, chain: seq<nat>, frames: set<nat>, owned: set<nat>, page: Frame)
    requires Linked(mem, head, chain) && Partition(frames, chain, owned) && chain != []
    ensures Linked(mem[head := page], mem[head][0], chain[1..])
    ensures Partition(frames, chain[1..], owned + {head})
  {
    assert mem[chain[0]][0] == Successor(chain, 0);
    forall i | 0 <= i < |chain| - 1
      ensures mem[head := page][chain[1..][i]][0] == Successor(chain[1..], i)
    {
      assert chain[1..][i] == chain[i + 1] != chain[0];
      assert Successor(chain, i + 1) == Successor(chain[1..], i);
    }
    forall p | p in frames && p !in owned + {head}
      ensures p in chain[1..]
    {
      var i :| 0 <= i < |chain| && chain[i] == p;
      assert chain[1..][i - 1] == p;
    }
  }

  /** Pushing a page that is not on the list, its word 0 overwritten with the old head. */
  lemma PushKeeps(mem: Memory, head: nat, chain: seq<nat>, frames: set<nat>, owned: set<nat>, p: nat)
    requires Linked(mem, head, chain) && Partition(frames, chain, owned)
    requires p in owned && p in mem && p != 0
    ensures Linked(mem[p := mem[p][0 := head]], p, [p] + chain)
    ensures Partition(frames, [p] + chain, owned - {p})
  {
    var mem', chain' := mem[p := mem[p][0 := head]], [p] + chain;
    forall i | 0 <= i < |chain'|
      ensures mem'[chain'[i]][0] == Successor(chain', i)
    {
      if i > 0 {
        assert chain'[i] == chain[i - 1];
        assert mem[chain[i - 1]][0] == Successor(chain, i - 1) == Successor(chain', i);
      }
    }
    forall q | q in frames && q !in owned - {p}
      ensures q in [p] + chain
    {
      if q != p {
        assert q in chain;
      }
    }
  }

  class Pmem {
    var mem: Memory
    const kern: AllocRegion
    const user: AllocRegion

    /** select_region (pmem.c:6-9) */
    function Select(inKernel: bool): AllocRegion {
      if inKernel then kern else user
    }

    ghost predicate Valid()
      reads this, kern, user
    {
      && kern != user
      && kern.owned <= mem.Keys && user.owned <= mem.Keys && kern.owned !! user.owned
      && forall k {:trigger Opened(Closed.FreeLists, k)} :: Sealed(Closed.FreeLists, k) ==> RegionsOk()
    }

    ghost predicate RegionsOk()
      reads this, kern, user
    {
      && kern.end <= user.begin
      && kern.Ok(mem)
      && user.Ok(mem)
    }

    /** What the owner of a user page may rely on when giving it back. */
    lemma OwnedUserPages(p: nat)
      requires Valid() && p in user.owned
      ensures user.InRange(p) && IsPageBase(p)
    {
      assert Opened(Closed.FreeLists, 0);
      FramesAreAligned(user.begin, user.end, p);
      assert (p - user.begin) % 4096 == 0;
    }

    /** Kernel pages are not pages of the user region. */
    lemma OwnedKernelPages(p: nat)
      requires Valid() && p in kern.owned
      ensures !user.InRange(p) && kern.InRange(p) && IsPageBase(p)
    {
      assert Opened(Closed.FreeLists, 0);
      FramesAreAligned(kern.begin, kern.end, p);
    }

    /** Pages in use by someone: neither region's free list contains them. */
    ghost function Owned(): set<nat>
      reads kern, user
    {
      kern.owned + user.owned
    }

    /** region_setup (pmem.c:11-29): thread every whole page of the region, the last one first. */
    method RegionSetup(region: AllocRegion)
      requires 0 < region.begin && region.begin % 4096 == 0
      requires region.end % 4096 == 0 && region.end <= TWO64
      requires Frames(region.begin, region.end) <= mem.Keys
      modifies this, region
      ensures region.Ok(mem) && region.owned == {}
      ensures region.begin <= region.end ==>
        |region.chain| * 4096 == region.end - region.begin && Descending(region.chain, region.end)
      ensures mem.Keys == old(mem.Keys)
      ensures forall p :: p in mem && p !in Frames(region.begin, region.end) ==> mem[p] == old(mem)[p]
    {
      region.head, region.allocable := 0, 0;
      region.chain, region.owned := [], Frames(region.begin, region.end);
      if region.begin >= region.end {
        return;
      }
      var addr := region.begin;
      assert Threaded(region, addr);
      while addr + PGSIZE <= region.end
        invariant region.begin <= addr <= region.end && Threading(region, addr)
        invariant mem.Keys == old(mem.Keys)
        invariant forall p :: p in mem && p !in Frames(region.begin, region.end) ==> mem[p] == old(mem)[p]
      {
        Thread(region, addr);
        addr := addr + PGSIZE;
      }
      assert Opened(Closed.FreeLists, 0);
    }

    /** The pages below addr are on the list, the last one first; the others are still owned. */
    ghost predicate Threaded(region: AllocRegion, addr: nat)
      reads this, region
    {
      && region.begin <= addr && (addr - region.begin) % 4096 == 0
      && Linked(mem, region.head, region.chain)
      && Partition(Frames(region.begin, region.end), region.chain, region.owned)
      && region.owned == FramesFrom(region.begin, region.end, addr)
      && region.allocable == |region.chain| && |region.chain| * 4096 == addr - region.begin
      && Descending(region.chain, addr)
    }

    ghost predicate Threading(region: AllocRegion, addr: nat)
      reads this, region
    {
      forall k {:trigger Opened(Closed.FreeLists, k)} :: Sealed(Closed.FreeLists, k) ==> Threaded(region, addr)
    }

    /** The loop body of region_setup: push one page. */
    method Thread(region: AllocRegion, addr: nat)
      requires 0 < region.begin && Frames(region.begin, region.end) <= mem.Keys
      requires Threading(region, addr) && addr + PGSIZE <= region.end
      modifies this, region
      ensures addr in old(mem) && addr in Frames(region.begin, region.end)
      ensures addr in mem && mem == old(mem)[addr := mem[addr]]
      ensures Threading(region, addr + PGSIZE)
    {
      assert Opened(Closed.FreeLists, 0);
      NextFrame(region.begin, region.end, addr);
      DescendingMore(region.chain, addr);
      PushKeeps(mem, region.head, region.chain, Frames(region.begin, region.end), region.owned, addr);
      mem := mem[addr := mem[addr][0 := region.head]];
      region.head := addr;
      region.allocable := region.allocable + 1;
      region.chain := [addr] + region.chain;
      region.owned := region.owned - {addr};
      assert Threaded(region, addr + PGSIZE);
    }

    /** pmem_init (pmem.c:33-55): the kernel takes the first KERN_PAGES pages. */
    constructor (allocBegin: nat, allocEnd: nat, initial: Memory)
      requires 0 < allocBegin && allocBegin % 4096 == 0 && allocEnd % 4096 == 0
      requires allocBegin + KERN_PAGES * 4096 <= allocEnd <= TWO64
      requires Frames(allocBegin, allocEnd) <= initial.Keys
      ensures Valid() && Owned() == {} && fresh(kern) && fresh(user)
      ensures kern.begin == allocBegin && user.end == allocEnd
      ensures kern.end == user.begin == allocBegin + KERN_PAGES * 4096
      ensures |kern.chain| == KERN_PAGES && Descending(kern.chain, kern.end)
      ensures |user.chain| == (allocEnd - allocBegin) / 4096 - KERN_PAGES && Descending(user.chain, allocEnd)
    {
      var split := allocBegin + KERN_PAGES * 4096;
      mem := initial;
      kern := new AllocRegion(allocBegin, split);
      user := new AllocRegion(split, allocEnd);
      new;
      RegionSetup(kern);
      ghost var m := mem;
      RegionSetup(user);
      LinkedFrame(m, mem, kern.head, kern.chain);
      assert RegionsOk();
    }

    /** pmem_alloc (pmem.c:59-79): panics exactly when the list is empty, otherwise pops
        the head and returns it zeroed. */
    method Alloc(inKernel: bool) returns (r: Outcome<nat>)
      requires Valid()
      modifies this, Select(inKernel)
      ensures r.Panicked? <==> old(Select(inKernel).chain) == []
      ensures r.Returned? ==>
        && Valid()
        && [r.value] + Select(inKernel).chain == old(Select(inKernel).chain)
        && r.value !in old(Owned()) && IsPageBase(r.value)
        && Select(inKernel).owned == old(Select(inKernel).owned) + {r.value}
        && mem == old(mem)[r.value := ZERO_FRAME] && mem.Keys == old(mem.Keys)
    {
      assert Opened(Closed.FreeLists, 0);
      var region := Select(inKernel);
      if region.head == 0 {
        return Panicked;
      }
      assert region.head == region.chain[0];
      FramesAreAligned(region.begin, region.end, region.head);
      var page := Pop(region, Select(!inKernel));
      return Returned(page);
    }

    /** pmem.c:65-76: unlink the head of one region and clear it. */
    method Pop(region: AllocRegion, ghost other: AllocRegion) returns (page: nat)
      requires region != other && region.Ok(mem) && other.Ok(mem) && region.head != 0
      requires Frames(region.begin, region.end) !! Frames(other.begin, other.end)
      modifies this, region
      ensures region.Ok(mem) && other.Ok(mem)
      ensures [page] + region.chain == old(region.chain)
      ensures page !in old(region.owned) && page !in other.owned
      ensures region.owned == old(region.owned) + {page}
      ensures mem == old(mem)[page := ZERO_FRAME] && mem.Keys == old(mem.Keys)
    {
      page := region.head;
      PopKeeps(mem, page, region.chain, Frames(region.begin, region.end), region.owned, ZERO_FRAME);
      assert page == region.chain[0];
      LinkedFrame(mem, mem[page := ZERO_FRAME], other.head, other.chain);
      region.head := mem[page][0];
      region.allocable := region.allocable - 1;
      region.chain := region.chain[1..];
      region.owned := region.owned + {page};
      mem := mem[page := ZERO_FRAME];
    }

    /** pmem_free (pmem.c:83-100): panics exactly on an address that is not a page of the
        region, and otherwise links the page in front of the list. A page that was handed out
        is free then. A page that was free already is accepted all the same, and what is left
        is no list any more: it never ends. */
    method Free(page: nat, inKernel: bool) returns (r: Outcome<()>)
      requires Valid()
      modifies this, Select(inKernel)
      ensures r.Panicked? <==> !Select(inKernel).InRange(page)
      ensures r.Returned? ==>
        && page in old(mem) && mem == old(mem)[page := old(mem)[page][0 := old(Select(inKernel).head)]]
        && Select(inKernel).head == page && Select(inKernel).allocable == old(Select(inKernel).allocable) + 1
      ensures r.Returned? && page in old(Select(inKernel).owned) ==>
        && Valid()
        && Select(inKernel).chain == [page] + old(Select(inKernel).chain)
        && Select(inKernel).owned == old(Select(inKernel).owned) - {page}
      ensures r.Returned? && page !in old(Select(inKernel).owned) ==> !IsList(mem, Select(inKernel).head)
    {
      assert Opened(Closed.FreeLists, 0);
      var region := Select(inKernel);
      if !region.InRange(page) {
        return Panicked;
      }
      assert WholePage(region.begin, region.end, page);
      if page !in region.owned {
        FreeExact(mem, region.head, region.chain, page);
      }
      Push(region, Select(!inKernel), page);
      return Returned(());
    }

    /** pmem.c:90-96: link one page in front of a region's list. */
    method Push(region: AllocRegion, ghost other: AllocRegion, page: nat)
      requires region != other && region.Ok(mem) && other.Ok(mem) && page in Frames(region.begin, region.end)
      requires Frames(region.begin, region.end) !! Frames(other.begin, other.end)
      modifies this, region
      ensures page in old(mem) && mem == old(mem)[page := old(mem)[page][0 := old(region.head)]]
      ensures region.head == page && region.allocable == old(region.allocable) + 1
      ensures page in old(region.owned) ==>
        && region.Ok(mem) && other.Ok(mem)
        && region.chain == [page] + old(region.chain)
        && region.owned == old(region.owned) - {page}
    {
      ghost var mem' := mem[page := mem[page][0 := region.head]];
      if page in region.owned {
        PushKeeps(mem, region.head, region.chain, Frames(region.begin, region.end), region.owned, page);
        LinkedFrame(mem, mem', other.head, other.chain);
      }
      mem := mem[page := mem[page][0 := region.head]];
      region.head := page;
      region.allocable := region.allocable + 1;
      region.chain := [page] + region.chain;
      region.owned := region.owned - {page};
    }

    /** A store by the owner of a page: whatever is written, both free lists survive. */
    method Store(page: nat, i: nat, w: nat)
      requires Valid() && page in Owned() && i < 512
      modifies this
      ensures Valid()
      ensures page in old(mem) && mem == old(mem)[page := old(mem)[page][i := w]]
    {
      assert Opened(Closed.FreeLists, 0);
      mem := mem[page := mem[page][i := w]];
    }

    /** memmove of a whole page onto an owned page. */
    method CopyFrame(dst: nat, src: nat)
      requires Valid() && dst in Owned() && src in mem
      modifies this
      ensures Valid()
      ensures src in old(mem) && mem == old(mem)[dst := old(mem)[src]]
    {
      assert Opened(Closed.FreeLists, 0);
      mem := mem[dst := mem[src]];
    }
  }

  // ---------- what a free list is ----------

  /** n steps along the in-page links. */
  ghost function Walk(mem: Memory, head: nat, n: nat): nat
    decreases n
  {
    if n == 0 || head !in mem then head else Walk(mem, mem[head][0], n - 1)
  }

  /** Walking a free list visits its pages in order and reaches NULL after the last. */
  lemma {:induction false} WalkVisits(mem: Memory, head: nat, chain: seq<nat>, n: nat)
    requires Linked(mem, head, chain) && n <= |chain|
    ensures Walk(mem, head, n) == if n < |chain| then chain[n] else 0
    decreases n
  {
    if n > 0 {
      assert mem[chain[0]][0] == Successor(chain, 0);
      forall i | 0 <= i < |chain[1..]|
        ensures mem[chain[1..][i]][0] == Successor(chain[1..], i)
      {
        assert mem[chain[i + 1]][0] == Successor(chain, i + 1);
      }
      WalkVisits(mem, mem[head][0], chain[1..], n - 1);
    }
  }

  /** The counter is exact: free and owned pages together are all pages of the region. */
  lemma {:induction false} CountFree(frames: set<nat>, chain: seq<nat>, owned: set<nat>)
    requires Partition(frames, chain, owned)
    ensures |chain| + |owned| == |frames|
  {
    if chain == [] {
      assert frames == owned;
    } else {
      var p, rest := chain[0], chain[1..];
      forall q | q in frames && q !in owned + {p}
        ensures q in rest
      {
        var i :| 0 <= i < |chain| && chain[i] == q;
        assert rest[i - 1] == q;
      }
      CountFree(frames, rest, owned + {p});
    }
  }

  /** Giving back a page that is already free makes the list endless: no walk from it ever
      reaches NULL. */
  lemma {:induction false} NeverNull(mem: Memory, head: nat, chain: seq<nat>, k: nat, at: nat, n: nat)
    requires Linked(mem, head, chain) && Distinct(chain) && k < |chain| && at <= k
    ensures Walk(mem[chain[k] := mem[chain[k]][0 := head]], chain[at], n) != 0
    decreases n
  {
    var mem' := mem[chain[k] := mem[chain[k]][0 := head]];
    if n > 0 {
      assert mem[chain[at]][0] == Successor(chain, at);
      if at == k {
        assert mem'[chain[at]][0] == chain[0];
        NeverNull(mem, head, chain, k, 0, n - 1);
      } else {
        assert mem'[chain[at]][0] == chain[at + 1];
        NeverNull(mem, head, chain, k, at + 1, n - 1);
      }
    }
  }

  ghost predicate IsList(mem: Memory, head: nat) {
    exists chain :: Linked(mem, head, chain)
  }

  /** pmem_free does not notice a double free; what it leaves is a free list exactly when the
      page was not free already. */
  lemma FreeExact(mem: Memory, head: nat, chain: seq<nat>, p: nat)
    requires Linked(mem, head, chain) && Distinct(chain) && p in mem && p != 0
    ensures IsList(mem[p := mem[p][0 := head]], p) <==> p !in chain
  {
    var mem' := mem[p := mem[p][0 := head]];
    if p in chain {
      var k :| 0 <= k < |chain| && chain[k] == p;
      forall chain' | Linked(mem', p, chain')
        ensures false
      {
        WalkVisits(mem', p, chain', |chain'|);
        NeverNull(mem, head, chain, k, k, |chain'|);
      }
    } else {
      var chain' := [p] + chain;
      forall i | 0 <= i < |chain'|
        ensures mem'[chain'[i]][0] == Successor(chain', i)
      {
        if i > 0 {
          assert mem[chain[i - 1]][0] == Successor(chain, i - 1) == Successor(chain', i);
        }
      }
      assert Linked(mem', p, chain');
    }
  }
}
