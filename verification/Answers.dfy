/** What the memory calls answer, in terms of the addresses that the region list covers and the
    bounds of the areas: the definitions that the code is proved against say no less and no more. */
module Answers {
  import opened Layout
  import opened Outcomes
  import opened Regions
  import opened Spaces
  import opened Calls
  import opened Runs
  import opened Kernel

  // ---------- brk and faults ----------

  /** sys_brk: 0 asks for the top; any other top above the code page is accepted up to the
      mmap area, and refused, with nothing changed, above it. */
  lemma BrkAnswers(s: Space, newTop: nat, t: Space, ret: int)
    requires Inv(s) && newTop < TWO64 && Brk(s, newTop, t, ret)
    ensures newTop == 0 ==> ret == s.heapTop && t == s
    ensures USER_BASE < newTop <= MMAP_BEGIN ==> ret == newTop == t.heapTop
    ensures MMAP_BEGIN < newTop <= TWO64 - PGSIZE ==> ret == -1 && t == s
  {
    PgRoundUpExact(newTop);
    PgRoundUpExact(s.heapTop);
  }

  /** A page fault is handled exactly from the mmap area's end up to the stack's bottom. */
  lemma FaultAnswers(s: Space, va: nat, t: Space, ret: int)
    requires Inv(s) && Fault(s, va, t, ret)
    ensures ret == if MMAP_END <= va < VA_MAX - (s.ustack + 2) * 4096 then 0 else -1
    ensures ret == -1 ==> t == s
  {
  }

  // ---------- mmap ----------

  /** n pages have room at address a: they lie in the mmap area, and no address is covered. */
  ghost predicate Room(regs: seq<Region>, a: nat, n: nat) {
    && MMAP_BEGIN <= a && a + n * 4096 <= MMAP_END
    && forall x :: a <= x < a + n * 4096 ==> !Covers(regs, x)
  }

  /** A region meets none of the list exactly if none of its addresses is covered. */
  lemma FreeMeans(regs: seq<Region>, a: nat, n: nat)
    requires Canonical(regs) && n > 0
    ensures Free(regs, Region(a, n)) <==> forall x :: a <= x < a + n * 4096 ==> !Covers(regs, x)
  {
    if Free(regs, Region(a, n)) {
      forall x | a <= x < a + n * 4096
        ensures !Covers(regs, x)
      {
        assert forall i :: 0 <= i < |regs| && In(regs[i], x) ==> Overlaps(Region(a, n), regs[i]);
      }
    }
    if forall x :: a <= x < a + n * 4096 ==> !Covers(regs, x) {
      forall i | 0 <= i < |regs|
        ensures !Overlaps(Region(a, n), regs[i])
      {
        assert Proper(regs[i]);
        var x := if regs[i].begin < a then a else regs[i].begin;
        assert Overlaps(Region(a, n), regs[i]) ==> In(regs[i], x) && x < a + n * 4096;
        assert In(regs[i], x) ==> Covers(regs, x);
      }
    }
  }

  lemma FitsMeans(regs: seq<Region>, a: nat, n: nat)
    requires Canonical(regs) && n > 0
    ensures Fits(regs, a, n) <==> Room(regs, a, n)
  {
    FreeMeans(regs, a, n);
  }

  /** The pages of a length. */
  function PagesFor(len: nat): nat { (len + 4095) / 4096 }

  lemma PagesForExact(len: nat)
    requires len <= TWO32 - PGSIZE
    ensures PageCount32(len) == PagesFor(len) && Seen(PagesFor(len)) == PagesFor(len) < 0x10_0000
  {
    Bytes32Exact(len);
    SeenExact(PageCount32(len));
  }

  /** sys_mmap, for lengths up to 2^32 - PGSIZE. With a start address it answers that address
      exactly if the request is not empty, a node is free, and the range has room; else -1. A range
      that wraps is answered with its start address. Without one it answers the lowest address
      with room, and -1 exactly if there is none, no node, or nothing is asked for. */
  lemma MmapAnswers(version: Version, s: Space, begin: nat, len: nat, perm: nat, t: Space, ret: int)
    requires Inv(s) && begin < TWO64 && len <= TWO32 - PGSIZE && Mmap(version, s, begin, len, perm, t, ret)
    ensures var n := PagesFor(len);
      && (begin != 0 && begin + n * 4096 < TWO64 ==>
            ret == if n > 0 && s.nodes > 0 && Room(s.regs, begin, n) then begin else -1)
      && (begin != 0 && begin + n * 4096 >= TWO64 ==> ret == if n > 0 && s.nodes > 0 then begin else -1)
      && (begin == 0 ==> (ret == -1 <==> n == 0 || s.nodes == 0 || forall a: nat :: !Room(s.regs, a, n)))
      && (begin == 0 && ret != -1 ==>
            ret >= 0 && Room(s.regs, ret, n) && forall a: nat :: a < ret ==> !Room(s.regs, a, n))
    ensures ret == -1 ==> t == s
  {
    var n := PagesFor(len);
    PagesForExact(len);
    if n > 0 {
      if begin == 0 {
        forall a: nat
          ensures Fits(s.regs, a, n) <==> Room(s.regs, a, n)
        {
          FitsMeans(s.regs, a, n);
        }
      } else {
        FreeMeans(s.regs, begin, n);
        InAreaCheckExact(begin, n * 4096);
        if begin + n * 4096 >= TWO64 {
          WrapsFree(s.regs, begin, n);
        }
      }
    }
  }

  /** A range that wraps lies above every region and slips through the range check. */
  lemma WrapsFree(regs: seq<Region>, begin: nat, n: nat)
    requires Canonical(regs) && begin < TWO64 && n < 0x10_0000 && begin + n * 4096 >= TWO64
    ensures Free(regs, Region(begin, n)) && InAreaCheck(begin, n * 4096)
  {
    assert (begin + n * 4096) % 0x1_0000_0000_0000_0000 == begin + n * 4096 - TWO64;
    assert forall i :: 0 <= i < |regs| ==> Proper(regs[i]);
  }

  // ---------- munmap ----------

  /** Neighbouring covered addresses lie in one region. */
  lemma SameRegion(regs: seq<Region>, x: int, i: nat)
    requires Canonical(regs) && i < |regs| && In(regs[i], x) && Covers(regs, x + 1)
    ensures In(regs[i], x + 1)
  {
    var j :| 0 <= j < |regs| && In(regs[j], x + 1);
    assert j == i;
  }

  /** So does a run of them. */
  lemma {:induction false} OneRegion(regs: seq<Region>, x: int, y: int, i: nat)
    requires Canonical(regs) && i < |regs| && In(regs[i], x) && x <= y
    requires forall z :: x <= z <= y ==> Covers(regs, z)
    ensures In(regs[i], y)
    decreases y - x
  {
    if x < y {
      OneRegion(regs, x, y - 1, i);
      SameRegion(regs, y - 1, i);
    }
  }

  /** A range lies strictly inside a region exactly if it and the addresses before and behind it
      are covered. */
  lemma InsideMeans(regs: seq<Region>, b: nat, e: nat)
    requires Canonical(regs) && b <= e
    ensures (exists i: nat :: StrictlyInside(regs, b, e, i)) <==> forall x :: b - 1 <= x <= e ==> Covers(regs, x)
  {
    if i: nat :| StrictlyInside(regs, b, e, i) {
      assert forall x :: b - 1 <= x <= e ==> In(regs[i], x);
    }
    if forall x :: b - 1 <= x <= e ==> Covers(regs, x) {
      assert Covers(regs, b - 1);
      var i :| 0 <= i < |regs| && In(regs[i], b - 1);
      OneRegion(regs, b - 1, e, i);
      assert StrictlyInside(regs, b, e, i);
    }
  }

  /** The first address of a region. */
  ghost predicate Starts(regs: seq<Region>, a: int) { Covers(regs, a) && !Covers(regs, a - 1) }

  lemma StartMeans(regs: seq<Region>, a: int)
    requires Canonical(regs)
    ensures Starts(regs, a) <==> exists i :: 0 <= i < |regs| && regs[i].begin == a
  {
    if Starts(regs, a) {
      var i :| 0 <= i < |regs| && In(regs[i], a);
      assert In(regs[i], a - 1) ==> Covers(regs, a - 1);
    }
    forall i | 0 <= i < |regs| && regs[i].begin == a
      ensures Starts(regs, a)
    {
      assert Proper(regs[i]) && In(regs[i], a);
      forall j | 0 <= j < |regs|
        ensures !In(regs[j], a - 1)
      {
        assert j < i ==> regs[j].End() < regs[i].begin;
        assert i < j ==> regs[i].End() < regs[j].begin;
      }
    }
  }

  /** The start of the range is in the middle of a region. */
  lemma MiddleMeans(regs: seq<Region>, b: int)
    requires Canonical(regs)
    ensures (exists i :: 0 <= i < |regs| && regs[i].begin < b < regs[i].End())
      <==> Covers(regs, b - 1) && Covers(regs, b)
  {
    forall i | 0 <= i < |regs| && regs[i].begin < b < regs[i].End()
      ensures Covers(regs, b - 1) && Covers(regs, b)
    {
      assert In(regs[i], b - 1) && In(regs[i], b);
    }
    if Covers(regs, b - 1) && Covers(regs, b) {
      var i :| 0 <= i < |regs| && In(regs[i], b - 1);
      SameRegion(regs, b - 1, i);
      assert regs[i].begin < b < regs[i].End();
    }
  }

  lemma HaltsMeans(regs: seq<Region>, b: nat, e: nat)
    requires Canonical(regs) && b < e
    ensures AnyHalts(regs, b, e) <==>
      || (b % 4096 != 0 && Covers(regs, b - 1) && Covers(regs, b))
      || exists a :: b <= a < e < a + PGSIZE && Starts(regs, a)
  {
    MiddleMeans(regs, b);
    if b % 4096 != 0 && Covers(regs, b - 1) && Covers(regs, b) {
      var i :| 0 <= i < |regs| && regs[i].begin < b < regs[i].End();
      assert Halts(regs[i], b, e);
    }
    forall a | b <= a < e < a + PGSIZE && Starts(regs, a)
      ensures AnyHalts(regs, b, e)
    {
      StartMeans(regs, a);
      var i :| 0 <= i < |regs| && regs[i].begin == a;
      assert Halts(regs[i], b, e);
    }
    if AnyHalts(regs, b, e) {
      var i :| 0 <= i < |regs| && Halts(regs[i], b, e);
      StartMeans(regs, regs[i].begin);
    }
  }

  /** sys_munmap, for lengths up to 2^32 - PGSIZE: it fails exactly if no node is free and the
      range and its two neighbours are covered; otherwise it halts exactly if the range starts off
      a page boundary in the middle of a region, or ends less than a page behind the start of one. */
  lemma MunmapAnswers(s: Space, begin: nat, len: nat)
    requires Inv(s) && len <= TWO32 - PGSIZE
    ensures var n, e := PagesFor(len), begin + PagesFor(len) * 4096;
      var fails := n > 0 && s.nodes == 0 && forall x :: begin - 1 <= x <= e ==> Covers(s.regs, x);
      && (MunmapHalts(s, begin, len) <==>
            && n > 0 && !fails
            && ((begin % 4096 != 0 && Covers(s.regs, begin - 1) && Covers(s.regs, begin))
                || exists a :: begin <= a < e < a + PGSIZE && Starts(s.regs, a)))
      && (forall t, ret :: Munmap(s, begin, len, t, ret) ==> ret == if fails then -1 else 0)
  {
    PagesForExact(len);
    var n := PagesFor(len);
    if n > 0 {
      InsideMeans(s.regs, begin, begin + n * 4096);
      HaltsMeans(s.regs, begin, begin + n * 4096);
    }
  }

  lemma WholePagesNeverHalt(r: Region, b: nat, n: nat)
    requires Proper(r) && b % 4096 == 0 && n > 0
    ensures !Halts(r, b, b + n * 4096)
  {
  }

  lemma AlignedNeverHalts(s: Space, begin: nat, len: nat)
    requires Inv(s) && len <= TWO32 - PGSIZE && begin % 4096 == 0
    ensures !MunmapHalts(s, begin, len)
  {
    PagesForExact(len);
    if PagesFor(len) > 0 {
      forall i | 0 <= i < |s.regs|
        ensures !Halts(s.regs[i], begin, begin + PagesFor(len) * 4096)
      {
        WholePagesNeverHalt(s.regs[i], begin, PagesFor(len));
      }
    }
  }

  /** A range from a page boundary on: munmap never halts, and unless it fails it takes exactly
      the range from the list, and the invariant stays. */
  lemma MunmapAligned(s: Space, begin: nat, len: nat, t: Space, ret: int)
    requires Inv(s) && len <= TWO32 - PGSIZE && begin % 4096 == 0
    ensures !MunmapHalts(s, begin, len)
    ensures Munmap(s, begin, len, t, ret) && s.nodes > 0 ==>
      && ret == 0 && Inv(t) && |t.regs| + t.nodes == |s.regs| + s.nodes && OtherFrames(t) == OtherFrames(s)
      && forall a :: Covers(t.regs, a) <==> Covers(s.regs, a) && !(begin <= a < begin + PagesFor(len) * 4096)
  {
    AlignedNeverHalts(s, begin, len);
    if Munmap(s, begin, len, t, ret) && s.nodes > 0 {
      PagesForExact(len);
      MunmapExact(s, begin, len, t, ret);
      if PagesFor(len) > 0 {
        MunmapCovers(s, begin, len, t);
      }
    }
  }

  // ---------- when the kernel may halt ----------

  /** The calls that can halt the kernel with so many user and kernel pages free, for lengths up to
      2^32 - PGSIZE: a brk, mmap or fault that needs more pages, two kernel pages for each; an mmap
      that is not empty with an unaligned start; a fault outside the stack area; and munmap as
      MunmapAnswers says. */
  lemma HaltsOnly(s: Space, call: Call, ufree: nat, kfree: nat)
    requires Inv(s) && Admissible(call) && MayHalt(s, call, ufree, kfree)
    ensures call.BrkCall? ==>
      var n := PagesFor(call.newTop) - PagesFor(s.heapTop);
      call.newTop <= MMAP_BEGIN && (ufree < n || kfree < 2 * n)
    ensures call.MmapCall? && call.len <= TWO32 - PGSIZE ==>
      var n := PagesFor(call.len);
      n > 0 && (call.begin % 4096 != 0 || ufree < n || kfree < 2 * n)
    ensures call.FaultCall? ==>
      var n := TF_PAGE - s.ustack - call.va / 4096;
      call.va < MMAP_END || n <= 0 || ufree < n || kfree < 2 * n
    ensures call.MunmapCall? ==> MunmapHalts(s, call.begin, call.len)
  {
    match call
    case BrkCall(newTop) =>
      PgRoundUpExact(newTop);
      PgRoundUpExact(s.heapTop);
    case MmapCall(begin, len) =>
      if len <= TWO32 - PGSIZE {
        PagesForExact(len);
      }
    case MunmapCall(begin, len) =>
    case FaultCall(va) =>
  }
}
