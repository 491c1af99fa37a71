/** The fourteen calls of src/user/initcode.c, played back: what they answer, the region list after
    each, and that at the end the address space is what it was. */
module Initcode {
  import opened Layout
  import opened Outcomes
  import opened Regions
  import opened Spaces
  import opened Calls
  import opened Answers
  import opened Runs
  import Kvm

  /** Page i of the mmap area. */
  function At(i: nat): nat { MMAP_BEGIN + i * 4096 }

  function Block(i: nat, n: nat): Region { Region(At(i), n) }

  /** First page and number of pages of the calls' ranges; the seventh asks for no address and gets
      page 13. */
  function Start(i: nat): nat {
    if i < 7 then [4, 10, 2, 12, 7, 0, 13][i]
    else if i < 14 then [10, 0, 17, 15, 19, 22, 21][i - 7]
    else 0
  }

  function Count(i: nat): nat {
    if i < 7 then [3, 2, 2, 1, 3, 2, 10][i]
    else if i < 14 then [5, 10, 2, 2, 2, 1, 1][i - 7]
    else 0
  }

  /** The calls: seven of mmap and seven of munmap. */
  function Script(i: nat): Call {
    if i == 6 then MmapCall(0, Count(i) * 4096)
    else if i < 6 then MmapCall(At(Start(i)), Count(i) * 4096)
    else MunmapCall(At(Start(i)), Count(i) * 4096)
  }

  /** What they answer. */
  function Answer(i: nat): int { if i < 7 then At(Start(i)) else 0 }

  /** The region list after the first i of them. */
  function Expected(i: nat): seq<Region> {
    match i
    case 0 => []
    case 1 => [Block(4, 3)]
    case 2 => [Block(4, 3), Block(10, 2)]
    case 3 => [Block(2, 5), Block(10, 2)]
    case 4 => [Block(2, 5), Block(10, 3)]
    case 5 => [Block(2, 11)]
    case 6 => [Block(0, 13)]
    case 7 => [Block(0, 23)]
    case 8 => [Block(0, 10), Block(15, 8)]
    case 9 => [Block(15, 8)]
    case 10 => [Block(15, 2), Block(19, 4)]
    case 11 => [Block(19, 4)]
    case 12 => [Block(21, 2)]
    case 13 => [Block(21, 1)]
    case _ => []
  }

  lemma Blocks(regs: seq<Region>, a: int)
    requires |regs| <= 2
    ensures Covers(regs, a) <==> (|regs| > 0 && In(regs[0], a)) || (|regs| > 1 && In(regs[1], a))
  {
    if Covers(regs, a) {
      var i :| 0 <= i < |regs| && In(regs[i], a);
    }
  }

  lemma ExpectedOk(i: nat)
    requires i <= 14
    ensures Canonical(Expected(i)) && |Expected(i)| <= 2
    ensures i < 14 ==> Count(i) > 0 && Proper(Block(Start(i), Count(i)))
  {
    if i < 7 {
      FirstOk(i);
    } else {
      LastOk(i);
    }
  }

  lemma FirstOk(i: nat)
    requires i < 7
    ensures Canonical(Expected(i)) && |Expected(i)| <= 2 && Count(i) > 0 && Proper(Block(Start(i), Count(i)))
  {
  }

  lemma LastOk(i: nat)
    requires 7 <= i <= 14
    ensures Canonical(Expected(i)) && |Expected(i)| <= 2
    ensures i < 14 ==> Count(i) > 0 && Proper(Block(Start(i), Count(i)))
  {
  }

  /** The i-th list and range make the next list. */
  lemma JoinsFirst(i: nat, a: int)
    requires 0 <= i < 4
    ensures Covers(Expected(i + 1), a) <==> Covers(Expected(i), a) || In(Block(Start(i), Count(i)), a)
    ensures !(Covers(Expected(i), a) && In(Block(Start(i), Count(i)), a))
  {
    Blocks(Expected(i), a);
    Blocks(Expected(i + 1), a);
  }

  lemma JoinsThen(i: nat, a: int)
    requires 4 <= i < 7
    ensures Covers(Expected(i + 1), a) <==> Covers(Expected(i), a) || In(Block(Start(i), Count(i)), a)
    ensures !(Covers(Expected(i), a) && In(Block(Start(i), Count(i)), a))
  {
    Blocks(Expected(i), a);
    Blocks(Expected(i + 1), a);
  }

  lemma LeavesFirst(i: nat, a: int)
    requires 7 <= i < 10
    ensures Covers(Expected(i + 1), a) <==> Covers(Expected(i), a) && !In(Block(Start(i), Count(i)), a)
  {
    Blocks(Expected(i), a);
    Blocks(Expected(i + 1), a);
  }

  lemma LeavesThen(i: nat, a: int)
    requires 10 <= i < 14
    ensures Covers(Expected(i + 1), a) <==> Covers(Expected(i), a) && !In(Block(Start(i), Count(i)), a)
  {
    Blocks(Expected(i), a);
    Blocks(Expected(i + 1), a);
  }

  /** A granted call on a start address, whose range joins the list as wanted. */
  lemma Granted(s: Space, begin: nat, n: nat, t: Space, ret: int, want: seq<Region>)
    requires Inv(s) && 0 < n < 0x10_0000 && s.nodes > 0 && begin != 0 && Proper(Region(begin, n)) && Canonical(want)
    requires forall a :: Covers(want, a) <==> Covers(s.regs, a) || In(Region(begin, n), a)
    requires forall a :: In(Region(begin, n), a) ==> !Covers(s.regs, a)
    requires Step(Repaired, s, Event(MmapCall(begin, n * 4096), ret), t)
    ensures ret == begin && Inv(t) && t.regs == want && SameElsewhere(s, t)
  {
    assert PagesFor(n * 4096) == n;
    PagesForExact(n * 4096);
    MmapAnswers(Repaired, s, begin, n * 4096, OrFlag(RW, PTE_U), t, ret);
    assert Room(s.regs, begin, n);
    RepairedSane(s, begin, n * 4096, ret);
    StepExact(Repaired, s, Event(MmapCall(begin, n * 4096), ret), t);
    SaneGranted(Repaired, s, begin, n * 4096, t, ret);
    CanonicalUnique(t.regs, want);
  }

  /** The repaired merge is never spoilt. */
  lemma RepairedSane(s: Space, begin: nat, len: nat, ret: int)
    requires Inv(s) && begin <= MMAP_END && len <= TWO32 - PGSIZE
    ensures SaneMmap(Repaired, s, begin, len)
  {
    PagesForExact(len);
  }

  lemma Cleared(s: Space, begin: nat, n: nat, t: Space, ret: int, want: seq<Region>)
    requires Inv(s) && 0 < n < 0x10_0000 && s.nodes > 0 && begin % 4096 == 0 && Canonical(want)
    requires forall a :: Covers(want, a) <==> Covers(s.regs, a) && !In(Region(begin, n), a)
    requires Step(Repaired, s, Event(MunmapCall(begin, n * 4096), ret), t)
    ensures ret == 0 && Inv(t) && t.regs == want && SameElsewhere(s, t)
  {
    assert PagesFor(n * 4096) == n;
    MunmapAligned(s, begin, n * 4096, t, ret);
    StepExact(Repaired, s, Event(MunmapCall(begin, n * 4096), ret), t);
    CanonicalUnique(t.regs, want);
  }

  // ---------- the play ----------

  lemma PlayMmap(s: Space, i: nat, t: Space, ret: int)
    requires i < 6 && Inv(s) && s.regs == Expected(i) && s.nodes > 0
    requires Step(Repaired, s, Event(Script(i), ret), t)
    ensures ret == Answer(i) && Inv(t) && t.regs == Expected(i + 1) && SameElsewhere(s, t)
  {
    ExpectedOk(i);
    ExpectedOk(i + 1);
    forall a
      ensures Covers(Expected(i + 1), a) <==> Covers(s.regs, a) || In(Block(Start(i), Count(i)), a)
      ensures In(Block(Start(i), Count(i)), a) ==> !Covers(s.regs, a)
    {
      if i < 4 {
        JoinsFirst(i, a);
      } else {
        JoinsThen(i, a);
      }
    }
    FewPages(i);
    Granted(s, At(Start(i)), Count(i), t, ret, Expected(i + 1));
  }

  lemma FewPages(i: nat)
    ensures Count(i) <= 10
  {
  }

  lemma PlayMunmap(s: Space, i: nat, t: Space, ret: int)
    requires 7 <= i < 14 && Inv(s) && s.regs == Expected(i) && s.nodes > 0
    requires Step(Repaired, s, Event(Script(i), ret), t)
    ensures ret == Answer(i) && Inv(t) && t.regs == Expected(i + 1) && SameElsewhere(s, t)
  {
    ExpectedOk(i);
    ExpectedOk(i + 1);
    forall a
      ensures Covers(Expected(i + 1), a) <==> Covers(s.regs, a) && !In(Block(Start(i), Count(i)), a)
    {
      if i < 10 {
        LeavesFirst(i, a);
      } else {
        LeavesThen(i, a);
      }
    }
    FewPages(i);
    Cleared(s, At(Start(i)), Count(i), t, ret, Expected(i + 1));
  }

  /** Without a start address the lowest room is behind page 13. */
  lemma PlaySeventh(s: Space, t: Space, ret: int)
    requires Inv(s) && s.regs == Expected(6) && s.nodes > 0
    requires Step(Repaired, s, Event(Script(6), ret), t)
    ensures ret == Answer(6) && Inv(t) && t.regs == Expected(7) && SameElsewhere(s, t)
  {
    ExpectedOk(7);
    assert PagesFor(10 * 4096) == 10;
    PagesForExact(10 * 4096);
    MmapAnswers(Repaired, s, 0, 10 * 4096, OrFlag(RW, PTE_U), t, ret);
    LowestRoom(s.regs);
    RepairedSane(s, 0, 10 * 4096, ret);
    StepExact(Repaired, s, Event(Script(6), ret), t);
    SaneGranted(Repaired, s, 0, 10 * 4096, t, ret);
    forall a
      ensures Covers(t.regs, a) <==> Covers(Expected(7), a)
    {
      JoinsThen(6, a);
    }
    CanonicalUnique(t.regs, Expected(7));
  }

  lemma LowestRoom(regs: seq<Region>)
    requires regs == Expected(6)
    ensures Room(regs, At(13), 10) && forall a: nat :: a < At(13) ==> !Room(regs, a, 10)
    ensures forall a: nat :: Room(regs, a, 10) && (forall b: nat :: b < a ==> !Room(regs, b, 10)) ==> a == At(13)
  {
    forall x
      ensures Covers(regs, x) <==> At(0) <= x < At(13)
    {
      Blocks(regs, x);
    }
    forall a: nat | a < At(13)
      ensures !Room(regs, a, 10)
    {
      if MMAP_BEGIN <= a {
        assert Covers(regs, a);
      }
    }
  }

  lemma PlayOne(s: Space, i: nat, t: Space, ret: int)
    requires i < 14 && Inv(s) && s.regs == Expected(i) && |s.regs| + s.nodes >= 3
    requires Step(Repaired, s, Event(Script(i), ret), t)
    ensures ret == Answer(i) && Inv(t) && t.regs == Expected(i + 1) && SameElsewhere(s, t)
  {
    ExpectedOk(i);
    if i < 6 {
      PlayMmap(s, i, t, ret);
    } else if i == 6 {
      PlaySeventh(s, t, ret);
    } else {
      PlayMunmap(s, i, t, ret);
    }
  }

  /** A run of the fourteen calls, from an empty list with at least three nodes free on. */
  ghost predicate Plays(ss: seq<Space>, es: seq<Event>) {
    && |ss| == 15 && |es| == 14
    && (forall k {:trigger Opened(Closed.Running, k)} :: Sealed(Closed.Running, k) ==>
          Run(Repaired, ss, es) && forall i {:trigger es[i]} :: 0 <= i < 14 ==> es[i].call == Script(i))
    && Inv(ss[0]) && ss[0].regs == [] && ss[0].nodes >= 3
  }

  lemma PlaysAt(ss: seq<Space>, es: seq<Event>, i: nat)
    requires Plays(ss, es) && i < 14
    ensures Step(Repaired, ss[i], Event(Script(i), es[i].ret), ss[i + 1])
  {
    assert Opened(Closed.Running, 0);
    assert Step(Repaired, ss[i], es[i], ss[i + 1]) && es[i] == Event(Script(i), es[i].ret);
  }

  /** With the merge repaired, the list is the expected one after each call. */
  lemma {:induction false} Played(ss: seq<Space>, es: seq<Event>, n: nat)
    requires Plays(ss, es) && n <= 14
    ensures Inv(ss[n]) && ss[n].regs == Expected(n) && SameElsewhere(ss[0], ss[n])
  {
    if n == 0 {
      UnchangedFixed(ss[0], ss[0]);
    } else {
      Played(ss, es, n - 1);
      PlaysAt(ss, es, n - 1);
      PlayNext(ss[0], ss[n - 1], n - 1, ss[n], es[n - 1].ret);
    }
  }

  /** And every call answers as it should. */
  lemma PlayedAnswer(ss: seq<Space>, es: seq<Event>, i: nat)
    requires Plays(ss, es) && i < 14
    ensures es[i].ret == Answer(i)
  {
    Played(ss, es, i);
    PlaysAt(ss, es, i);
    PlayNext(ss[0], ss[i], i, ss[i + 1], es[i].ret);
  }

  lemma PlayNext(s0: Space, s: Space, i: nat, t: Space, ret: int)
    requires i < 14 && Inv(s) && s.regs == Expected(i) && SameElsewhere(s0, s) && |s0.regs| + s0.nodes >= 3
    requires Step(Repaired, s, Event(Script(i), ret), t)
    ensures ret == Answer(i) && Inv(t) && t.regs == Expected(i + 1) && SameElsewhere(s0, t)
  {
    PlayOne(s, i, t, ret);
  }

  /** mmap and munmap leave every page that is no mmap page, and heap and stack. */
  lemma OthersStay(s: Space, e: Event, t: Space, v: nat)
    requires Inv(s) && Inv(t) && Step(Repaired, s, e, t) && (e.call.MmapCall? || e.call.MunmapCall?)
    requires v in s.flat && !IsMmap(s.regs, v)
    ensures v in t.flat && t.flat[v] == s.flat[v]
    ensures t.heapTop == s.heapTop && t.ustack == s.ustack
  {
    if e.call.MmapCall? && e.ret >= 0 {
      OrUser(RW);
      MmapExact(Repaired, s, e.call.begin, e.call.len, OrFlag(RW, PTE_U), t, e.ret);
      SaneGranted(Repaired, s, e.call.begin, e.call.len, t, e.ret);
      FreeUnmapped(s, Region(e.ret, PageCount32(e.call.len)));
      assert Opened(Closed.Backing, 0);
    }
    if e.call.MunmapCall? {
      MunmapExact(s, e.call.begin, e.call.len, t, e.ret);
    }
  }

  /** What is mapped at the start is none of it mmap pages, and so stays mapped as it is. */
  lemma {:induction false} StartStays(ss: seq<Space>, es: seq<Event>, n: nat, v: nat)
    requires Plays(ss, es)
    requires n <= 14 && v in ss[0].flat
    ensures v in ss[n].flat && ss[n].flat[v] == ss[0].flat[v]
    ensures ss[n].heapTop == ss[0].heapTop && ss[n].ustack == ss[0].ustack
  {
    if n > 0 {
      StartStays(ss, es, n - 1, v);
      Played(ss, es, n - 1);
      Played(ss, es, n);
      PlaysAt(ss, es, n - 1);
      NotMmap(ss[0], ss[n - 1], v);
      OthersStay(ss[n - 1], Event(Script(n - 1), es[n - 1].ret), ss[n], v);
    }
  }

  lemma NotMmap(s: Space, t: Space, v: nat)
    requires Inv(s) && Inv(t) && s.regs == [] && v in s.flat && s.fixed == t.fixed
    requires s.heapTop == t.heapTop && s.ustack == t.ustack
    ensures !IsMmap(t.regs, v)
  {
    AreasApart(t, v);
    assert Wanted(s, v) by {
      assert Opened(Closed.Agreement, 0);
    }
    assert !IsMmap([], v);
  }

  lemma SameDomain(s: Space, t: Space)
    requires Inv(s) && Inv(t) && s.regs == t.regs && s.heapTop == t.heapTop && s.ustack == t.ustack
    requires s.fixed == t.fixed
    ensures s.flat.Keys == t.flat.Keys
  {
    assert Opened(Closed.Agreement, 0);
    assert forall v :: Wanted(s, v) == Wanted(t, v);
  }

  lemma FramesWithin(s: Space)
    requires Inv(s)
    ensures OwnFrames(s.flat) <= s.uowned
  {
    assert Opened(Closed.Agreement, 0);
    assert forall v :: v in Kvm.Pages(0, TF_PAGE) ==> Kvm.Between(0, v, TF_PAGE);
  }

  /** The seven munmaps undo the seven mmaps: in the end everything is as it was. */
  lemma AllUndone(ss: seq<Space>, es: seq<Event>)
    requires Plays(ss, es)
    ensures ss[14] == ss[0]
  {
    var s, t := ss[0], ss[14];
    Played(ss, es, 14);
    StackPage(s, TF_PAGE - 1);
    StartStays(ss, es, 14, TF_PAGE - 1);
    forall v | v in s.flat
      ensures v in t.flat && t.flat[v] == s.flat[v]
    {
      StartStays(ss, es, 14, v);
    }
    SameDomain(s, t);
    assert t.flat == s.flat;
    FramesWithin(s);
    FramesWithin(t);
    assert OtherFrames(t) == OtherFrames(s) && t.uowned == OtherFrames(t) + OwnFrames(t.flat);
    assert Expected(14) == [] && t.regs == s.regs && t.nodes == s.nodes;
  }

  /** As written, the third call, two pages in front of the first region, touches only the region
      behind it: both are on the list afterwards, and the invariant is gone. */
  lemma ThirdCallSpoils(s: Space, t: Space, ret: int)
    requires Inv(s) && s.regs == Expected(2) && s.nodes > 0
    requires Step(AsWritten, s, Event(Script(2), ret), t)
    ensures ret == At(2) && !Inv(t)
    ensures t.regs == [Block(2, 5), Block(4, 3), Block(10, 2)]
  {
    var r := Block(2, 2);
    assert PagesFor(2 * 4096) == 2;
    PagesForExact(2 * 4096);
    ThirdRoom(s.regs);
    MmapAnswers(AsWritten, s, At(2), 2 * 4096, OrFlag(RW, PTE_U), t, ret);
    assert s.regs[0].begin == r.End() && OnlyNextTouched(s.regs, r);
    OrUser(RW);
    AsWrittenExact(s, At(2), 2 * 4096, OrFlag(RW, PTE_U), t, ret);
    ThirdPlaced(s.regs);
    var k: nat :| AcceptedAt(AsWritten, s, r, 0, OrFlag(RW, PTE_U), t, k);
    assert k == 0;
  }

  lemma ThirdRoom(regs: seq<Region>)
    requires regs == Expected(2)
    ensures Room(regs, At(2), 2)
  {
    forall x | At(2) <= x < At(4)
      ensures !Covers(regs, x)
    {
      Blocks(regs, x);
    }
  }

  lemma ThirdPlaced(regs: seq<Region>)
    requires regs == Expected(2)
    ensures Placed(AsWritten, regs, Block(2, 2), 0, 0) == [Block(2, 5), Block(4, 3), Block(10, 2)]
  {
  }
}
