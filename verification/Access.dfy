/** What a process may do with its pages: which ones it can read, write and execute, at any point
    of a run, and that copies between kernel and user memory succeed on them. */
module Access {
  import opened Layout
  import opened Outcomes
  import opened Regions
  import opened Spaces
  import opened Calls
  import opened SysCalls
  import opened Runs
  import UserCopy
  import PhysMem
  import Kvm
  import Uvm
  import Copying

  /** Valid, and the user may read and write. */
  predicate UserData(pte: nat) { HasV(pte) && HasU(pte) && HasR(pte) && HasW(pte) }

  /** Valid, and the user may read and execute, but not write. */
  predicate UserCode(pte: nat) { HasV(pte) && HasU(pte) && HasR(pte) && HasX(pte) && !HasW(pte) }

  lemma DataFlags(pte: nat)
    requires PteFlags(pte) == RWU + PTE_V
    ensures UserData(pte) && !HasX(pte)
  {
    BitsOfFlags(pte);
  }

  lemma CodeFlags(pte: nat)
    requires PteFlags(pte) == RXU + PTE_V
    ensures UserCode(pte)
  {
    BitsOfFlags(pte);
  }

  // ---------- the first process ----------

  /** The four pages the first process starts with, permission by permission. */
  lemma FirstBits(s: Space, trampoline: nat, uowned: set<nat>, kowned: set<nat>, nodes: nat)
    requires FirstSpace(s, trampoline, uowned, kowned, nodes) && trampoline < TWO64
    ensures UserCode(s.flat[CODE_PAGE])
    ensures UserData(s.flat[TF_PAGE - 1]) && !HasX(s.flat[TF_PAGE - 1])
    ensures var tf := s.flat[TF_PAGE]; HasV(tf) && HasR(tf) && HasW(tf) && !HasX(tf) && !HasU(tf)
    ensures var tr := s.flat[TRAMP_PAGE]; HasV(tr) && HasR(tr) && HasX(tr) && !HasW(tr) && !HasU(tr)
  {
    CodeFlags(s.flat[CODE_PAGE]);
    StackPage(s, TF_PAGE - 1);
    DataFlags(s.flat[TF_PAGE - 1]);
    BitsOfFlags(s.flat[TF_PAGE]);
    PteRoundTrip(trampoline, PTE_R + PTE_X);
    BitsOfFlags(s.flat[TRAMP_PAGE]);
  }

  // ---------- along runs ----------

  /** Mmap pages can be read and written, and the code page, if there is one, read and executed. */
  ghost predicate Permitted(s: Space) {
    forall k {:trigger Opened(Closed.Agreement, k)} :: Sealed(Closed.Agreement, k) ==>
      && (forall v :: v in s.flat && IsMmap(s.regs, v) ==> UserData(s.flat[v]))
      && (CODE_PAGE in s.fixed ==> CODE_PAGE in s.flat && UserCode(s.flat[CODE_PAGE]))
  }

  lemma FirstPermitted(s: Space, trampoline: nat, uowned: set<nat>, kowned: set<nat>, nodes: nat)
    requires FirstSpace(s, trampoline, uowned, kowned, nodes)
    ensures Permitted(s)
  {
    CodeFlags(s.flat[CODE_PAGE]);
    assert forall v: nat :: !IsMmap(s.regs, v);
  }

  /** Pages that a call maps, it maps for reading and writing. */
  lemma PermittedBacked(s: Space, t: Space, pages: set<nat>, perm: nat)
    requires Permitted(s) && SameFixed(s, t) && t.fixed == s.fixed
    requires Backed(s.flat, s.uowned, t.flat, t.uowned, pages, perm) && OrFlag(perm, PTE_V) == RWU + PTE_V
    requires forall v: nat :: IsMmap(t.regs, v) ==> IsMmap(s.regs, v) || v in pages
    ensures Permitted(t)
  {
    assert Opened(Closed.Agreement, 0);
    assert Opened(Closed.Backing, 0);
    forall v | v in t.flat && IsMmap(t.regs, v)
      ensures UserData(t.flat[v])
    {
      if v in pages {
        DataFlags(t.flat[v]);
      }
    }
  }

  lemma PermittedLess(s: Space, t: Space)
    requires Permitted(s) && SameFixed(s, t) && t.fixed == s.fixed
    requires forall v :: v in t.flat ==> v in s.flat && t.flat[v] == s.flat[v]
    requires forall v: nat :: IsMmap(t.regs, v) ==> IsMmap(s.regs, v)
    ensures Permitted(t)
  {
    assert Opened(Closed.Agreement, 0);
  }

  lemma BrkPermits(s: Space, newTop: nat, t: Space, ret: int)
    requires Inv(s) && Inv(t) && Permitted(s) && Brk(s, newTop, t, ret) && SameFixed(s, t)
    ensures Permitted(t)
  {
    if newTop > s.heapTop && t.flat != s.flat {
      PermittedBacked(s, t, Kvm.Pages(PgRoundUp(s.heapTop) / 4096, PgRoundUp(newTop) / 4096), RWU);
    } else {
      PermittedLess(s, t);
    }
  }

  lemma FaultPermits(s: Space, va: nat, t: Space, ret: int)
    requires Inv(s) && Inv(t) && Permitted(s) && Fault(s, va, t, ret) && SameFixed(s, t)
    ensures Permitted(t)
  {
    if ret == 0 {
      PermittedBacked(s, t, Kvm.Pages(Page(va), TF_PAGE - s.ustack), RWU);
    }
  }

  lemma MmapPermits(version: Version, s: Space, begin: nat, len: nat, t: Space, ret: int)
    requires Inv(s) && Inv(t) && Permitted(s) && begin < TWO64 && SameFixed(s, t)
    requires Mmap(version, s, begin, len, OrFlag(RW, PTE_U), t, ret)
    ensures Permitted(t)
  {
    if ret >= 0 {
      OrUser(RW);
      MmapExact(version, s, begin, len, OrFlag(RW, PTE_U), t, ret);
      SaneGranted(version, s, begin, len, t, ret);
      var r := Region(ret, PageCount32(len));
      forall v: nat | IsMmap(t.regs, v)
        ensures IsMmap(s.regs, v) || v in RegionPages(r)
      {
        PageMultiple(v, r);
      }
      PermittedBacked(s, t, RegionPages(r), OrFlag(RW, PTE_U));
    }
  }

  lemma MunmapPermits(s: Space, begin: nat, len: nat, t: Space, ret: int)
    requires Inv(s) && Inv(t) && Permitted(s) && Munmap(s, begin, len, t, ret) && SameFixed(s, t)
    ensures Permitted(t)
  {
    MunmapExact(s, begin, len, t, ret);
    if PageCount32(len) != 0 {
      MunmapCovers(s, begin, len, t);
      PermittedLess(s, t);
    }
  }

  lemma StepPermits(version: Version, s: Space, e: Event, t: Space)
    requires Inv(s) && Inv(t) && Permitted(s) && Step(version, s, e, t)
    ensures Permitted(t)
  {
    StepFixed(version, s, e, t);
    StepExact(version, s, e, t);
    match e.call
    case BrkCall(newTop) => BrkPermits(s, newTop, t, e.ret);
    case MmapCall(begin, len) => MmapPermits(version, s, begin, len, t, e.ret);
    case MunmapCall(begin, len) => MunmapPermits(s, begin, len, t, e.ret);
    case FaultCall(va) => FaultPermits(s, va, t, e.ret);
  }

  lemma {:induction false} RunPermits(version: Version, ss: seq<Space>, es: seq<Event>, n: nat)
    requires Run(version, ss, es) && Inv(ss[0]) && Permitted(ss[0]) && SaneUpTo(version, ss, es, |es|) && n <= |es|
    ensures Inv(ss[n]) && Permitted(ss[n]) && ss[n].fixed == ss[0].fixed
  {
    RunExact(version, ss, es, |es|);
    RunExact(version, ss, es, n);
    assert Inv(ss[n]);
    if n > 0 {
      RunPermits(version, ss, es, n - 1);
      assert Step(version, ss[n - 1], es[n - 1], ss[n]);
      StepPermits(version, ss[n - 1], es[n - 1], ss[n]);
    }
  }

  /** A complete copy starts out with them as well, and so they hold at any point of its run. */
  lemma CopyPermitted(p: Uvm.Proc, child: Uvm.Proc, c: Copying.Job)
    requires Copying.Copied(p, child, c)
    ensures Permitted(child.View())
  {
    assert Opened(Closed.Agreement, 0);
    forall v | v in child.pt.flat && IsMmap(child.regs, v)
      ensures UserData(child.pt.flat[v])
    {
      Copying.CopyPermits(child, v);
    }
  }

  // ---------- what the user copies may use ----------

  /** A page of data: heap, mmap area or stack. */
  predicate IsData(s: Space, v: nat) { IsHeap(s, v) || IsMmap(s.regs, v) || IsStack(s, v) }

  /** The code page, in a process that has one: a copy has none. */
  predicate IsCode(s: Space, v: nat) { v == CODE_PAGE && CODE_PAGE in s.fixed }

  /** What a process may read are the code page and its data, what it may write its data; what lies
      behind the stack is not its own. */
  lemma PageAccess(s: Space, v: nat)
    requires Inv(s) && Permitted(s)
    ensures UserCopy.Usable(s.flat, v, false) <==> IsCode(s, v) || IsData(s, v)
    ensures UserCopy.Usable(s.flat, v, true) <==> IsData(s, v)
    ensures IsData(s, v) ==> v in s.flat && UserData(s.flat[v])
    ensures IsCode(s, v) ==> v in s.flat && UserCode(s.flat[v])
  {
    assert Opened(Closed.Agreement, 0);
    AreasApart(s, v);
    if IsMmap(s.regs, v) {
      MmapBounds(s.regs, v);
    }
    if v in s.flat && (IsHeap(s, v) || IsStack(s, v)) {
      DataFlags(s.flat[v]);
    }
    HeapPages(s, v);
  }

  /** At any point of a run from the first process's start. */
  lemma RunAccess(version: Version, ss: seq<Space>, es: seq<Event>, n: nat, trampoline: nat, uowned: set<nat>,
                  kowned: set<nat>, nodes: nat, v: nat)
    requires Run(version, ss, es) && SaneUpTo(version, ss, es, |es|) && n <= |es|
    requires FirstSpace(ss[0], trampoline, uowned, kowned, nodes)
    ensures UserCopy.Usable(ss[n].flat, v, false) <==> v == CODE_PAGE || IsData(ss[n], v)
    ensures UserCopy.Usable(ss[n].flat, v, true) <==> IsData(ss[n], v)
    ensures IsData(ss[n], v) ==> v in ss[n].flat && UserData(ss[n].flat[v])
    ensures v == CODE_PAGE ==> v in ss[n].flat && UserCode(ss[n].flat[v])
  {
    FirstPermitted(ss[0], trampoline, uowned, kowned, nodes);
    RunPermits(version, ss, es, n);
    PageAccess(ss[n], v);
  }

  // ---------- buffers and strings of a process ----------

  /** The range consists of pages that a process may read, or write. */
  ghost predicate Within(s: Space, a: nat, n: nat, write: bool) {
    n > 0 ==> forall v: nat :: Page(a) <= v && v * 4096 < a + n ==> IsData(s, v) || (!write && IsCode(s, v))
  }

  lemma WithinOk(s: Space, a: nat, n: nat, write: bool)
    requires Inv(s) && Permitted(s)
    ensures Within(s, a, n, write) <==> UserCopy.RangeOk(s.flat, a, n, write)
  {
    forall v: nat
      ensures UserCopy.Usable(s.flat, v, write) <==> IsData(s, v) || (!write && IsCode(s, v))
    {
      PageAccess(s, v);
    }
  }

  /** Both versions of the copies accept whole pages of a process from a page boundary; the repaired
      one accepts every range of such pages, and no other. */
  lemma BufferAccepted(version: Version, s: Space, a: nat, n: nat, write: bool)
    requires Inv(s) && Permitted(s)
    requires version.Repaired? || (a % 4096 == 0 && n % 4096 == 0)
    ensures UserCopy.Accepts(version, s.flat, a, n, write) <==> Within(s, a, n, write)
  {
    WithinOk(s, a, n, write);
    if version.AsWritten? {
      UserCopy.WholePagesOk(s.flat, a, n, write);
    }
  }

  /** The user memory of a process with this address space. */
  ghost predicate Loaded(s: Space, mem: PhysMem.Memory, m: UserCopy.Machine)
    reads m
  {
    s.uowned <= mem.Keys && m.frames == UserCopy.FramesIn(mem, s.uowned)
  }

  /** uvm_copyin (uvm.c:16-34), repaired, on a buffer of a process: it succeeds exactly on its own
      pages, and then every byte has arrived and no other has changed. */
  method FromUser(m: UserCopy.Machine, flat: map<nat, nat>, dst: nat, src: nat, len: nat, ghost s: Space,
                  ghost mem: PhysMem.Memory)
    returns (ret: int)
    requires Inv(s) && Permitted(s) && flat == s.flat && Loaded(s, mem, m)
    requires src < TWO64 && len < TWO64
    modifies m`kernel
    ensures ret == if Within(s, src, len, false) then 0 else -1
    ensures ret == 0 ==> forall a: nat ::
      UserCopy.KByte(m.kernel, a) == if dst <= a < dst + len then UserCopy.ByteAt(flat, m.frames, src + (a - dst))
                                     else UserCopy.KByte(old(m.kernel), a)
  {
    ghost var done;
    UserCopy.ProcessUsable(s, mem);
    BufferAccepted(Repaired, s, src, len, false);
    ghost var kernel0 := m.kernel;
    ret, done := UserCopy.CopyIn(m, flat, dst, src, len, Repaired);
    if ret == 0 {
      UserCopy.TookAll(UserCopy.Job(Repaired, flat, src, dst, len), m.frames, kernel0, m.kernel);
    }
  }

  /** uvm_copyout (uvm.c:36-54), repaired, on a buffer of a process. */
  method ToUser(m: UserCopy.Machine, flat: map<nat, nat>, dst: nat, src: nat, len: nat, ghost s: Space,
                ghost mem: PhysMem.Memory)
    returns (ret: int)
    requires Inv(s) && Permitted(s) && flat == s.flat && Loaded(s, mem, m)
    requires dst < TWO64 && len < TWO64
    modifies m`frames
    ensures ret == if Within(s, dst, len, true) then 0 else -1
    ensures ret == 0 ==> forall a: nat :: IsData(s, Page(a)) || IsCode(s, Page(a)) ==>
      UserCopy.ByteAt(flat, m.frames, a) == if dst <= a < dst + len then UserCopy.KByte(m.kernel, src + (a - dst))
                                            else UserCopy.ByteAt(flat, old(m.frames), a)
  {
    ghost var done;
    UserCopy.ProcessUsable(s, mem);
    BufferAccepted(Repaired, s, dst, len, true);
    ghost var frames0 := m.frames;
    ret, done := UserCopy.CopyOut(m, flat, dst, src, len, Repaired);
    if ret == 0 {
      UserCopy.GaveAll(UserCopy.Job(Repaired, flat, dst, src, len), frames0, m.frames, m.kernel);
      forall a: nat | IsData(s, Page(a)) || IsCode(s, Page(a))
        ensures UserCopy.Readable(flat, Page(a))
      {
        PageAccess(s, Page(a));
      }
    }
  }

  /** uvm_copyin_str (uvm.c:56-77) on a string of a process, its code page included: the answer is
      its length with the terminator, and its bytes have arrived. */
  method StringFromUser(m: UserCopy.Machine, flat: map<nat, nat>, dst: nat, src: nat, maxLen: nat, ghost k: nat,
                        ghost s: Space, ghost mem: PhysMem.Memory)
    returns (ret: int)
    requires Inv(s) && Permitted(s) && flat == s.flat && Loaded(s, mem, m)
    requires |m.frames| < 0x7_0000 && k < maxLen && Within(s, src, k + 1, false)
    requires UserCopy.ByteAt(flat, m.frames, src + k) == 0
    requires forall a: nat :: src <= a < src + k ==> UserCopy.ByteAt(flat, m.frames, a) != 0
    modifies m`kernel
    ensures ret == k + 1
    ensures forall a: nat :: dst <= a <= dst + k ==>
      UserCopy.KByte(m.kernel, a) == UserCopy.ByteAt(flat, m.frames, src + (a - dst))
  {
    ghost var done;
    UserCopy.ProcessUsable(s, mem);
    WithinOk(s, src, k + 1, false);
    UserCopy.StringThere(flat, m.frames, src, k);
    ghost var kernel0 := m.kernel;
    ret, done := UserCopy.CopyInStr(m, flat, dst, src, maxLen);
    UserCopy.OneString(flat, m.frames, src, k, ret - 1);
    UserCopy.TookFirst(UserCopy.Job(Repaired, flat, src, dst, maxLen), m.frames, ret, kernel0, m.kernel);
  }
}
