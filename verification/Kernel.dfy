/** The kernel's side of a process's memory calls: each system call and page fault, run on
    the real structures, is a step of the runs of module Runs. */
module Kernel {
  import opened Layout
  import opened Outcomes
  import opened PhysMem
  import opened Regions
  import opened RegionList
  import opened Spaces
  import opened Calls
  import opened Uvm
  import opened MmapCalls
  import opened MunmapCalls
  import opened SysCalls
  import opened Runs

  /** sys_mmap (sysfunc.c:123-131), for every start address and every length, with the merge as
      written or repaired. */
  method SysMmap(p: Proc, begin: nat, len: nat, version: Version) returns (r: Outcome<int>)
    requires p.Valid() && Inv(p.View()) && Admissible(MmapCall(begin, len))
    modifies p`mmap, p`list, p`regs, p.pool, p.pool.free, p.list, p.pt, p.pm, p.pm.kern, p.pm.user
    ensures r.Panicked? ==> MmapShort(begin, Seen(PageCount32(len)), |old(p.pm.user.chain)|, |old(p.pm.kern.chain)|)
    ensures r.Returned? ==>
      && p.Standing() && Step(version, old(p.View()), Event(MmapCall(begin, len), r.value), p.View())
      && p.Kept(old(p.pm.mem), old(p.pm.user.owned)) && NewZeroed(old(p.pt.flat), p.pm.mem, p.pt.flat)
      && SameNodes(p.pool.free, p.list, old(p.pool.free), old(p.list))
      && if Spoiling(version, old(p.regs), MmapCall(begin, len), r.value) then p.Dangling() else p.ListOk()
  {
    r := UvmMmap(p, begin, len, RW, version);
  }

  /** An mmap that, as written, leaves a free node on the list. */
  ghost predicate Spoiling(version: Version, regs: seq<Region>, call: Call, ret: int) {
    call.MmapCall? && ret >= 0 && Spoilt(version, regs, Region(ret, Seen(PageCount32(call.len))))
  }

  /** sys_munmap (sysfunc.c:133-140), for every start address and every length */
  method SysMunmap(p: Proc, begin: nat, len: nat, ghost version: Version) returns (r: Outcome<int>)
    requires p.Valid() && Inv(p.View()) && Admissible(MunmapCall(begin, len))
    modifies p`mmap, p`list, p`regs, p.pt`flat, p.pm, p.pm.user, p.pool, p.pool.free, p.list
    ensures r.Panicked? <==> MunmapHalts(old(p.View()), begin, len)
    ensures r.Returned? ==>
      && p.Valid() && Step(version, old(p.View()), Event(MunmapCall(begin, len), r.value), p.View())
      && p.Kept(old(p.pm.mem), old(p.pm.user.owned)) && NewZeroed(old(p.pt.flat), p.pm.mem, p.pt.flat)
      && SameNodes(p.pool.free, p.list, old(p.pool.free), old(p.list))
  {
    ghost var s := p.View();
    r := UvmMunmap(p, begin, len);
    if r.Returned? {
      MunmapKeys(s, begin, len, p.View(), r.value);
      NewZeroedNone(s.flat, p.pm.mem, p.pt.flat);
    }
  }

  /** munmap maps nothing. */
  lemma MunmapKeys(s: Space, begin: nat, len: nat, t: Space, ret: int)
    requires Munmap(s, begin, len, t, ret)
    ensures t.flat.Keys <= s.flat.Keys
  {
  }

  /** A load or store fault in user mode (trap_user.c:44-54): the stack grows, or the process
      is killed, which in this kernel halts everything. */
  method PageFault(p: Proc, stval: nat, ghost version: Version) returns (r: Outcome<int>)
    requires p.Valid() && Inv(p.View()) && Admissible(FaultCall(stval))
    modifies p`ustackNpage, p.pt, p.pm, p.pm.kern, p.pm.user
    ensures r.Panicked? ==> var n := TF_PAGE - old(p.ustackNpage) - Page(stval);
      n <= 0 || stval < MMAP_END || |old(p.pm.user.chain)| < n || |old(p.pm.kern.chain)| < 2 * n
    ensures r.Returned? ==>
      r.value == 0 && p.Valid() && Step(version, old(p.View()), Event(FaultCall(stval), 0), p.View())
    ensures r.Returned? ==>
      p.Kept(old(p.pm.mem), old(p.pm.user.owned)) && NewZeroed(old(p.pt.flat), p.pm.mem, p.pt.flat)
  {
    var ret :- p.UstackGrow(stval);
    if ret < 0 {
      return Panicked;
    }
    return Returned(0);
  }

  /** Pages that neither call nor process owns hold what they held. */
  lemma KeptElsewhere(p: Proc, mem: Memory, uowned: set<nat>, others: set<nat>)
    requires p.Kept(mem, uowned) && p.TableOk()
    requires others <= uowned && others == OtherFrames(p.View())
    ensures p.OthersKept(mem)
  {
    SteadyLess(mem, p.View().kothers + (uowned * p.pm.user.owned), p.pm.mem, p.View().kothers + others);
  }

  /** The calls that can halt the kernel: for want of memory, on a range that vm_mappages or
      vm_unmappages rejects, and on a fault outside the stack area. */
  ghost predicate MayHalt(s: Space, call: Call, ufree: nat, kfree: nat) {
    match call
    case BrkCall(newTop) =>
      newTop <= MMAP_BEGIN && Short(Page(PgRoundUp(newTop)) - Page(PgRoundUp(s.heapTop)), ufree, kfree)
    case MmapCall(begin, len) => MmapShort(begin, Seen(PageCount32(len)), ufree, kfree)
    case MunmapCall(begin, len) => MunmapHalts(s, begin, len)
    case FaultCall(va) =>
      va < MMAP_END || Page(va) >= TF_PAGE - s.ustack || Short(TF_PAGE - s.ustack - Page(va), ufree, kfree)
  }

  /** A served call in terms of runs. */
  lemma Served(p: Proc, s: Space, mem: Memory, call: Call, ret: int, version: Version)
    requires Inv(s) && p.Standing() && Step(version, s, Event(call, ret), p.View()) && p.Kept(mem, s.uowned)
    requires !Spoiling(version, s.regs, call, ret) ==> p.ListOk()
    ensures Inv(p.View()) <==> Sane(version, s, call)
    ensures Inv(p.View()) ==> p.Valid() && SameElsewhere(s, p.View()) && p.OthersKept(mem)
  {
    StepExact(version, s, Event(call, ret), p.View());
    if Inv(p.View()) {
      KeptElsewhere(p, mem, s.uowned, OtherFrames(s));
      if call.MmapCall? && ret >= 0 {
        SaneMeans(version, s, call.begin, call.len, ret);
      }
    }
  }

  /** Any memory call, with the merge as written or repaired: it halts only as MayHalt says
      (munmap exactly then); otherwise what the code does is a step, after which the
      invariant holds if and only if the call was sane. Then the process is well formed again
      and every page of everybody else has been left alone. Newly mapped pages are zeroed. Of
      the region nodes only free ones and those of the process's list are written, and those
      are what is on its list and free afterwards. */
  method Serve(p: Proc, call: Call, version: Version) returns (r: Outcome<int>)
    requires p.Valid() && Inv(p.View()) && Admissible(call)
    modifies p`mmap, p`list, p`regs, p`heapTop, p`ustackNpage, p.pool, p.pool.free, p.list, p.pt, p.pm, p.pm.kern,
             p.pm.user
    ensures r.Panicked? ==> MayHalt(old(p.View()), call, |old(p.pm.user.chain)|, |old(p.pm.kern.chain)|)
    ensures call.MunmapCall? && MayHalt(old(p.View()), call, |old(p.pm.user.chain)|, |old(p.pm.kern.chain)|) ==>
      r.Panicked?
    ensures r.Returned? ==> p.Standing() && Step(version, old(p.View()), Event(call, r.value), p.View())
    ensures r.Returned? ==>
      NewZeroed(old(p.pt.flat), p.pm.mem, p.pt.flat) && SameNodes(p.pool.free, p.list, old(p.pool.free), old(p.list))
    ensures r.Returned? ==> (Inv(p.View()) <==> Sane(version, old(p.View()), call))
    ensures r.Returned? && Inv(p.View()) ==>
      p.Valid() && SameElsewhere(old(p.View()), p.View()) && p.OthersKept(old(p.pm.mem))
  {
    ghost var s, mem := p.View(), p.pm.mem;
    SameRefl(p.pool.free, p.list);
    match call {
      case BrkCall(newTop) =>
        r := SysBrk(p, newTop);
      case MmapCall(begin, len) =>
        r := SysMmap(p, begin, len, version);
      case MunmapCall(begin, len) =>
        r := SysMunmap(p, begin, len, version);
      case FaultCall(va) =>
        r := PageFault(p, va, version);
    }
    if r.Returned? {
      Served(p, s, mem, call, r.value, version);
    }
  }
}
