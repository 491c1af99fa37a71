/** Spinlocks and nested interrupt disabling (src/kernel/lock/spinlock.c) as an interleaved
    step system: any number of CPUs and locks, one atomic read or write of shared or per-CPU
    state a step, and interrupt handlers that may run whenever interrupts are on.
    A CPU runs a stack of contexts: the code that was interrupted below, the handler on top. */
module Spinlock {
  import opened Outcomes

  /** What a push_off is for. */
  datatype Goal = Bare | For(lk: nat)

  /** Why spinlock_holding is evaluated. */
  datatype Why = Ask | ToAcquire | ToRelease

  /** Where a context is: in client code, or at a line of spinlock.c. */
  datatype Phase =
    | Idle
    | Push1(goal: Goal)                              // line 15: read the interrupt state
    | Push2(goal: Goal, was: bool)                   // line 16: intr_off
    | Push3(goal: Goal, was: bool)                   // lines 18-19: remember the state
    | Push4(goal: Goal)                              // line 20: noff++
    | Held1(lk: nat, why: Why)                       // line 46: read locked
    | Held2(lk: nat, why: Why, locked: bool)         // line 46: read cpuid; lines 53, 69: the asserts
    | Spin(lk: nat)                                  // line 56: test-and-set
    | Claim(lk: nat)                                 // line 63: cpuid = mycpuid()
    | Disown(lk: nat)                                // line 71: cpuid = -1
    | Unlock(lk: nat)                                // line 77: locked = 0
    | Pop1                                           // lines 27-29: asserts, noff--
    | Pop2                                           // lines 30-31: intr_on

  /** One context: its phase, the interrupt state it runs with outside all nests, its bare
      push_offs, the locks it has acquired, and what spinlock_holding last told it. */
  datatype Ctx = Ctx(phase: Phase, level: bool, bare: nat, locks: set<nat>, answer: bool)

  datatype CpuState = CpuState(intr: bool, noff: nat, origin: bool, stack: seq<Ctx>)

  /** `owner` records which CPU's test-and-set succeeded last, until the lock is released. */
  datatype LockState = LockState(locked: bool, cpuid: int, owner: Option<nat>)

  /** A failed assert halts everything. */
  datatype State = State(cpus: seq<CpuState>, locks: seq<LockState>, halted: bool)

  /** What the running context of a CPU does next: Go is the next line of spinlock.c. */
  datatype Act = Go | CallPush | CallPop | CallAcquire(lk: nat) | CallRelease(lk: nat) | CallHolding(lk: nat)
    | SetIntr(on: bool) | Interrupt | Return

  function Top(cpu: CpuState): Ctx
    requires cpu.stack != []
  {
    cpu.stack[|cpu.stack| - 1]
  }

  function WithTop(cpu: CpuState, x: Ctx): CpuState
    requires cpu.stack != []
  {
    cpu.(stack := cpu.stack[..|cpu.stack| - 1] + [x])
  }

  /** push_offs of a context that have no pop_off yet but belong to no bare push and no
      acquired lock: an acquire under way, or a release whose pop_off is still to come. */
  function Pending(ph: Phase): nat {
    match ph
    case Held1(_, why) => if why.ToAcquire? then 1 else 0
    case Held2(_, why, _) => if why.ToAcquire? then 1 else 0
    case Spin(_) => 1
    case Claim(_) => 1
    case Pop1 => 1
    case _ => 0
  }

  /** Outstanding push_offs of a context, locks held or pending included. */
  function Outstanding(x: Ctx): nat { x.bare + |x.locks| + Pending(x.phase) }

  predicate LockArg(s: State, act: Act) {
    match act
    case CallAcquire(lk) => lk < |s.locks|
    case CallRelease(lk) => lk < |s.locks|
    case CallHolding(lk) => lk < |s.locks|
    case _ => true
  }

  /** What a client may do: calls from client code only, a bare pop_off only for an earlier
      bare push_off, the interrupt state set directly only outside all nests, and a handler
      returns with its own nests closed. */
  predicate Enabled(s: State, c: nat, act: Act) {
    && c < |s.cpus| && s.cpus[c].stack != [] && LockArg(s, act)
    && var cpu := s.cpus[c]; var x := Top(cpu);
       match act
       case Go => !x.phase.Idle?
       case Interrupt => cpu.intr
       case Return => x.phase.Idle? && Outstanding(x) == 0 && |cpu.stack| > 1
       case CallPop => x.phase.Idle? && x.bare > 0
       case SetIntr(_) => x.phase.Idle? && cpu.noff == 0
       case _ => x.phase.Idle?
  }

  /** A CPU's own part of a step: everything but lock words. */
  function Local(cpu: CpuState, act: Act): CpuState
    requires cpu.stack != []
  {
    var x := Top(cpu);
    match act
    case Go => cpu
    case CallPush => WithTop(cpu, x.(phase := Push1(Bare)))
    case CallPop => WithTop(cpu, x.(phase := Pop1, bare := if x.bare > 0 then x.bare - 1 else 0))
    case CallAcquire(lk) => WithTop(cpu, x.(phase := Push1(For(lk))))
    case CallRelease(lk) => WithTop(cpu, x.(phase := Held1(lk, ToRelease)))
    case CallHolding(lk) => WithTop(cpu, x.(phase := Held1(lk, Ask)))
    case SetIntr(on) => WithTop(cpu, x.(level := on)).(intr := on)
    case Interrupt => cpu.(intr := false, stack := cpu.stack + [Ctx(Idle, false, 0, {}, false)])
    case Return => cpu.(intr := true, stack := cpu.stack[..|cpu.stack| - 1])
  }

  /** push_off and pop_off, line by line. */
  function Nest(cpu: CpuState): CpuState
    requires cpu.stack != []
  {
    var x := Top(cpu);
    match x.phase
    case Push1(goal) => WithTop(cpu, x.(phase := Push2(goal, cpu.intr)))
    case Push2(goal, was) => WithTop(cpu, x.(phase := Push3(goal, was))).(intr := false)
    case Push3(goal, was) =>
      var next := WithTop(cpu, x.(phase := Push4(goal)));
      if cpu.noff == 0 then next.(origin := was) else next
    case Push4(goal) =>
      var y := if goal.Bare? then x.(phase := Idle, bare := x.bare + 1) else x.(phase := Held1(goal.lk, ToAcquire));
      WithTop(cpu, y).(noff := cpu.noff + 1)
    case Pop1 => if cpu.noff == 0 then cpu else WithTop(cpu, x.(phase := Pop2)).(noff := cpu.noff - 1)
    case Pop2 =>
      var next := WithTop(cpu, x.(phase := Idle));
      if cpu.noff == 0 && cpu.origin then next.(intr := true) else next
    case _ => cpu
  }

  /** The asserts of pop_off, spinlock_acquire and spinlock_release. */
  predicate Fails(s: State, c: nat)
    requires c < |s.cpus| && s.cpus[c].stack != []
  {
    var cpu := s.cpus[c];
    match Top(cpu).phase
    case Pop1 => cpu.intr || cpu.noff < 1
    case Held2(lk, why, locked) =>
      var holding := locked && lk < |s.locks| && s.locks[lk].cpuid == c;
      (why.ToAcquire? && holding) || (why.ToRelease? && !holding)
    case _ => false
  }

  /** One line of code that reads or writes a lock word. */
  function Locking(s: State, c: nat, lk: nat): State
    requires c < |s.cpus| && s.cpus[c].stack != [] && lk < |s.locks|
  {
    var cpu, lock := s.cpus[c], s.locks[lk];
    var x := Top(cpu);
    match x.phase
    case Held1(_, why) => SetCpu(s, c, x.(phase := Held2(lk, why, lock.locked)))
    case Held2(_, why, locked) =>
      var holding := locked && lock.cpuid == c;
      if why.Ask? then SetCpu(s, c, x.(phase := Idle, answer := holding))
      else if why.ToAcquire? then SetCpu(s, c, x.(phase := Spin(lk)))
      else SetCpu(s, c, x.(phase := Disown(lk)))
    case Spin(_) =>
      if lock.locked then s
      else SetLock(SetCpu(s, c, x.(phase := Claim(lk))), lk, lock.(locked := true, owner := Some(c)))
    case Claim(_) =>
      SetLock(SetCpu(s, c, x.(phase := Idle, locks := x.locks + {lk})), lk, lock.(cpuid := c))
    case Disown(_) =>
      SetLock(SetCpu(s, c, x.(phase := Unlock(lk))), lk, lock.(cpuid := -1))
    case Unlock(_) =>
      SetLock(SetCpu(s, c, x.(phase := Pop1, locks := x.locks - {lk})), lk, lock.(locked := false, owner := None))
    case _ => s
  }

  function SetCpu(s: State, c: nat, x: Ctx): State
    requires c < |s.cpus| && s.cpus[c].stack != []
  {
    s.(cpus := s.cpus[c := WithTop(s.cpus[c], x)])
  }

  function SetLock(s: State, lk: nat, lock: LockState): State
    requires lk < |s.locks|
  {
    s.(locks := s.locks[lk := lock])
  }

  /** The lock a phase works on, if any. */
  function LockOf(ph: Phase): Option<nat> {
    match ph
    case Held1(lk, _) => Some(lk)
    case Held2(lk, _, _) => Some(lk)
    case Spin(lk) => Some(lk)
    case Claim(lk) => Some(lk)
    case Disown(lk) => Some(lk)
    case Unlock(lk) => Some(lk)
    case _ => None
  }

  /** One step of CPU c. */
  function Exec(s: State, c: nat, act: Act): State
    requires c < |s.cpus| && s.cpus[c].stack != []
  {
    if s.halted then s
    else if !act.Go? then s.(cpus := s.cpus[c := Local(s.cpus[c], act)])
    else if Fails(s, c) then s.(halted := true)
    else
      match LockOf(Top(s.cpus[c]).phase)
      case Some(lk) => if lk < |s.locks| then Locking(s, c, lk) else s
      case None => s.(cpus := s.cpus[c := Nest(s.cpus[c])])
  }

  // ---------- the invariant ----------

  /** Phases in which an interrupt may find a context: interrupts may still be on. */
  predicate Open(ph: Phase) {
    match ph
    case Idle => true
    case Push1(_) => true
    case Push2(_, _) => true
    case Held1(_, why) => !why.ToAcquire?
    case Held2(_, why, _) => !why.ToAcquire?
    case _ => false
  }

  /** An interrupted context has nothing outstanding and was interrupted with interrupts on. */
  predicate Suspended(x: Ctx) {
    Open(x.phase) && x.bare == 0 && x.locks == {} && x.level && (x.phase.Push2? ==> x.phase.was)
  }

  /** Interrupt state and nesting of one CPU. */
  predicate CpuOk(cpu: CpuState, n: nat) {
    && cpu.stack != []
    && (forall i :: 0 <= i < |cpu.stack| ==> PhaseLock(cpu.stack[i], n))
    && (forall i :: 0 <= i < |cpu.stack| - 1 ==> Suspended(cpu.stack[i]))
    && TopOk(cpu, Top(cpu))
  }

  /** noff counts the outstanding push_offs of the running context, and interrupts are off
      while there are any; outside all nests they are as the context left them. */
  predicate TopOk(cpu: CpuState, x: Ctx) {
    && cpu.noff == Outstanding(x)
    && (cpu.noff > 0 ==> !cpu.intr && cpu.origin == x.level)
    && match x.phase
       case Push2(_, was) => cpu.noff == 0 ==> cpu.intr == was == x.level
       case Push3(_, was) => !cpu.intr && (cpu.noff == 0 ==> was == x.level)
       case Push4(_) => !cpu.intr && cpu.origin == x.level
       case Pop2 => !cpu.intr && cpu.origin == x.level
       case Disown(lk) => lk in x.locks
       case Unlock(lk) => lk in x.locks
       case Claim(lk) => lk !in x.locks
       case _ => cpu.noff == 0 ==> cpu.intr == x.level
  }

  /** A context is between a successful test-and-set and its release of lk. */
  predicate Has(x: Ctx, lk: nat) {
    lk in x.locks || x.phase == Claim(lk)
  }

  /** A context is the recorded owner of lk. */
  predicate Recorded(x: Ctx, lk: nat) {
    lk in x.locks && x.phase != Unlock(lk)
  }

  predicate LockOk(lock: LockState, n: nat) {
    && (lock.locked <==> lock.owner.Some?)
    && (lock.owner.Some? ==> lock.owner.value < n)
    && (lock.cpuid == -1 || 0 <= lock.cpuid < n)
  }

  /** How CPU c and lock lk see each other. */
  predicate Agree(c: nat, x: Ctx, lk: nat, lock: LockState) {
    && (lock.owner == Some(c) <==> Has(x, lk))
    && (lock.cpuid == c <==> Recorded(x, lk))
    && (x.phase.Held2? && x.phase.lk == lk && Recorded(x, lk) ==> x.phase.locked)
  }

  ghost predicate Inv(s: State) {
    && (forall c :: 0 <= c < |s.cpus| ==> CpuOk(s.cpus[c], |s.locks|))
    && (forall lk :: 0 <= lk < |s.locks| ==> LockOk(s.locks[lk], |s.cpus|))
    && (forall c, lk :: 0 <= c < |s.cpus| && 0 <= lk < |s.locks| ==> Agree(c, Top(s.cpus[c]), lk, s.locks[lk]))
  }

  /** The lock a context works on and the locks it has exist. */
  predicate PhaseLock(x: Ctx, n: nat) {
    && (match LockOf(x.phase) case Some(lk) => lk < n case None => true)
    && (match x.phase
        case Push1(goal) => goal.For? ==> goal.lk < n
        case Push2(goal, _) => goal.For? ==> goal.lk < n
        case Push3(goal, _) => goal.For? ==> goal.lk < n
        case Push4(goal) => goal.For? ==> goal.lk < n
        case _ => true)
    && forall lk :: lk in x.locks ==> lk < n
  }

  // ---------- every step keeps it ----------

  lemma TopOfWith(cpu: CpuState, x: Ctx, n: nat)
    requires CpuOk(cpu, n) && PhaseLock(x, n)
    ensures Top(WithTop(cpu, x)) == x && WithTop(cpu, x).stack != []
    ensures forall i :: 0 <= i < |WithTop(cpu, x).stack| - 1 ==> Suspended(WithTop(cpu, x).stack[i])
    ensures forall i :: 0 <= i < |WithTop(cpu, x).stack| ==> PhaseLock(WithTop(cpu, x).stack[i], n)
  {
    var next := WithTop(cpu, x);
    assert forall i :: 0 <= i < |cpu.stack| - 1 ==> next.stack[i] == cpu.stack[i];
  }

  /** Which locks a CPU has, and that it is not in the middle of evaluating spinlock_holding
      for one of them, is all that the lock words are compared with. */
  ghost predicate SameHold(x: Ctx, y: Ctx) {
    && (forall lk :: Has(y, lk) == Has(x, lk))
    && (forall lk :: Recorded(y, lk) == Recorded(x, lk))
    && (y.phase.Held2? ==> y.locks == {})
  }

  /** A call from client code. */
  lemma CallKeeps(s: State, c: nat, act: Act)
    requires Enabled(s, c, act) && !act.Go? && !act.Interrupt? && !act.Return? && CpuOk(s.cpus[c], |s.locks|)
    ensures CpuOk(Local(s.cpus[c], act), |s.locks|) && SameHold(Top(s.cpus[c]), Top(Local(s.cpus[c], act)))
  {
    var cpu, n := s.cpus[c], |s.locks|;
    var x := Top(cpu);
    match act
    case CallPush => TopOfWith(cpu, x.(phase := Push1(Bare)), n);
    case CallPop => TopOfWith(cpu, x.(phase := Pop1, bare := x.bare - 1), n);
    case CallAcquire(lk) => TopOfWith(cpu, x.(phase := Push1(For(lk))), n);
    case CallRelease(lk) => TopOfWith(cpu, x.(phase := Held1(lk, ToRelease)), n);
    case CallHolding(lk) => TopOfWith(cpu, x.(phase := Held1(lk, Ask)), n);
    case SetIntr(on) => TopOfWith(cpu, x.(level := on), n);
  }

  /** An interrupt, and the return from its handler. */
  lemma TrapKeeps(s: State, c: nat, act: Act)
    requires Enabled(s, c, act) && (act.Interrupt? || act.Return?) && CpuOk(s.cpus[c], |s.locks|)
    ensures CpuOk(Local(s.cpus[c], act), |s.locks|) && SameHold(Top(s.cpus[c]), Top(Local(s.cpus[c], act)))
  {
    var cpu := s.cpus[c];
    var x, next := Top(cpu), Local(cpu, act);
    if act.Interrupt? {
      assert cpu.noff == 0 && x.locks == {};
      assert forall i :: 0 <= i < |cpu.stack| ==> next.stack[i] == cpu.stack[i];
    } else {
      assert x.locks == {};
      assert Top(next) == cpu.stack[|cpu.stack| - 2] && Suspended(Top(next));
      assert forall i :: 0 <= i < |next.stack| ==> next.stack[i] == cpu.stack[i];
    }
  }

  /** A line of push_off. */
  lemma PushKeeps(cpu: CpuState, n: nat)
    requires CpuOk(cpu, n)
    requires (Top(cpu).phase.Push1? || Top(cpu).phase.Push2? || Top(cpu).phase.Push3? || Top(cpu).phase.Push4?)
    ensures CpuOk(Nest(cpu), n) && SameHold(Top(cpu), Top(Nest(cpu)))
  {
    var x := Top(cpu);
    match x.phase
    case Push1(goal) => TopOfWith(cpu, x.(phase := Push2(goal, cpu.intr)), n);
    case Push2(goal, was) => TopOfWith(cpu, x.(phase := Push3(goal, was)), n);
    case Push3(goal, was) => TopOfWith(cpu, x.(phase := Push4(goal)), n);
    case Push4(goal) =>
      var next := if goal.Bare? then x.(phase := Idle, bare := x.bare + 1) else x.(phase := Held1(goal.lk, ToAcquire));
      TopOfWith(cpu, next, n);
  }

  /** A line of pop_off. */
  lemma PopKeeps(cpu: CpuState, n: nat)
    requires CpuOk(cpu, n) && (Top(cpu).phase.Pop1? || Top(cpu).phase.Pop2?)
    ensures CpuOk(Nest(cpu), n) && SameHold(Top(cpu), Top(Nest(cpu)))
  {
    var x := Top(cpu);
    match x.phase
    case Pop1 => TopOfWith(cpu, x.(phase := Pop2), n);
    case Pop2 => TopOfWith(cpu, x.(phase := Idle), n);
  }

  /** pop_off's asserts never fail. */
  lemma PopNeverFails(cpu: CpuState, n: nat)
    requires CpuOk(cpu, n) && Top(cpu).phase.Pop1?
    ensures !cpu.intr && cpu.noff >= 1
  {
  }

  /** What a line that works on lock lk of CPU c keeps for that CPU. */
  ghost predicate SelfKept(s: State, c: nat, lk: nat, t: State)
    requires c < |s.cpus| && lk < |s.locks|
  {
    && |t.cpus| == |s.cpus| && |t.locks| == |s.locks|
    && CpuOk(t.cpus[c], |s.locks|) && LockOk(t.locks[lk], |s.cpus|)
    && (forall j :: 0 <= j < |s.locks| ==> Agree(c, Top(t.cpus[c]), j, t.locks[j]))
  }

  /** The first read of spinlock_holding. */
  lemma HoldingReads(s: State, c: nat, lk: nat, why: Why)
    requires Inv(s) && c < |s.cpus| && lk < |s.locks| && CpuOk(s.cpus[c], |s.locks|)
    requires Top(s.cpus[c]).phase == Held1(lk, why)
    ensures SelfKept(s, c, lk, Locking(s, c, lk))
  {
    var cpu, lock, n := s.cpus[c], s.locks[lk], |s.locks|;
    var x := Top(cpu);
    assert forall j :: 0 <= j < n ==> Agree(c, x, j, s.locks[j]);
    assert LockOk(lock, |s.cpus|);
    TopOfWith(cpu, x.(phase := Held2(lk, why, lock.locked)), n);
  }

  /** The second read, and the asserts on the answer. */
  lemma HoldingDecides(s: State, c: nat, lk: nat, why: Why, locked: bool)
    requires Inv(s) && c < |s.cpus| && lk < |s.locks| && CpuOk(s.cpus[c], |s.locks|) && !Fails(s, c)
    requires Top(s.cpus[c]).phase == Held2(lk, why, locked)
    ensures SelfKept(s, c, lk, Locking(s, c, lk))
  {
    var cpu, lock, n := s.cpus[c], s.locks[lk], |s.locks|;
    var x := Top(cpu);
    assert Agree(c, x, lk, lock);
    var y := if why.Ask? then x.(phase := Idle, answer := locked && lock.cpuid == c)
             else if why.ToAcquire? then x.(phase := Spin(lk))
             else x.(phase := Disown(lk));
    TopOfWith(cpu, y, n);
    SameHoldSelf(s, c, lk, y);
  }

  /** A context change that concerns no lock word. */
  lemma SameHoldSelf(s: State, c: nat, lk: nat, y: Ctx)
    requires Inv(s) && c < |s.cpus| && lk < |s.locks| && CpuOk(s.cpus[c], |s.locks|)
    requires SameHold(Top(s.cpus[c]), y) && CpuOk(WithTop(s.cpus[c], y), |s.locks|) && Top(WithTop(s.cpus[c], y)) == y
    ensures SelfKept(s, c, lk, SetCpu(s, c, y))
  {
    assert forall j :: 0 <= j < |s.locks| ==> Agree(c, Top(s.cpus[c]), j, s.locks[j]);
    assert LockOk(s.locks[lk], |s.cpus|);
  }

  /** Taking the lock word. */
  lemma AcquireWord(s: State, c: nat, lk: nat)
    requires Inv(s) && c < |s.cpus| && lk < |s.locks| && CpuOk(s.cpus[c], |s.locks|) && Top(s.cpus[c]).phase == Spin(lk)
    ensures SelfKept(s, c, lk, Locking(s, c, lk))
  {
    var cpu, n := s.cpus[c], |s.locks|;
    var x := Top(cpu);
    assert forall j :: 0 <= j < n ==> Agree(c, x, j, s.locks[j]);
    TopOfWith(cpu, x.(phase := Claim(lk)), n);
  }

  /** Signing it. */
  lemma AcquireSign(s: State, c: nat, lk: nat)
    requires Inv(s) && c < |s.cpus| && lk < |s.locks| && CpuOk(s.cpus[c], |s.locks|)
    requires Top(s.cpus[c]).phase == Claim(lk)
    ensures SelfKept(s, c, lk, Locking(s, c, lk))
  {
    var cpu, n := s.cpus[c], |s.locks|;
    var x := Top(cpu);
    assert forall j :: 0 <= j < n ==> Agree(c, x, j, s.locks[j]);
    TopOfWith(cpu, x.(phase := Idle, locks := x.locks + {lk}), n);
  }

  lemma AcquireSelf(s: State, c: nat, lk: nat)
    requires Inv(s) && c < |s.cpus| && lk < |s.locks| && CpuOk(s.cpus[c], |s.locks|)
    requires Top(s.cpus[c]).phase == Spin(lk) || Top(s.cpus[c]).phase == Claim(lk)
    ensures SelfKept(s, c, lk, Locking(s, c, lk))
  {
    if Top(s.cpus[c]).phase.Spin? {
      AcquireWord(s, c, lk);
    } else {
      AcquireSign(s, c, lk);
    }
  }

  /** Clearing the signature and the lock word. */
  lemma ReleaseSelf(s: State, c: nat, lk: nat)
    requires Inv(s) && c < |s.cpus| && lk < |s.locks| && CpuOk(s.cpus[c], |s.locks|)
    requires Top(s.cpus[c]).phase == Disown(lk) || Top(s.cpus[c]).phase == Unlock(lk)
    ensures SelfKept(s, c, lk, Locking(s, c, lk))
  {
    var cpu, n := s.cpus[c], |s.locks|;
    var x := Top(cpu);
    assert forall j :: 0 <= j < n ==> Agree(c, x, j, s.locks[j]);
    if x.phase.Disown? {
      TopOfWith(cpu, x.(phase := Unlock(lk)), n);
    } else {
      TopOfWith(cpu, x.(phase := Pop1, locks := x.locks - {lk}), n);
    }
  }

  /** The same line seen from another CPU. */
  lemma LockingOther(s: State, c: nat, lk: nat, d: nat)
    requires Inv(s) && c < |s.cpus| && LockOf(Top(s.cpus[c]).phase) == Some(lk) && lk < |s.locks| && !Fails(s, c)
    requires d < |s.cpus| && d != c
    ensures var t := Locking(s, c, lk);
      && t.cpus[d] == s.cpus[d]
      && Agree(d, Top(s.cpus[d]), lk, t.locks[lk])
      && forall j :: 0 <= j < |s.locks| && j != lk ==> t.locks[j] == s.locks[j]
  {
    assert Agree(c, Top(s.cpus[c]), lk, s.locks[lk]) && Agree(d, Top(s.cpus[d]), lk, s.locks[lk]);
    assert CpuOk(s.cpus[c], |s.locks|) && LockOk(s.locks[lk], |s.cpus|);
  }

  lemma LockingKeeps(s: State, c: nat, lk: nat)
    requires Inv(s) && c < |s.cpus| && LockOf(Top(s.cpus[c]).phase) == Some(lk) && lk < |s.locks| && !Fails(s, c)
    ensures Inv(Locking(s, c, lk))
  {
    var t := Locking(s, c, lk);
    assert CpuOk(s.cpus[c], |s.locks|);
    match Top(s.cpus[c]).phase {
      case Held1(_, why) => HoldingReads(s, c, lk, why);
      case Held2(_, why, locked) => HoldingDecides(s, c, lk, why, locked);
      case Spin(_) => AcquireSelf(s, c, lk);
      case Claim(_) => AcquireSelf(s, c, lk);
      case Disown(_) => ReleaseSelf(s, c, lk);
      case Unlock(_) => ReleaseSelf(s, c, lk);
    }
    forall d | 0 <= d < |s.cpus| && d != c
      ensures CpuOk(t.cpus[d], |s.locks|)
      ensures forall j :: 0 <= j < |s.locks| ==> Agree(d, Top(t.cpus[d]), j, t.locks[j])
    {
      LockingOther(s, c, lk, d);
      assert forall j :: 0 <= j < |s.locks| ==> Agree(d, Top(s.cpus[d]), j, s.locks[j]);
    }
    forall j | 0 <= j < |s.locks|
      ensures LockOk(t.locks[j], |s.cpus|)
    {
      assert LockOk(s.locks[j], |s.cpus|);
    }
  }

  /** A step that leaves every lock word, and which locks the CPU has, as they are. */
  lemma SameLocks(s: State, c: nat, cpu: CpuState)
    requires Inv(s) && c < |s.cpus| && CpuOk(cpu, |s.locks|) && SameHold(Top(s.cpus[c]), Top(cpu))
    ensures Inv(s.(cpus := s.cpus[c := cpu]))
  {
    var t := s.(cpus := s.cpus[c := cpu]);
    forall d, lk | 0 <= d < |t.cpus| && 0 <= lk < |t.locks|
      ensures Agree(d, Top(t.cpus[d]), lk, t.locks[lk])
    {
      assert Agree(d, Top(s.cpus[d]), lk, s.locks[lk]);
    }
  }

  /** Every step of every CPU keeps the invariant. */
  lemma StepKeeps(s: State, c: nat, act: Act)
    requires Inv(s) && Enabled(s, c, act)
    ensures Inv(Exec(s, c, act))
  {
    assert CpuOk(s.cpus[c], |s.locks|);
    if !s.halted && !act.Go? {
      if act.Interrupt? || act.Return? {
        TrapKeeps(s, c, act);
      } else {
        CallKeeps(s, c, act);
      }
      SameLocks(s, c, Local(s.cpus[c], act));
    } else if !s.halted && !Fails(s, c) {
      match LockOf(Top(s.cpus[c]).phase)
      case None =>
        if Top(s.cpus[c]).phase.Pop1? || Top(s.cpus[c]).phase.Pop2? {
          PopKeeps(s.cpus[c], |s.locks|);
        } else {
          PushKeeps(s.cpus[c], |s.locks|);
        }
        SameLocks(s, c, Nest(s.cpus[c]));
      case Some(lk) =>
        LockingKeeps(s, c, lk);
    }
  }

  // ---------- mutual exclusion ----------

  /** Some context of CPU c is between a successful test-and-set on lk and its release. */
  predicate Inside(cpu: CpuState, lk: nat) {
    exists i :: 0 <= i < |cpu.stack| && Has(cpu.stack[i], lk)
  }

  lemma InsideTop(cpu: CpuState, n: nat, lk: nat)
    requires CpuOk(cpu, n)
    ensures Inside(cpu, lk) <==> Has(Top(cpu), lk)
  {
    assert Top(cpu) == cpu.stack[|cpu.stack| - 1];
    forall i | 0 <= i < |cpu.stack| - 1
      ensures !Has(cpu.stack[i], lk)
    {
      assert Suspended(cpu.stack[i]);
    }
  }

  /** At most one CPU is inside, and then in exactly one context; a recorded cpuid always
      names the CPU that is. */
  lemma MutualExclusion(s: State, c: nat, d: nat, lk: nat)
    requires Inv(s) && c < |s.cpus| && d < |s.cpus| && lk < |s.locks|
    ensures Inside(s.cpus[c], lk) && Inside(s.cpus[d], lk) ==> c == d
    ensures Inside(s.cpus[c], lk) ==> s.locks[lk].locked
    ensures s.locks[lk].locked ==> s.locks[lk].owner.Some? && s.locks[lk].owner.value < |s.cpus|
                                   && Inside(s.cpus[s.locks[lk].owner.value], lk)
    ensures s.locks[lk].cpuid == c ==> Inside(s.cpus[c], lk)
    ensures s.locks[lk].cpuid == -1 || 0 <= s.locks[lk].cpuid < |s.cpus|
  {
    InsideTop(s.cpus[c], |s.locks|, lk);
    InsideTop(s.cpus[d], |s.locks|, lk);
    assert Agree(c, Top(s.cpus[c]), lk, s.locks[lk]) && Agree(d, Top(s.cpus[d]), lk, s.locks[lk]);
    assert LockOk(s.locks[lk], |s.cpus|);
    if s.locks[lk].locked {
      var o := s.locks[lk].owner.value;
      InsideTop(s.cpus[o], |s.locks|, lk);
      assert Agree(o, Top(s.cpus[o]), lk, s.locks[lk]);
    }
  }

  /** Despite its two separate reads, spinlock_holding answers exactly whether this CPU is
      the recorded owner, which is whether the running context has acquired the lock. */
  lemma HoldingExact(s: State, c: nat, lk: nat, why: Why, locked: bool)
    requires Inv(s) && c < |s.cpus| && lk < |s.locks| && Top(s.cpus[c]).phase == Held2(lk, why, locked)
    ensures locked && s.locks[lk].cpuid == c <==> s.locks[lk].cpuid == c
    ensures s.locks[lk].cpuid == c <==> lk in Top(s.cpus[c]).locks
    ensures Fails(s, c)
      <==> (why.ToAcquire? && lk in Top(s.cpus[c]).locks) || (why.ToRelease? && lk !in Top(s.cpus[c]).locks)
  {
    assert Agree(c, Top(s.cpus[c]), lk, s.locks[lk]);
  }

  // ---------- nesting ----------

  /** While a CPU has push_offs outstanding its interrupts are off, noff is their number,
      and with none outstanding the interrupt state in client code is the context's own. */
  lemma Nesting(s: State, c: nat)
    requires Inv(s) && c < |s.cpus|
    ensures var cpu := s.cpus[c]; var x := Top(cpu);
      && cpu.noff == Outstanding(x)
      && (cpu.noff > 0 ==> !cpu.intr)
      && (forall i :: 0 <= i < |cpu.stack| - 1 ==> Outstanding(cpu.stack[i]) == 0)
      && (x.phase.Idle? && cpu.noff == 0 ==> cpu.intr == x.level)
  {
    assert CpuOk(s.cpus[c], |s.locks|);
    forall i | 0 <= i < |s.cpus[c].stack| - 1
      ensures Outstanding(s.cpus[c].stack[i]) == 0
    {
      assert Suspended(s.cpus[c].stack[i]);
    }
  }

  /** The assertions of a disciplined client never fail: only acquiring a lock one has, or
      releasing one that one has not, halts. */
  lemma HaltsOnlyOnMisuse(s: State, c: nat)
    requires Inv(s) && c < |s.cpus| && Fails(s, c)
    ensures var x := Top(s.cpus[c]);
      x.phase.Held2?
        && ((x.phase.why.ToAcquire? && x.phase.lk in x.locks) || (x.phase.why.ToRelease? && x.phase.lk !in x.locks))
  {
    assert CpuOk(s.cpus[c], |s.locks|);
    var x := Top(s.cpus[c]);
    assert PhaseLock(x, |s.locks|);
    match x.phase
    case Pop1 => PopNeverFails(s.cpus[c], |s.locks|);
    case Held2(lk, why, locked) => HoldingExact(s, c, lk, why, locked);
  }

  // ---------- whole runs ----------

  datatype Move = Move(c: nat, act: Act)

  /** A run: each state follows from the one before by one step of one CPU. */
  ghost predicate Run(ss: seq<State>, ms: seq<Move>) {
    && |ss| == |ms| + 1
    && forall i {:trigger ms[i]} :: 0 <= i < |ms| ==>
         Enabled(ss[i], ms[i].c, ms[i].act) && ss[i + 1] == Exec(ss[i], ms[i].c, ms[i].act)
  }

  /** The state after boot: every lock free (spinlock_init), every CPU in client code. */
  ghost predicate Booted(s: State) {
    && !s.halted
    && (forall c :: 0 <= c < |s.cpus| ==>
        exists on :: s.cpus[c] == CpuState(on, 0, false, [Ctx(Idle, on, 0, {}, false)]))
    && forall lk :: 0 <= lk < |s.locks| ==> s.locks[lk] == LockState(false, -1, None)
  }

  lemma BootedInv(s: State)
    requires Booted(s)
    ensures Inv(s)
  {
  }

  /** Over every interleaving, from boot on, every state has the invariant. */
  lemma {:induction false} RunKeeps(ss: seq<State>, ms: seq<Move>, n: nat)
    requires Run(ss, ms) && Inv(ss[0]) && n <= |ms|
    ensures Inv(ss[n])
  {
    if n > 0 {
      RunKeeps(ss, ms, n - 1);
      assert Enabled(ss[n - 1], ms[n - 1].c, ms[n - 1].act);
      StepKeeps(ss[n - 1], ms[n - 1].c, ms[n - 1].act);
    }
  }

  /** The level of a context changes only when the context itself sets the interrupt state. */
  lemma LevelKept(s: State, c: nat, act: Act, d: nat, h: nat)
    requires Enabled(s, c, act) && d < |s.cpus| && 0 < h <= |s.cpus[d].stack| && s.cpus[d].stack != []
    requires h <= |Exec(s, c, act).cpus[d].stack|
    requires !(c == d && act.SetIntr? && |s.cpus[d].stack| == h)
    ensures Exec(s, c, act).cpus[d].stack[h - 1].level == s.cpus[d].stack[h - 1].level
  {
    if c == d && act.Go? && !s.halted && !Fails(s, c) {
      match LockOf(Top(s.cpus[c]).phase)
      case None => NestLevels(s.cpus[c]);
      case Some(lk) =>
        if lk < |s.locks| {
          LockingLevels(s, c, lk);
        }
    }
  }

  /** Lines of spinlock.c change only the running context, and not its level. */
  predicate SameLevels(cpu: CpuState, next: CpuState) {
    |next.stack| == |cpu.stack| && forall i :: 0 <= i < |cpu.stack| ==> next.stack[i].level == cpu.stack[i].level
  }

  lemma NestLevels(cpu: CpuState)
    requires cpu.stack != []
    ensures SameLevels(cpu, Nest(cpu))
  {
  }

  lemma SetCpuLevels(s: State, c: nat, x: Ctx)
    requires c < |s.cpus| && s.cpus[c].stack != [] && x.level == Top(s.cpus[c]).level
    ensures |SetCpu(s, c, x).cpus| == |s.cpus| && SameLevels(s.cpus[c], SetCpu(s, c, x).cpus[c])
  {
  }

  lemma LockingLevels(s: State, c: nat, lk: nat)
    requires c < |s.cpus| && s.cpus[c].stack != [] && lk < |s.locks|
    ensures |Locking(s, c, lk).cpus| == |s.cpus| && SameLevels(s.cpus[c], Locking(s, c, lk).cpus[c])
  {
    var x := Top(s.cpus[c]);
    match x.phase {
      case Held1(_, why) => SetCpuLevels(s, c, x.(phase := Held2(lk, why, s.locks[lk].locked)));
      case Held2(_, why, locked) =>
        SetCpuLevels(s, c, x.(phase := Idle, answer := locked && s.locks[lk].cpuid == c));
        SetCpuLevels(s, c, x.(phase := Spin(lk)));
        SetCpuLevels(s, c, x.(phase := Disown(lk)));
      case Spin(_) => SetCpuLevels(s, c, x.(phase := Claim(lk)));
      case Claim(_) => SetCpuLevels(s, c, x.(phase := Idle, locks := x.locks + {lk}));
      case Disown(_) => SetCpuLevels(s, c, x.(phase := Unlock(lk)));
      case Unlock(_) => SetCpuLevels(s, c, x.(phase := Pop1, locks := x.locks - {lk}));
      case _ =>
    }
  }

  /** Any nest that begins and ends in client code with no push_off outstanding restores the
      interrupt state that preceded it, whatever the other CPUs and the interrupt handlers
      have done in between. */
  lemma {:induction false} NestRestores(ss: seq<State>, ms: seq<Move>, c: nat, h: nat, n: nat)
    requires Run(ss, ms) && Inv(ss[0]) && n <= |ms| && c < |ss[0].cpus| && h > 0
    requires forall i :: 0 <= i <= n ==> c < |ss[i].cpus| && h <= |ss[i].cpus[c].stack|
    requires forall i {:trigger ms[i]} :: 0 <= i < n ==>
      !(ms[i].c == c && ms[i].act.SetIntr? && |ss[i].cpus[c].stack| == h)
    ensures ss[n].cpus[c].stack[h - 1].level == ss[0].cpus[c].stack[h - 1].level
    ensures AtRest(ss[0], c, h) && AtRest(ss[n], c, h) ==> ss[n].cpus[c].intr == ss[0].cpus[c].intr
  {
    RunKeeps(ss, ms, 0);
    RunKeeps(ss, ms, n);
    Nesting(ss[0], c);
    Nesting(ss[n], c);
    if n > 0 {
      NestRestores(ss, ms, c, h, n - 1);
      assert ss[n] == Exec(ss[n - 1], ms[n - 1].c, ms[n - 1].act);
      LevelKept(ss[n - 1], ms[n - 1].c, ms[n - 1].act, c, h);
    }
  }

  /** CPU c runs its context number h in client code with nothing outstanding. */
  predicate AtRest(s: State, c: nat, h: nat)
    requires c < |s.cpus|
  {
    && |s.cpus[c].stack| == h > 0 && Top(s.cpus[c]).phase.Idle? && s.cpus[c].noff == 0
  }
}
