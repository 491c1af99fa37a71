/** What the calls of spinlock.c get done: a CPU that calls push_off, pop_off, spinlock_acquire on
    a free lock, spinlock_release or spinlock_holding and goes on line by line comes back to its
    client code, with exactly the intended change. */
module LockCalls {
  import opened Outcomes
  import opened Spinlock

  lemma GoShape(s: State, c: nat, act: Act)
    requires c < |s.cpus| && s.cpus[c].stack != [] && !act.Return?
    ensures |Exec(s, c, act).cpus| == |s.cpus| && Exec(s, c, act).cpus[c].stack != []
  {
    if act.Go? && !s.halted && !Fails(s, c) {
      match LockOf(Top(s.cpus[c]).phase)
      case None => NestLevels(s.cpus[c]);
      case Some(lk) =>
        if lk < |s.locks| {
          LockingLevels(s, c, lk);
        }
    }
  }

  /** CPU c, and no other, goes on until it is back in client code, for at most n lines. */
  function Finish(s: State, c: nat, n: nat): (t: State)
    requires c < |s.cpus| && s.cpus[c].stack != []
    ensures |t.cpus| == |s.cpus| && t.cpus[c].stack != []
    decreases n
  {
    if n == 0 || Top(s.cpus[c]).phase.Idle? then s
    else
      GoShape(s, c, Go);
      Finish(Exec(s, c, Go), c, n - 1)
  }

  /** A call of client code, run to its end if that takes at most n lines. */
  function Call(s: State, c: nat, act: Act, n: nat): (t: State)
    requires c < |s.cpus| && s.cpus[c].stack != [] && !act.Return?
    ensures |t.cpus| == |s.cpus| && t.cpus[c].stack != []
  {
    GoShape(s, c, act);
    Finish(Exec(s, c, act), c, n)
  }

  /** CPU c and one lock of a state, seen together. */
  datatype Local = Local(x: Ctx, intr: bool, noff: nat, origin: bool, lock: LockState)

  /** The state with that CPU and that lock replaced. */
  function Put(s: State, c: nat, lk: nat, v: Local): (t: State)
    requires c < |s.cpus| && s.cpus[c].stack != [] && lk < |s.locks|
    ensures |t.cpus| == |s.cpus| && t.cpus[c].stack != [] && |t.locks| == |s.locks| && t.halted == s.halted
    ensures Top(t.cpus[c]) == v.x && t.locks[lk] == v.lock
  {
    s.(cpus := s.cpus[c := WithTop(s.cpus[c], v.x).(intr := v.intr, noff := v.noff, origin := v.origin)],
       locks := s.locks[lk := v.lock])
  }

  function Get(s: State, c: nat, lk: nat): Local
    requires c < |s.cpus| && s.cpus[c].stack != [] && lk < |s.locks|
  {
    var cpu := s.cpus[c];
    Local(Top(cpu), cpu.intr, cpu.noff, cpu.origin, s.locks[lk])
  }

  /** The next line, on the CPU and the lock alone. */
  function Line(v: Local, c: nat): Local {
    match v.x.phase
    case Push1(goal) => v.(x := v.x.(phase := Push2(goal, v.intr)))
    case Push2(goal, was) => v.(x := v.x.(phase := Push3(goal, was)), intr := false)
    case Push3(goal, was) => v.(x := v.x.(phase := Push4(goal)), origin := if v.noff == 0 then was else v.origin)
    case Push4(Bare) => v.(x := v.x.(phase := Idle, bare := v.x.bare + 1), noff := v.noff + 1)
    case Push4(For(lk)) => v.(x := v.x.(phase := Held1(lk, ToAcquire)), noff := v.noff + 1)
    case Held1(lk, why) => v.(x := v.x.(phase := Held2(lk, why, v.lock.locked)))
    case Held2(lk, Ask, locked) => v.(x := v.x.(phase := Idle, answer := locked && v.lock.cpuid == c))
    case Held2(lk, ToAcquire, _) => v.(x := v.x.(phase := Spin(lk)))
    case Held2(lk, ToRelease, _) => v.(x := v.x.(phase := Disown(lk)))
    case Spin(lk) => v.(x := v.x.(phase := Claim(lk)), lock := v.lock.(locked := true, owner := Some(c)))
    case Claim(lk) => v.(x := v.x.(phase := Idle, locks := v.x.locks + {lk}), lock := v.lock.(cpuid := c))
    case Disown(lk) => v.(x := v.x.(phase := Unlock(lk)), lock := v.lock.(cpuid := -1))
    case Unlock(lk) =>
      v.(x := v.x.(phase := Pop1, locks := v.x.locks - {lk}), lock := v.lock.(locked := false, owner := None))
    case Pop1 => v.(x := v.x.(phase := Pop2), noff := if v.noff > 0 then v.noff - 1 else 0)
    case Pop2 => v.(x := v.x.(phase := Idle), intr := v.intr || (v.noff == 0 && v.origin))
    case Idle => v
  }

  /** The line neither fails nor waits, and its lock is this one. */
  predicate Smooth(v: Local, c: nat, lk: nat) {
    && (match LockOf(v.x.phase) case Some(l) => l == lk case None => true)
    && match v.x.phase
       case Pop1 => !v.intr && v.noff > 0
       case Held2(_, ToAcquire, locked) => !locked || v.lock.cpuid != c
       case Held2(_, ToRelease, locked) => locked && v.lock.cpuid == c
       case Spin(_) => !v.lock.locked
       case _ => true
  }

  /** Such a line, in the state as a whole. */
  lemma GoLine(s: State, c: nat, lk: nat, v: Local)
    requires c < |s.cpus| && s.cpus[c].stack != [] && lk < |s.locks| && !s.halted && Smooth(v, c, lk)
    ensures Exec(Put(s, c, lk, v), c, Go) == Put(s, c, lk, Line(v, c))
  {
    var t := Put(s, c, lk, v);
    var u := Line(v, c);
    assert WithTop(t.cpus[c], u.x).stack == WithTop(s.cpus[c], u.x).stack;
    assert s.cpus[c := t.cpus[c]][c := Put(s, c, lk, u).cpus[c]] == Put(s, c, lk, u).cpus;
    assert t.locks[lk := u.lock] == Put(s, c, lk, u).locks;
  }

  /** At most n lines of it, and that all of them are smooth. */
  function Lines(v: Local, c: nat, n: nat): Local
    decreases n
  {
    if n == 0 || v.x.phase.Idle? then v else Lines(Line(v, c), c, n - 1)
  }

  predicate AllSmooth(v: Local, c: nat, lk: nat, n: nat)
    decreases n
  {
    n > 0 && !v.x.phase.Idle? ==> Smooth(v, c, lk) && AllSmooth(Line(v, c), c, lk, n - 1)
  }

  lemma {:induction false} FinishLines(s: State, c: nat, lk: nat, v: Local, n: nat)
    requires c < |s.cpus| && s.cpus[c].stack != [] && lk < |s.locks| && !s.halted && AllSmooth(v, c, lk, n)
    ensures Finish(Put(s, c, lk, v), c, n) == Put(s, c, lk, Lines(v, c, n))
    decreases n
  {
    if n > 0 && !v.x.phase.Idle? {
      GoLine(s, c, lk, v);
      FinishLines(s, c, lk, Line(v, c), n - 1);
    }
  }

  /** n lines, all smooth, lead from v to w. */
  ghost predicate Reaches(v: Local, c: nat, lk: nat, n: nat, w: Local) {
    forall k {:trigger Opened(Closed.Running, k)} :: Sealed(Closed.Running, k) ==>
      AllSmooth(v, c, lk, n) && Lines(v, c, n) == w
  }

  /** The state in which a call run to its end leaves everything. */
  ghost predicate Ends(s: State, c: nat, act: Act, n: nat, t: State)
    requires c < |s.cpus| && s.cpus[c].stack != [] && !act.Return?
  {
    forall k {:trigger Opened(Closed.Running, k)} :: Sealed(Closed.Running, k) ==> Call(s, c, act, n) == t
  }

  lemma OneLine(v: Local, c: nat, lk: nat, n: nat)
    requires n > 0 && !v.x.phase.Idle? && Smooth(v, c, lk)
    ensures Lines(v, c, n) == Lines(Line(v, c), c, n - 1)
    ensures AllSmooth(Line(v, c), c, lk, n - 1) ==> AllSmooth(v, c, lk, n)
  {
  }

  lemma CallPut(s: State, c: nat, lk: nat, act: Act, x: Ctx)
    requires c < |s.cpus| && s.cpus[c].stack != [] && lk < |s.locks| && !s.halted
    requires act.CallPush? || act.CallPop? || act.CallAcquire? || act.CallRelease? || act.CallHolding?
    requires Spinlock.Local(s.cpus[c], act) == WithTop(s.cpus[c], x)
    ensures Exec(s, c, act) == Put(s, c, lk, Get(s, c, lk).(x := x))
  {
    assert s.locks[lk := s.locks[lk]] == s.locks;
  }

  /** A call whose lines are smooth, in the state as a whole. */
  lemma CallLines(s: State, c: nat, lk: nat, act: Act, x: Ctx, n: nat, w: Local)
    requires c < |s.cpus| && s.cpus[c].stack != [] && lk < |s.locks| && !s.halted
    requires act.CallPush? || act.CallPop? || act.CallAcquire? || act.CallRelease? || act.CallHolding?
    requires Spinlock.Local(s.cpus[c], act) == WithTop(s.cpus[c], x)
    requires Reaches(Get(s, c, lk).(x := x), c, lk, n, w)
    ensures Ends(s, c, act, n, Put(s, c, lk, w))
  {
    assert Opened(Closed.Running, 0);
    CallPut(s, c, lk, act, x);
    FinishLines(s, c, lk, Get(s, c, lk).(x := x), n);
    assert Call(s, c, act, n) == Put(s, c, lk, w);
  }

  lemma Ended(s: State, c: nat, act: Act, n: nat, t: State)
    requires c < |s.cpus| && s.cpus[c].stack != [] && !act.Return? && Ends(s, c, act, n, t)
    ensures Call(s, c, act, n) == t
  {
    assert Opened(Closed.Running, 0);
  }

  // ---------- on one CPU and one lock ----------

  /** push_off (spinlock.c:13-21) */
  function Pushed(v: Local, x: Ctx): Local {
    v.(x := x, intr := false, noff := v.noff + 1, origin := if v.noff == 0 then v.intr else v.origin)
  }

  lemma PushLines(v: Local, c: nat, lk: nat, goal: Goal, n: nat)
    requires v.x.phase == Push1(goal) && n >= 4
    ensures var x := if goal.Bare? then v.x.(phase := Idle, bare := v.x.bare + 1)
                     else v.x.(phase := Held1(goal.lk, ToAcquire));
      && Lines(v, c, n) == Lines(Pushed(v, x), c, n - 4)
      && (AllSmooth(Pushed(v, x), c, lk, n - 4) ==> AllSmooth(v, c, lk, n))
  {
    var v1 := Line(v, c);
    var v2 := Line(v1, c);
    var v3 := Line(v2, c);
    OneLine(v, c, lk, n);
    OneLine(v1, c, lk, n - 1);
    OneLine(v2, c, lk, n - 2);
    OneLine(v3, c, lk, n - 3);
  }

  /** pop_off (spinlock.c:24-32) */
  lemma PopLines(v: Local, c: nat, lk: nat)
    requires v.x.phase.Pop1? && !v.intr && v.noff > 0
    ensures Lines(v, c, 2) == v.(x := v.x.(phase := Idle), noff := v.noff - 1, intr := v.noff == 1 && v.origin)
    ensures AllSmooth(v, c, lk, 2)
    ensures Reaches(v, c, lk, 2, v.(x := v.x.(phase := Idle), noff := v.noff - 1, intr := v.noff == 1 && v.origin))
  {
    OneLine(v, c, lk, 2);
    OneLine(Line(v, c), c, lk, 1);
  }

  lemma AcquireLines(v: Local, c: nat, lk: nat)
    requires v.x.phase == Push1(For(lk)) && !v.lock.locked
    ensures Reaches(v, c, lk, 8,
                    Pushed(v, v.x.(phase := Idle, locks := v.x.locks + {lk})).(lock := LockState(true, c, Some(c))))
  {
    PushLines(v, c, lk, For(lk), 8);
    var v4 := Pushed(v, v.x.(phase := Held1(lk, ToAcquire)));
    var v5 := Line(v4, c);
    var v6 := Line(v5, c);
    var v7 := Line(v6, c);
    OneLine(v4, c, lk, 4);
    OneLine(v5, c, lk, 3);
    OneLine(v6, c, lk, 2);
    OneLine(v7, c, lk, 1);
    assert AllSmooth(v, c, lk, 8) && Lines(v, c, 8) == Line(v7, c);
  }

  lemma ReleaseLines(v: Local, c: nat, lk: nat)
    requires v.x.phase == Held1(lk, ToRelease) && v.lock.locked && v.lock.cpuid == c && !v.intr && v.noff > 0
    ensures Reaches(v, c, lk, 6, v.(x := v.x.(phase := Idle, locks := v.x.locks - {lk}), noff := v.noff - 1,
                                    intr := v.noff == 1 && v.origin, lock := LockState(false, -1, None)))
  {
    var v1 := Line(v, c);
    var v2 := Line(v1, c);
    var v3 := Line(v2, c);
    var v4 := Line(v3, c);
    OneLine(v, c, lk, 6);
    OneLine(v1, c, lk, 5);
    OneLine(v2, c, lk, 4);
    OneLine(v3, c, lk, 3);
    PopLines(v4, c, lk);
    assert AllSmooth(v, c, lk, 6) && Lines(v, c, 6) == Lines(v4, c, 2);
  }

  lemma HoldingLines(v: Local, c: nat, lk: nat)
    requires v.x.phase == Held1(lk, Ask)
    ensures Reaches(v, c, lk, 2, v.(x := v.x.(phase := Idle, answer := v.lock.locked && v.lock.cpuid == c)))
  {
    OneLine(v, c, lk, 2);
    OneLine(Line(v, c), c, lk, 1);
    assert AllSmooth(v, c, lk, 2) && Lines(v, c, 2) == Line(Line(v, c), c);
  }

  lemma PushAlone(v: Local, c: nat, lk: nat)
    requires v.x.phase == Push1(Bare)
    ensures Reaches(v, c, lk, 4, Pushed(v, v.x.(phase := Idle, bare := v.x.bare + 1)))
  {
    PushLines(v, c, lk, Bare, 4);
    assert AllSmooth(v, c, lk, 4) && Lines(v, c, 4) == Pushed(v, v.x.(phase := Idle, bare := v.x.bare + 1));
  }

  // ---------- the calls ----------

  /** What a state says of one CPU and one lock. */
  lemma Seen(s: State, c: nat, lk: nat)
    requires Inv(s) && c < |s.cpus| && lk < |s.locks|
    ensures s.cpus[c].stack != [] && TopOk(s.cpus[c], Top(s.cpus[c])) && LockOk(s.locks[lk], |s.cpus|)
    ensures Agree(c, Top(s.cpus[c]), lk, s.locks[lk])
  {
    assert CpuOk(s.cpus[c], |s.locks|);
  }

  /** CPU c has taken the lock. */
  function Acquired(s: State, c: nat, lk: nat): (t: State)
    requires c < |s.cpus| && s.cpus[c].stack != [] && lk < |s.locks|
    ensures |t.cpus| == |s.cpus| && t.cpus[c].stack != [] && |t.locks| == |s.locks|
    ensures lk in Top(t.cpus[c]).locks && !t.cpus[c].intr && t.locks[lk] == LockState(true, c, Some(c))
    ensures Top(s.cpus[c]).phase.Idle? ==> Top(t.cpus[c]).phase.Idle?
  {
    var cpu, x := s.cpus[c], Top(s.cpus[c]);
    s.(cpus := s.cpus[c := WithTop(cpu, x.(locks := x.locks + {lk}))
                             .(intr := false, noff := cpu.noff + 1,
                               origin := if cpu.noff == 0 then cpu.intr else cpu.origin)],
       locks := s.locks[lk := LockState(true, c, Some(c))])
  }

  lemma AcquireEnds(s: State, c: nat, lk: nat)
    requires c < |s.cpus| && s.cpus[c].stack != [] && lk < |s.locks| && !s.halted
    requires Top(s.cpus[c]).phase.Idle? && !s.locks[lk].locked
    ensures Ends(s, c, CallAcquire(lk), 8, Acquired(s, c, lk))
  {
    var x := Top(s.cpus[c]).(phase := Push1(For(lk)));
    var v := Get(s, c, lk).(x := x);
    AcquireLines(v, c, lk);
    CallLines(s, c, lk, CallAcquire(lk), x, 8,
              Pushed(v, x.(phase := Idle, locks := x.locks + {lk})).(lock := LockState(true, c, Some(c))));
  }

  /** spinlock_acquire (spinlock.c:50-64) of a free lock: eight lines later the CPU has the lock,
      signed with its number, with interrupts off and one more push_off outstanding; what it
      finds if it is its first, it remembers. Nothing else has changed. */
  lemma AcquireDone(s: State, c: nat, lk: nat)
    requires Inv(s) && !s.halted && c < |s.cpus| && lk < |s.locks|
    requires Top(s.cpus[c]).phase.Idle? && lk !in Top(s.cpus[c]).locks && !s.locks[lk].locked
    ensures Enabled(s, c, CallAcquire(lk))
    ensures Call(s, c, CallAcquire(lk), 8) == Acquired(s, c, lk)
  {
    Seen(s, c, lk);
    AcquireEnds(s, c, lk);
    Ended(s, c, CallAcquire(lk), 8, Acquired(s, c, lk));
  }

  /** CPU c has given the lock back; its context ran with interrupts on or off at the start. */
  function Released(s: State, c: nat, lk: nat, level: bool): (t: State)
    requires c < |s.cpus| && s.cpus[c].stack != [] && lk < |s.locks| && s.cpus[c].noff > 0
    ensures |t.cpus| == |s.cpus| && t.cpus[c].stack != [] && |t.locks| == |s.locks|
    ensures lk !in Top(t.cpus[c]).locks && t.locks[lk] == LockState(false, -1, None)
    ensures Top(s.cpus[c]).phase.Idle? ==> Top(t.cpus[c]).phase.Idle?
  {
    var cpu, x := s.cpus[c], Top(s.cpus[c]);
    s.(cpus := s.cpus[c := WithTop(cpu, x.(locks := x.locks - {lk}))
                             .(intr := cpu.noff == 1 && level, noff := cpu.noff - 1)],
       locks := s.locks[lk := LockState(false, -1, None)])
  }

  lemma ReleaseEnds(s: State, c: nat, lk: nat)
    requires c < |s.cpus| && s.cpus[c].stack != [] && lk < |s.locks| && !s.halted && Top(s.cpus[c]).phase.Idle?
    requires s.locks[lk].locked && s.locks[lk].cpuid == c && !s.cpus[c].intr && s.cpus[c].noff > 0
    ensures Ends(s, c, CallRelease(lk), 6, Released(s, c, lk, s.cpus[c].origin))
  {
    var x := Top(s.cpus[c]).(phase := Held1(lk, ToRelease));
    var v := Get(s, c, lk).(x := x);
    ReleaseLines(v, c, lk);
    CallLines(s, c, lk, CallRelease(lk), x, 6,
              v.(x := x.(phase := Idle, locks := x.locks - {lk}), noff := v.noff - 1, intr := v.noff == 1 && v.origin,
                 lock := LockState(false, -1, None)));
  }

  /** spinlock_release (spinlock.c:67-80) of a lock the CPU has: six lines later the lock is free
      and unsigned, one push_off less is outstanding, and with none left interrupts are as they
      were before the first. */
  lemma ReleaseDone(s: State, c: nat, lk: nat)
    requires Inv(s) && !s.halted && c < |s.cpus| && lk < |s.locks|
    requires Top(s.cpus[c]).phase.Idle? && lk in Top(s.cpus[c]).locks
    ensures Enabled(s, c, CallRelease(lk)) && s.cpus[c].noff > 0
    ensures Call(s, c, CallRelease(lk), 6) == Released(s, c, lk, Top(s.cpus[c]).level)
  {
    Seen(s, c, lk);
    assert |Top(s.cpus[c]).locks| > 0;
    ReleaseEnds(s, c, lk);
    Ended(s, c, CallRelease(lk), 6, Released(s, c, lk, s.cpus[c].origin));
  }

  // ---------- interrupts ----------

  /** An interrupt can come exactly while interrupts are on; its handler starts in client code with
      interrupts off and nothing of its own outstanding, and can return at once; then everything is
      as it was. */
  lemma InterruptDone(s: State, c: nat)
    requires Inv(s) && !s.halted && c < |s.cpus|
    ensures Enabled(s, c, Interrupt) <==> s.cpus[c].intr
    ensures s.cpus[c].intr ==>
      var t := Exec(s, c, Interrupt);
      && |t.cpus| == |s.cpus| && t.cpus[c].stack == s.cpus[c].stack + [Ctx(Idle, false, 0, {}, false)]
      && !t.cpus[c].intr && t.cpus[c].noff == 0
      && Enabled(t, c, Return) && Exec(t, c, Return) == s
  {
    assert CpuOk(s.cpus[c], |s.locks|);
    if s.cpus[c].intr {
      var cpu := s.cpus[c];
      assert (cpu.stack + [Ctx(Idle, false, 0, {}, false)])[..|cpu.stack|] == cpu.stack;
      assert s.cpus[c := cpu] == s.cpus;
    }
  }

  /** What client code may do next: any call on an existing lock, a pop_off for an earlier push_off
      of its own, and, outside all nests, setting the interrupt state. */
  lemma ClientSteps(s: State, c: nat, lk: nat, on: bool)
    requires Inv(s) && c < |s.cpus| && lk < |s.locks| && Top(s.cpus[c]).phase.Idle?
    ensures Enabled(s, c, CallPush) && (Enabled(s, c, CallPop) <==> Top(s.cpus[c]).bare > 0)
    ensures Enabled(s, c, CallAcquire(lk)) && Enabled(s, c, CallRelease(lk)) && Enabled(s, c, CallHolding(lk))
    ensures Enabled(s, c, SetIntr(on)) <==> s.cpus[c].noff == 0
  {
    assert CpuOk(s.cpus[c], |s.locks|);
  }

  // ---------- spinlock_holding, push_off, pop_off ----------

  /** spinlock_holding (spinlock.c:44-47): two lines later the caller knows whether it has the lock,
      and nothing else has changed. */
  lemma HoldingDone(s: State, c: nat, lk: nat)
    requires Inv(s) && !s.halted && c < |s.cpus| && lk < |s.locks| && Top(s.cpus[c]).phase.Idle?
    ensures Enabled(s, c, CallHolding(lk))
    ensures var cpu, x := s.cpus[c], Top(s.cpus[c]);
      Call(s, c, CallHolding(lk), 2) == s.(cpus := s.cpus[c := WithTop(cpu, x.(answer := lk in x.locks))])
  {
    Seen(s, c, lk);
    var x := Top(s.cpus[c]).(phase := Held1(lk, Ask));
    var v := Get(s, c, lk).(x := x);
    var w := v.(x := x.(phase := Idle, answer := v.lock.locked && v.lock.cpuid == c));
    HoldingLines(v, c, lk);
    CallLines(s, c, lk, CallHolding(lk), x, 2, w);
    assert s.locks[lk := s.locks[lk]] == s.locks;
    Ended(s, c, CallHolding(lk), 2, Put(s, c, lk, w));
  }

  lemma PushEnds(s: State, c: nat)
    requires c < |s.cpus| && s.cpus[c].stack != [] && |s.locks| > 0 && !s.halted && Top(s.cpus[c]).phase.Idle?
    ensures var cpu, x := s.cpus[c], Top(s.cpus[c]);
      Ends(s, c, CallPush, 4,
           s.(cpus := s.cpus[c := WithTop(cpu, x.(bare := x.bare + 1))
                                    .(intr := false, noff := cpu.noff + 1,
                                      origin := if cpu.noff == 0 then cpu.intr else cpu.origin)]))
  {
    var x := Top(s.cpus[c]).(phase := Push1(Bare));
    var v := Get(s, c, 0).(x := x);
    PushAlone(v, c, 0);
    CallLines(s, c, 0, CallPush, x, 4, Pushed(v, x.(phase := Idle, bare := x.bare + 1)));
    assert s.locks[0 := s.locks[0]] == s.locks;
  }

  /** push_off (spinlock.c:13-21): four lines later interrupts are off. */
  lemma PushDone(s: State, c: nat)
    requires Inv(s) && !s.halted && c < |s.cpus| && |s.locks| > 0 && Top(s.cpus[c]).phase.Idle?
    ensures Enabled(s, c, CallPush)
    ensures var cpu, x := s.cpus[c], Top(s.cpus[c]);
      Call(s, c, CallPush, 4) ==
      s.(cpus := s.cpus[c := WithTop(cpu, x.(bare := x.bare + 1))
                               .(intr := false, noff := cpu.noff + 1,
                                 origin := if cpu.noff == 0 then cpu.intr else cpu.origin)])
  {
    Seen(s, c, 0);
    PushEnds(s, c);
    var cpu, x := s.cpus[c], Top(s.cpus[c]);
    Ended(s, c, CallPush, 4, s.(cpus := s.cpus[c := WithTop(cpu, x.(bare := x.bare + 1))
                                                      .(intr := false, noff := cpu.noff + 1,
                                                        origin := if cpu.noff == 0 then cpu.intr else cpu.origin)]));
  }

  lemma PopEnds(s: State, c: nat)
    requires c < |s.cpus| && s.cpus[c].stack != [] && |s.locks| > 0 && !s.halted && Top(s.cpus[c]).phase.Idle?
    requires Top(s.cpus[c]).bare > 0 && !s.cpus[c].intr && s.cpus[c].noff > 0
    ensures var cpu, x := s.cpus[c], Top(s.cpus[c]);
      Ends(s, c, CallPop, 2, s.(cpus := s.cpus[c := WithTop(cpu, x.(bare := x.bare - 1))
                                    .(intr := cpu.noff == 1 && cpu.origin, noff := cpu.noff - 1)]))
  {
    var x := Top(s.cpus[c]).(phase := Pop1, bare := Top(s.cpus[c]).bare - 1);
    var v := Get(s, c, 0).(x := x);
    PopLines(v, c, 0);
    CallLines(s, c, 0, CallPop, x, 2, v.(x := x.(phase := Idle), noff := v.noff - 1, intr := v.noff == 1 && v.origin));
    assert s.locks[0 := s.locks[0]] == s.locks;
  }

  /** pop_off (spinlock.c:24-32): two lines later one push_off less is outstanding, and with none
      left interrupts are as they were before the first. */
  lemma PopDone(s: State, c: nat)
    requires Inv(s) && !s.halted && c < |s.cpus| && |s.locks| > 0
    requires Top(s.cpus[c]).phase.Idle? && Top(s.cpus[c]).bare > 0
    ensures Enabled(s, c, CallPop) && s.cpus[c].noff > 0
    ensures var cpu, x := s.cpus[c], Top(s.cpus[c]);
      Call(s, c, CallPop, 2) ==
      s.(cpus := s.cpus[c := WithTop(cpu, x.(bare := x.bare - 1))
                               .(intr := cpu.noff == 1 && x.level, noff := cpu.noff - 1)])
  {
    Seen(s, c, 0);
    PopEnds(s, c);
    var cpu, x := s.cpus[c], Top(s.cpus[c]);
    Ended(s, c, CallPop, 2, s.(cpus := s.cpus[c := WithTop(cpu, x.(bare := x.bare - 1))
                                                     .(intr := cpu.noff == 1 && cpu.origin, noff := cpu.noff - 1)]));
  }
}
