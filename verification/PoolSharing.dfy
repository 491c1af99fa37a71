/** The region-node pool shared by all CPUs (src/kernel/mem/mmap.c:43-69): the reads and
    writes inside mmap_region_alloc and mmap_region_free as separate steps, under the pool's
    spinlock, interleaved with every other step of every CPU. */
module PoolSharing {
  import opened Layout
  import opened Outcomes
  import opened Spinlock

  /** Index of list_lk among the locks. */
  const POOL: nat := 0

  /** How far a CPU is inside mmap_region_alloc or mmap_region_free. */
  datatype PoolOp = NoOp | Took(found: Option<nat>) | Linked(mine: nat)

  /** Nodes are numbered. `chain` is the free list, first node first; `holder` says which
      CPU's code has each node that is not free. */
  datatype Pool = Pool(head: Option<nat>, next: map<nat, Option<nat>>, chain: seq<nat>, holder: map<nat, nat>,
                       op: seq<PoolOp>)

  datatype World = World(locks: State, pool: Pool)

  /** LockStep is any step of module Spinlock. The others are lines of mmap.c: 46 reads the
      head; 47-48 takes the node off; 65 links a node in front; 66 makes it the head. Pass
      hands a node to the code of another CPU. */
  datatype Step = LockStep(act: Act) | ReadHead | TakeHead | LinkNode(node: nat) | PushNode | Pass(node: nat, to: nat)

  function After(chain: seq<nat>, i: int): Option<nat> {
    if 0 <= i + 1 < |chain| then Some(chain[i + 1]) else None
  }

  predicate HasPool(s: State, c: nat) {
    c < |s.cpus| && s.cpus[c].stack != [] && Top(s.cpus[c]).phase.Idle? && POOL in Top(s.cpus[c]).locks
  }

  /** The code takes its steps in order: nothing else between the first and the last line of
      a critical section, and those lines only with the lock. */
  predicate CanStep(w: World, c: nat, step: Step) {
    && c < |w.pool.op| == |w.locks.cpus| && !w.locks.halted
    && match step
       case LockStep(act) => w.pool.op[c].NoOp? && Enabled(w.locks, c, act)
       case ReadHead => w.pool.op[c].NoOp? && HasPool(w.locks, c)
       case TakeHead => w.pool.op[c].Took? && HasPool(w.locks, c)
       case LinkNode(node) =>
         w.pool.op[c].NoOp? && HasPool(w.locks, c) && node in w.pool.holder && w.pool.holder[node] == c
       case PushNode => w.pool.op[c].Linked? && HasPool(w.locks, c)
       case Pass(node, to) =>
         w.pool.op[c].NoOp? && node in w.pool.holder && w.pool.holder[node] == c && to < |w.pool.op|
  }

  function PoolStep(p: Pool, c: nat, step: Step): Pool
    requires c < |p.op|
  {
    match step
    case LockStep(_) => p
    case ReadHead => p.(op := p.op[c := Took(p.head)])
    case TakeHead =>
      if p.op[c].Took? && p.op[c].found.Some? && p.op[c].found.value in p.next && p.chain != [] then
        var n := p.op[c].found.value;
        Pool(p.next[n], p.next, p.chain[1..], p.holder[n := c], p.op[c := NoOp])
      else p.(op := p.op[c := NoOp])
    case LinkNode(node) => p.(next := p.next[node := p.head], op := p.op[c := Linked(node)])
    case PushNode =>
      if p.op[c].Linked? then
        var n := p.op[c].mine;
        Pool(Some(n), p.next, [n] + p.chain, p.holder - {n}, p.op[c := NoOp])
      else p
    case Pass(node, to) => p.(holder := p.holder[node := to])
  }

  function Do(w: World, c: nat, step: Step): World
    requires CanStep(w, c, step)
  {
    match step
    case LockStep(act) => World(Exec(w.locks, c, act), w.pool)
    case _ => World(w.locks, PoolStep(w.pool, c, step))
  }

  /** The free list is what the links say, and every node is free or with exactly one holder. */
  ghost predicate PoolOk(p: Pool, nodes: nat) {
    && p.head == After(p.chain, -1)
    && (forall i :: 0 <= i < |p.chain| ==> p.chain[i] in p.next)
    && (forall i {:trigger After(p.chain, i)} :: 0 <= i < |p.chain| ==> p.next[p.chain[i]] == After(p.chain, i))
    && (forall i, j :: 0 <= i < j < |p.chain| ==> p.chain[i] != p.chain[j])
    && (forall n :: n in p.chain ==> n !in p.holder)
    && (forall n :: 0 <= n < nodes <==> n in p.chain || n in p.holder)
    && |p.chain| + |p.holder| == nodes
  }

  /** What a CPU inside a critical section relies on. */
  predicate OpOk(p: Pool, s: State, c: nat)
    requires c < |p.op|
  {
    match p.op[c]
    case NoOp => true
    case Took(node) => HasPool(s, c) && node == p.head
    case Linked(node) =>
      HasPool(s, c) && node in p.holder && p.holder[node] == c && node in p.next && p.next[node] == p.head
  }

  ghost predicate WorldInv(w: World, nodes: nat) {
    && Inv(w.locks) && 0 < |w.locks.locks|
    && |w.pool.op| == |w.locks.cpus|
    && PoolOk(w.pool, nodes)
    && forall c :: 0 <= c < |w.pool.op| ==> OpOk(w.pool, w.locks, c)
  }

  /** Only one CPU can be in the middle of a critical section. */
  lemma OneInside(w: World, nodes: nat, c: nat, d: nat)
    requires WorldInv(w, nodes) && HasPool(w.locks, c) && d < |w.pool.op| && !w.pool.op[d].NoOp?
    ensures c == d
  {
    assert OpOk(w.pool, w.locks, d);
    assert HasPool(w.locks, d);
    InsideTop(w.locks.cpus[c], |w.locks.locks|, POOL);
    InsideTop(w.locks.cpus[d], |w.locks.locks|, POOL);
    MutualExclusion(w.locks, c, d, POOL);
  }

  /** Taking the head off. */
  lemma TakeKeeps(p: Pool, nodes: nat, c: nat)
    requires PoolOk(p, nodes) && c < |p.op| && p.op[c] == Took(p.head)
    ensures PoolOk(PoolStep(p, c, TakeHead), nodes)
  {
    if p.head.Some? {
      var q := PoolStep(p, c, TakeHead);
      assert p.next[p.chain[0]] == After(p.chain, 0);
      assert q.chain == p.chain[1..] && p.chain == [p.chain[0]] + q.chain;
      forall i | 0 <= i < |q.chain|
        ensures q.chain[i] in q.next && q.next[q.chain[i]] == After(q.chain, i)
      {
        assert p.next[p.chain[i + 1]] == After(p.chain, i + 1);
      }
    }
  }

  /** Putting a held node in front. */
  lemma PushKeeps(p: Pool, nodes: nat, c: nat, n: nat)
    requires PoolOk(p, nodes) && c < |p.op| && p.op[c] == Linked(n) && n in p.holder && n in p.next
    requires p.next[n] == p.head
    ensures PoolOk(PoolStep(p, c, PushNode), nodes)
  {
    var q := PoolStep(p, c, PushNode);
    forall i | 0 <= i < |q.chain|
      ensures q.chain[i] in q.next && q.next[q.chain[i]] == After(q.chain, i)
    {
      if i > 0 {
        assert p.next[p.chain[i - 1]] == After(p.chain, i - 1);
      } else {
        assert After(q.chain, 0) == After(p.chain, -1);
      }
    }
    assert q.holder.Keys == p.holder.Keys - {n};
    assert |q.holder.Keys| == |q.holder|;
  }

  /** Rewriting the link of a node that is not free. */
  lemma LinkKeeps(p: Pool, nodes: nat, c: nat, n: nat)
    requires PoolOk(p, nodes) && c < |p.op| && n in p.holder
    ensures PoolOk(PoolStep(p, c, LinkNode(n)), nodes)
  {
    var q := PoolStep(p, c, LinkNode(n));
    forall i | 0 <= i < |q.chain|
      ensures q.chain[i] in q.next && q.next[q.chain[i]] == After(q.chain, i)
    {
      assert p.next[p.chain[i]] == After(p.chain, i);
      assert p.chain[i] in p.chain;
    }
  }

  lemma PassKeeps(p: Pool, nodes: nat, c: nat, n: nat, to: nat)
    requires PoolOk(p, nodes) && c < |p.op| && n in p.holder
    ensures PoolOk(PoolStep(p, c, Pass(n, to)), nodes)
  {
    var q := PoolStep(p, c, Pass(n, to));
    assert q.holder.Keys == p.holder.Keys;
    assert |q.holder.Keys| == |q.holder| && |p.holder.Keys| == |p.holder|;
  }

  /** A step of the locks leaves every CPU that is in the middle of a critical section there. */
  lemma LockStepKeeps(w: World, nodes: nat, c: nat, act: Act)
    requires WorldInv(w, nodes) && CanStep(w, c, LockStep(act))
    ensures WorldInv(Do(w, c, LockStep(act)), nodes)
  {
    var t := Exec(w.locks, c, act);
    StepKeeps(w.locks, c, act);
    forall d | 0 <= d < |w.pool.op|
      ensures OpOk(w.pool, t, d)
    {
      assert OpOk(w.pool, w.locks, d);
      if d != c {
        OtherCpu(w.locks, c, act, d);
      }
    }
  }

  lemma OtherCpu(s: State, c: nat, act: Act, d: nat)
    requires Enabled(s, c, act) && d < |s.cpus| && d != c
    ensures |Exec(s, c, act).cpus| == |s.cpus| && Exec(s, c, act).cpus[d] == s.cpus[d]
    ensures |Exec(s, c, act).locks| == |s.locks|
  {
  }

  /** Every step of every CPU keeps the pool: no node is lost, none is in two places. */
  lemma DoKeeps(w: World, nodes: nat, c: nat, step: Step)
    requires WorldInv(w, nodes) && CanStep(w, c, step)
    ensures WorldInv(Do(w, c, step), nodes)
  {
    assert OpOk(w.pool, w.locks, c);
    match step
    case LockStep(act) => LockStepKeeps(w, nodes, c, act);
    case ReadHead =>
      assert PoolOk(PoolStep(w.pool, c, step), nodes);
      Others(w, nodes, c, step);
    case TakeHead =>
      TakeKeeps(w.pool, nodes, c);
      Others(w, nodes, c, step);
    case LinkNode(n) =>
      LinkKeeps(w.pool, nodes, c, n);
      Others(w, nodes, c, step);
    case PushNode =>
      PushKeeps(w.pool, nodes, c, w.pool.op[c].mine);
      Others(w, nodes, c, step);
    case Pass(n, to) =>
      PassKeeps(w.pool, nodes, c, n, to);
      forall d | 0 <= d < |w.pool.op|
        ensures OpOk(PoolStep(w.pool, c, step), w.locks, d)
      {
        assert OpOk(w.pool, w.locks, d);
      }
  }

  /** During one CPU's critical section no other CPU is in the middle of one. */
  lemma Others(w: World, nodes: nat, c: nat, step: Step)
    requires WorldInv(w, nodes) && CanStep(w, c, step) && !step.LockStep? && !step.Pass?
    ensures forall d :: 0 <= d < |w.pool.op| ==> OpOk(PoolStep(w.pool, c, step), w.locks, d)
    ensures |PoolStep(w.pool, c, step).op| == |w.pool.op|
  {
    forall d | 0 <= d < |w.pool.op|
      ensures OpOk(PoolStep(w.pool, c, step), w.locks, d)
    {
      assert OpOk(w.pool, w.locks, d);
      if !w.pool.op[d].NoOp? {
        OneInside(w, nodes, c, d);
      }
    }
  }

  // ---------- what the critical sections get done ----------

  /** mmap_region_alloc (mmap.c:46-50) with the lock: the first free node, if there is one, is now
      this CPU's, the others are free in the same order, and the section is over. */
  lemma AllocDone(w: World, nodes: nat, c: nat)
    requires WorldInv(w, nodes) && !w.locks.halted && c < |w.pool.op| && w.pool.op[c].NoOp? && HasPool(w.locks, c)
    ensures forall act :: Enabled(w.locks, c, act) ==> CanStep(w, c, LockStep(act))
    ensures CanStep(w, c, ReadHead) && CanStep(Do(w, c, ReadHead), c, TakeHead)
    ensures var p, q := w.pool, Do(Do(w, c, ReadHead), c, TakeHead).pool;
      && q.op == p.op && q.next == p.next
      && (p.chain == [] ==> q == p)
      && (p.chain != [] ==> q.chain == p.chain[1..] && q.holder == p.holder[p.chain[0] := c])
  {
    var p := w.pool;
    assert p.head == After(p.chain, -1);
    assert p.op[c := Took(p.head)][c := NoOp] == p.op;
  }

  /** mmap_region_free (mmap.c:65-66) with the lock: the node is the first free one again. */
  lemma FreeDone(w: World, nodes: nat, c: nat, n: nat)
    requires WorldInv(w, nodes) && !w.locks.halted && c < |w.pool.op| && w.pool.op[c].NoOp? && HasPool(w.locks, c)
    requires n in w.pool.holder && w.pool.holder[n] == c
    ensures CanStep(w, c, LinkNode(n)) && CanStep(Do(w, c, LinkNode(n)), c, PushNode)
    ensures var p, q := w.pool, Do(Do(w, c, LinkNode(n)), c, PushNode).pool;
      && q.op == p.op && q.chain == [n] + p.chain && q.holder == p.holder - {n}
      && q.head == Some(n) && n in q.next && q.next[n] == p.head
  {
    var p := w.pool;
    assert p.op[c := Linked(n)][c := NoOp] == p.op;
  }

  datatype Turn = Turn(c: nat, step: Step)

  ghost predicate WorldRun(ws: seq<World>, ts: seq<Turn>) {
    && |ws| == |ts| + 1
    && forall i {:trigger ts[i]} :: 0 <= i < |ts| ==>
         CanStep(ws[i], ts[i].c, ts[i].step) && ws[i + 1] == Do(ws[i], ts[i].c, ts[i].step)
  }

  /** Node conservation over every interleaving: at all times every node is either on the
      free list or with exactly one holder, and together they are all the nodes. */
  lemma {:induction false} NodesConserved(ws: seq<World>, ts: seq<Turn>, nodes: nat, n: nat)
    requires WorldRun(ws, ts) && WorldInv(ws[0], nodes) && n <= |ts|
    ensures WorldInv(ws[n], nodes)
    ensures |ws[n].pool.chain| + |ws[n].pool.holder| == nodes
    ensures forall v :: v in ws[n].pool.chain ==> v !in ws[n].pool.holder
  {
    if n > 0 {
      NodesConserved(ws, ts, nodes, n - 1);
      assert CanStep(ws[n - 1], ts[n - 1].c, ts[n - 1].step);
      DoKeeps(ws[n - 1], nodes, ts[n - 1].c, ts[n - 1].step);
    }
  }

  // ---------- the state in which runs start ----------

  /** mmap_init (mmap.c:31-41): every node is put in front of the free list, node 0 first. */
  function InitPool(nodes: nat, cpus: nat): Pool {
    if nodes == 0 then Pool(None, map[], [], map[], seq(cpus, _ => NoOp))
    else
      var p := InitPool(nodes - 1, cpus);
      Pool(Some(nodes - 1), p.next[nodes - 1 := p.head], [nodes - 1] + p.chain, map[], p.op)
  }

  lemma {:induction false} InitChain(nodes: nat, cpus: nat)
    ensures var p := InitPool(nodes, cpus);
      && |p.chain| == nodes && p.op == seq(cpus, _ => NoOp) && p.holder == map[]
      && forall i :: 0 <= i < nodes ==> p.chain[i] == nodes - 1 - i
  {
    if nodes > 0 {
      InitChain(nodes - 1, cpus);
    }
  }

  lemma {:induction false} InitLinks(nodes: nat, cpus: nat)
    ensures var p := InitPool(nodes, cpus);
      && p.head == After(p.chain, -1)
      && forall i {:trigger After(p.chain, i)} :: 0 <= i < |p.chain| ==>
           p.chain[i] in p.next && p.next[p.chain[i]] == After(p.chain, i)
  {
    InitChain(nodes, cpus);
    if nodes > 0 {
      InitLinks(nodes - 1, cpus);
      InitChain(nodes - 1, cpus);
      var p, q := InitPool(nodes, cpus), InitPool(nodes - 1, cpus);
      forall i | 0 <= i < |p.chain|
        ensures p.chain[i] in p.next && p.next[p.chain[i]] == After(p.chain, i)
      {
        if i > 0 {
          assert After(q.chain, i - 1) == After(p.chain, i);
          assert q.chain[i - 1] in q.next && q.chain[i - 1] == p.chain[i] != nodes - 1;
        }
      }
    }
  }

  lemma InitOk(nodes: nat, cpus: nat)
    ensures PoolOk(InitPool(nodes, cpus), nodes)
  {
    InitChain(nodes, cpus);
    InitLinks(nodes, cpus);
    var p := InitPool(nodes, cpus);
    forall n | 0 <= n < nodes
      ensures n in p.chain
    {
      assert p.chain[nodes - 1 - n] == n;
    }
    assert forall i :: 0 <= i < |p.chain| ==> After(p.chain, i) == After(p.chain, i) && p.chain[i] in p.next;
  }

  /** The kernel after boot: spinlock_init on every lock, all nodes free, no CPU inside. */
  ghost predicate WorldBooted(w: World, nodes: nat) {
    Booted(w.locks) && 0 < |w.locks.locks| && w.pool == InitPool(nodes, |w.locks.cpus|)
  }

  lemma WorldBootedInv(w: World, nodes: nat)
    requires WorldBooted(w, nodes)
    ensures WorldInv(w, nodes)
  {
    BootedInv(w.locks);
    InitOk(nodes, |w.locks.cpus|);
    InitChain(nodes, |w.locks.cpus|);
  }

  /** Node conservation from boot on, for the N_MMAP nodes of the kernel. */
  lemma NodesConservedFromBoot(ws: seq<World>, ts: seq<Turn>, n: nat)
    requires WorldRun(ws, ts) && WorldBooted(ws[0], N_MMAP) && n <= |ts|
    ensures |ws[n].pool.chain| + |ws[n].pool.holder| == N_MMAP
    ensures forall v :: 0 <= v < N_MMAP <==> (v in ws[n].pool.chain || v in ws[n].pool.holder)
    ensures forall v :: v in ws[n].pool.chain ==> v !in ws[n].pool.holder
  {
    WorldBootedInv(ws[0], N_MMAP);
    NodesConserved(ws, ts, N_MMAP, n);
  }
}
