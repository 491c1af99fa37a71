/** The heap copy of uvm_copy_pgtbl as it is written (src/kernel/mem/uvm.c:518): uvm_copyin with
    an address inside the kernel as its target. It stores into physical pages that nobody has
    set aside for it, possibly into the tables it is walking, so it is followed on memory as
    it is, without assuming that the page tables stay page tables. */
module HeapCopy {
  import opened Layout
  import opened Outcomes
  import opened PhysMem
  import opened PageTree
  import opened Kvm

  // ---------- vm_getpte on memory as it is ----------

  /** vm_getpte without `alloc` (kvm.c:22-55) from a table of the given level on: the entry it
      points to, None for NULL, and a halt where a table is not memory at all. */
  function Walk(mem: Memory, pgtbl: nat, va: nat, level: nat): Outcome<Option<nat>>
    requires level <= 2
    decreases level
  {
    if pgtbl !in mem then Panicked
    else
      var pte := mem[pgtbl][VaToVpn(va, level)];
      if level == 0 then Returned(Some(pte))
      else if !HasV(pte) || !PteCheck(pte) then Returned(None)
      else Walk(mem, PteToPa(pte), va, level - 1)
  }

  /** uvm.c:25-30: the frame behind a user address; None when the copy has to give up. */
  function UserFrame(mem: Memory, root: nat, va: nat): Outcome<Option<nat>> {
    if va >= VA_MAX then Returned(None)
    else
      var w := Walk(mem, root, va, 2);
      if w.Panicked? then Panicked
      else if w.value.Some? && HasV(w.value.value) && HasU(w.value.value) then Returned(Some(PteToPa(w.value.value)))
      else Returned(None)
  }

  predicate UserPage(flat: map<nat, nat>, v: nat) { v < PAGES && v in flat && HasU(flat[v]) }

  /** While the tables are intact, that is what the translations say. */
  lemma UserFrameMeans(mem: Memory, t: Tree, tables: set<nat>, flat: map<nat, nat>, va: nat)
    requires Means(mem, t, tables, flat)
    ensures UserFrame(mem, t.root, va) ==
      Returned(if UserPage(flat, Page(va)) then Some(PteToPa(flat[Page(va)])) else None)
  {
    var v := Page(va);
    if va < VA_MAX {
      VpnOfPage(va);
      MeansEntry(mem, t, tables, flat, v, 2);
      MeansLeaf(mem, t, tables, flat, v);
      if I2(v) in t.mid {
        MeansEntry(mem, t, tables, flat, v, 1);
        WalkLow(mem, t, va);
      }
    }
  }

  lemma WalkLow(mem: Memory, t: Tree, va: nat)
    requires t.root in mem && I2(Page(va)) in t.mid && t.mid[I2(Page(va))] in mem && va < VA_MAX
    requires var w := mem[t.root][I2(Page(va))]; HasV(w) && PteCheck(w) && PteToPa(w) == t.mid[I2(Page(va))]
    ensures Walk(mem, t.root, va, 2) == Walk(mem, t.mid[I2(Page(va))], va, 1)
    ensures var w := mem[t.mid[I2(Page(va))]][I1(Page(va))];
      Walk(mem, t.mid[I2(Page(va))], va, 1) ==
      if !HasV(w) || !PteCheck(w) then Returned(None) else Walk(mem, PteToPa(w), va, 0)
  {
    VpnOfPage(va);
  }

  // ---------- memmove into a page ----------

  /** Byte r of a word. */
  function WordByte(word: nat, r: nat): (b: nat)
    ensures b < 256
  {
    if r == 0 then word % 256 else WordByte(word / 256, r - 1)
  }

  /** Byte i of a page. */
  function PageByte(f: Frame, i: nat): nat
    requires i < 4096
  {
    WordByte(f[i / 8], i % 8)
  }

  /** The low r bytes of `top` and the other bytes of `word`. */
  function MixWord(word: nat, top: nat, r: nat): nat {
    if r == 0 then word else top % 256 + 256 * MixWord(word / 256, top / 256, r - 1)
  }

  function MixAt(page: Frame, top: Frame, k: nat, i: nat): nat
    requires i < 512
  {
    if 8 * i + 8 <= k then top[i] else if k <= 8 * i then page[i] else MixWord(page[i], top[i], k - 8 * i)
  }

  /** A page after its first k bytes have been overwritten with those of another. */
  function Mixed(page: Frame, top: Frame, k: nat): Frame {
    seq(512, i requires 0 <= i < 512 => MixAt(page, top, k, i))
  }

  lemma {:induction false} MixedWord(word: nat, top: nat, r: nat, b: nat)
    ensures WordByte(MixWord(word, top, r), b) == if b < r then WordByte(top, b) else WordByte(word, b)
  {
    if r > 0 {
      var rest := MixWord(word / 256, top / 256, r - 1);
      assert (top % 256 + 256 * rest) % 256 == top % 256 && (top % 256 + 256 * rest) / 256 == rest;
      if b > 0 {
        MixedWord(word / 256, top / 256, r - 1, b - 1);
      }
    }
  }

  /** Byte for byte that is a memmove of the first k bytes. */
  lemma MixedBytes(page: Frame, top: Frame, k: nat, i: nat)
    requires i < 4096
    ensures PageByte(Mixed(page, top, k), i) == if i < k then PageByte(top, i) else PageByte(page, i)
  {
    var w := i / 8;
    if w * 8 < k < w * 8 + 8 {
      MixedWord(page[w], top[w], k - w * 8, i % 8);
    }
  }

  lemma MixedWhole(page: Frame, top: Frame)
    ensures Mixed(page, top, 4096) == top
  {
  }

  // ---------- uvm_copyin into physical memory ----------

  /** What n holds after i rounds: as written it loses a whole page every time, as a uint64. */
  function Remains(len: nat, i: nat): nat {
    if i * 4096 <= len then len - i * 4096 else if i * 4096 <= len + TWO64 then len + TWO64 - i * 4096 else 0
  }

  function Piece(len: nat, i: nat): nat {
    if Remains(len, i) < 4096 then Remains(len, i) else 4096
  }

  /** `n -= PGSIZE` (uvm.c:21) */
  lemma RemainsNext(len: nat, i: nat)
    requires i < PAGES && len < TWO64 && Remains(len, i) > 0
    ensures Remains(len, i + 1) == (Remains(len, i) + TWO64 - PGSIZE) % 0x1_0000_0000_0000_0000
    ensures len % 4096 == 0 && i <= len / 4096 ==> i + 1 <= len / 4096
  {
    if i * 4096 + 4096 <= len {
      assert (Remains(len, i) + TWO64 - PGSIZE) % 0x1_0000_0000_0000_0000 == Remains(len, i) - PGSIZE;
    }
  }

  function NthPage(dst: nat, i: nat): nat { dst + i * 4096 }

  /** Stores to consecutive pages from dst on. */
  ghost predicate InRow(stores: seq<nat>, dst: nat) {
    forall i :: 0 <= i < |stores| ==> stores[i] == NthPage(dst, i)
  }

  /** Only the given pages have been written. */
  ghost predicate OnlyAt(mem: Memory, stores: seq<nat>, mem': Memory) {
    mem'.Keys == mem.Keys && forall p :: p in mem && p !in stores ==> mem'[p] == mem[p]
  }

  /** The pages that the walk reads and the frames it copies from. */
  ghost function Sources(tables: set<nat>, flat: map<nat, nat>): set<nat> {
    tables + FramesOf(flat, flat.Keys)
  }

  /** The first n pages from dst on are none of them. */
  ghost predicate Spares(dst: nat, n: nat, sources: set<nat>) {
    forall i: nat :: i < n ==> NthPage(dst, i) !in sources
  }

  /** How many pages from dst on, n at most, are none of them: the next one is hit. */
  ghost function Clear(dst: nat, n: nat, sources: set<nat>): (k: nat)
    ensures k <= n && Spares(dst, k, sources) && (k < n ==> NthPage(dst, k) in sources)
    ensures Spares(dst, n, sources) <==> k == n
  {
    if n == 0 then 0
    else
      var k := Clear(dst, n - 1, sources);
      if k < n - 1 || NthPage(dst, n - 1) in sources then k else n
  }

  /** Stores up to the first one that hits a source, that one included. */
  function Known(stores: seq<nat>, clear: nat): nat {
    if |stores| <= clear then |stores| else clear + 1
  }

  /** The i-th page from v on is a user page, and its contents (or a last, shorter piece of
      them) have been stored to the i-th page from dst on. */
  ghost predicate MovedAt(mem: Memory, flat: map<nat, nat>, v: nat, dst: nat, len: nat, i: nat, mem': Memory) {
    && i < PAGES && UserPage(flat, v + i)
    && PteToPa(flat[v + i]) in mem && NthPage(dst, i) in mem && NthPage(dst, i) in mem'
    && mem'[NthPage(dst, i)] == Mixed(mem[NthPage(dst, i)], mem[PteToPa(flat[v + i])], Piece(len, i))
  }

  ghost predicate Moved(mem: Memory, flat: map<nat, nat>, v: nat, dst: nat, len: nat, n: nat, mem': Memory) {
    forall i: nat :: i < n ==> MovedAt(mem, flat, v, dst, len, i, mem')
  }

  /** The walk and the frames it reads are untouched. */
  ghost predicate OnTrack(mem: Memory, t: Tree, tables: set<nat>, flat: map<nat, nat>, mem': Memory) {
    && Means(mem', t, tables, flat)
    && forall p :: p in mem && p in Sources(tables, flat) ==> p in mem' && mem'[p] == mem[p]
  }

  /** One more store, to a page that is no source. */
  lemma TrackStore(mem: Memory, t: Tree, tables: set<nat>, flat: map<nat, nat>, m1: Memory, d: nat, page: Frame)
    requires OnTrack(mem, t, tables, flat, m1) && d in m1 && d !in Sources(tables, flat)
    ensures OnTrack(mem, t, tables, flat, m1[d := page])
  {
    MeansFrame(m1, m1[d := page], t, tables, flat);
  }

  /** One more page moved, the sources being as they were. */
  lemma MovedMore(mem: Memory, flat: map<nat, nat>, v: nat, dst: nat, len: nat, n: nat, m1: Memory, m2: Memory)
    requires Moved(mem, flat, v, dst, len, n, m1) && n < PAGES && UserPage(flat, v + n)
    requires NthPage(dst, n) in mem && NthPage(dst, n) in m1 && m1[NthPage(dst, n)] == mem[NthPage(dst, n)]
    requires PteToPa(flat[v + n]) in mem && PteToPa(flat[v + n]) in m1
    requires m1[PteToPa(flat[v + n])] == mem[PteToPa(flat[v + n])]
    requires m2 == m1[NthPage(dst, n) := Mixed(m1[NthPage(dst, n)], m1[PteToPa(flat[v + n])], Piece(len, n))]
    ensures Moved(mem, flat, v, dst, len, n + 1, m2)
  {
    forall i: nat | i < n + 1
      ensures MovedAt(mem, flat, v, dst, len, i, m2)
    {
      if i < n {
        assert MovedAt(mem, flat, v, dst, len, i, m1);
      }
    }
  }

  /** A store further on leaves the pages moved so far. */
  lemma MovedKept(mem: Memory, flat: map<nat, nat>, v: nat, dst: nat, len: nat, n: nat, m1: Memory, i: nat, m2: Memory)
    requires Moved(mem, flat, v, dst, len, n, m1) && n <= i && NthPage(dst, i) in m2
    requires m2 == m1[NthPage(dst, i) := m2[NthPage(dst, i)]]
    ensures Moved(mem, flat, v, dst, len, n, m2)
  {
    forall j: nat | j < n
      ensures MovedAt(mem, flat, v, dst, len, j, m2)
    {
      assert MovedAt(mem, flat, v, dst, len, j, m1);
    }
  }

  /** What a copy is about: memory, tables and translations at its start, the first user page,
      the target, the length, and how many pages from the target on are no sources. */
  datatype Trip = Trip(mem: Memory, tree: Tree, tables: set<nat>, flat: map<nat, nat>, v: nat, dst: nat, len: nat,
                       clear: nat) {
    ghost predicate Ok() {
      Means(mem, tree, tables, flat) && Spares(dst, clear, Sources(tables, flat))
    }
  }

  /** The state after the given stores. */
  ghost predicate Track(c: Trip, stores: seq<nat>, mem: Memory) {
    forall k {:trigger Opened(Closed.Copying, k)} :: Sealed(Closed.Copying, k) ==>
      && InRow(stores, c.dst) && OnlyAt(c.mem, stores, mem)
      && Moved(c.mem, c.flat, c.v, c.dst, c.len, Known(stores, c.clear), mem)
      && (|stores| <= c.clear ==> OnTrack(c.mem, c.tree, c.tables, c.flat, mem))
  }

  lemma TrackStart(c: Trip)
    requires c.Ok()
    ensures Track(c, [], c.mem)
  {
    assert InRow([], c.dst) && OnlyAt(c.mem, [], c.mem);
    assert Moved(c.mem, c.flat, c.v, c.dst, c.len, Known([], c.clear), c.mem)
      && OnTrack(c.mem, c.tree, c.tables, c.flat, c.mem);
  }

  /** What the next round reads, while everything is on track. */
  lemma TrackFrame(c: Trip, stores: seq<nat>, mem: Memory, va: nat)
    requires Track(c, stores, mem) && |stores| <= c.clear
    ensures UserFrame(mem, c.tree.root, va) ==
      Returned(if UserPage(c.flat, Page(va)) then Some(PteToPa(c.flat[Page(va)])) else None)
  {
    assert Opened(Closed.Copying, 0);
    UserFrameMeans(mem, c.tree, c.tables, c.flat, va);
  }

  lemma TrackNext(c: Trip, stores: seq<nat>, m1: Memory, pa: nat)
    requires Track(c, stores, m1) && c.Ok() && |stores| < PAGES
    requires |stores| <= c.clear ==> UserPage(c.flat, c.v + |stores|) && pa == PteToPa(c.flat[c.v + |stores|])
    ensures var d, i := NthPage(c.dst, |stores|), |stores|;
      d in m1 && pa in m1 ==> Track(c, stores + [d], m1[d := Mixed(m1[d], m1[pa], Piece(c.len, i))])
  {
    assert Opened(Closed.Copying, 0);
    var d, i := NthPage(c.dst, |stores|), |stores|;
    assert d !in stores;
    assert forall p :: p in stores + [d] <==> p in stores || p == d;
    if d in m1 && pa in m1 {
      var m2 := m1[d := Mixed(m1[d], m1[pa], Piece(c.len, i))];
      assert InRow(stores + [d], c.dst) && OnlyAt(c.mem, stores + [d], m2);
      if i <= c.clear {
        assert pa in FramesOf(c.flat, c.flat.Keys);
        MovedMore(c.mem, c.flat, c.v, c.dst, c.len, i, m1, m2);
      } else {
        MovedKept(c.mem, c.flat, c.v, c.dst, c.len, c.clear + 1, m1, i, m2);
      }
      if i < c.clear {
        TrackStore(c.mem, c.tree, c.tables, c.flat, m1, d, m2[d]);
      }
      assert Moved(c.mem, c.flat, c.v, c.dst, c.len, Known(stores + [d], c.clear), m2);
    }
  }

  /** A store that memory does not take. */
  lemma TrackLost(c: Trip, stores: seq<nat>, mem: Memory)
    requires Track(c, stores, mem)
    ensures InRow(stores, c.dst) && InRow(stores + [NthPage(c.dst, |stores|)], c.dst)
    ensures OnlyAt(c.mem, stores, mem) && OnlyAt(c.mem, stores + [NthPage(c.dst, |stores|)], mem)
    ensures Moved(c.mem, c.flat, c.v, c.dst, c.len, Known(stores, c.clear), mem)
  {
    assert Opened(Closed.Copying, 0);
  }

  /** The copy as it runs on memory as it is, whatever its stores hit: answer and memory at the
      end. */
  function Run(mem: Memory, root: nat, s: nat, d: nat, n: nat): (Outcome<int>, Memory)
    decreases if s < VA_MAX then VA_MAX - s else 0
  {
    var frame := UserFrame(mem, root, s);
    if n == 0 then (Returned(0), mem)
    else if frame.Panicked? then (Panicked, mem)
    else if frame.value.None? then (Returned(-1), mem)
    else if d !in mem || frame.value.value !in mem then (Panicked, mem)
    else
      var page := Mixed(mem[d], mem[frame.value.value], if n < 4096 then n else 4096);
      Run(mem[d := page], root, s + PGSIZE, d + PGSIZE, (n + TWO64 - PGSIZE) % 0x1_0000_0000_0000_0000)
  }

  /** That is how a copy ends. */
  ghost predicate Ran(mem: Memory, root: nat, src: nat, dst: nat, len: nat, r: Outcome<int>, mem': Memory) {
    forall k {:trigger Opened(Closed.Copying, k)} :: Sealed(Closed.Copying, k) ==>
      Run(mem, root, src, dst, len) == (r, mem')
  }

  /** What is left of it. */
  ghost predicate Remainder(c: Trip, mem: Memory, s: nat, d: nat, n: nat) {
    forall k {:trigger Opened(Closed.Copying, k)} :: Sealed(Closed.Copying, k) ==>
      Run(c.mem, c.tree.root, c.v * 4096, c.dst, c.len) == Run(mem, c.tree.root, s, d, n)
  }

  lemma RanNone(c: Trip, mem: Memory, s: nat, d: nat)
    requires Remainder(c, mem, s, d, 0)
    ensures Ran(c.mem, c.tree.root, c.v * 4096, c.dst, c.len, Returned(0), mem)
  {
    assert Opened(Closed.Copying, 0);
  }

  lemma RanOut(c: Trip, mem: Memory, s: nat, d: nat, n: nat)
    requires Remainder(c, mem, s, d, n) && n > 0 && s >= VA_MAX
    ensures Ran(c.mem, c.tree.root, c.v * 4096, c.dst, c.len, Returned(-1), mem)
  {
    assert Opened(Closed.Copying, 0);
  }

  /** One round of it. */
  lemma RanOne(c: Trip, mem: Memory, s: nat, d: nat, n: nat)
    requires Remainder(c, mem, s, d, n) && n > 0
    ensures var frame, root := UserFrame(mem, c.tree.root, s), c.tree.root;
      if frame.Panicked? then Ran(c.mem, root, c.v * 4096, c.dst, c.len, Panicked, mem)
      else if frame.value.None? then Ran(c.mem, root, c.v * 4096, c.dst, c.len, Returned(-1), mem)
      else if d !in mem || frame.value.value !in mem then Ran(c.mem, root, c.v * 4096, c.dst, c.len, Panicked, mem)
      else Remainder(c, mem[d := Mixed(mem[d], mem[frame.value.value], if n < 4096 then n else 4096)],
                     s + PGSIZE, d + PGSIZE, (n + TWO64 - PGSIZE) % 0x1_0000_0000_0000_0000)
  {
    assert Opened(Closed.Copying, 0);
  }

  /** uvm.c:22-31, one round: false when the page is not the user's. `tried` says whether the
      round has come to its store. */
  method MoveOne(pm: Pmem, root: nat, s: nat, d: nat, n: nat, ghost c: Trip, ghost stores: seq<nat>)
    returns (r: Outcome<bool>, ghost tried: bool)
    requires c.Ok() && root == c.tree.root && Track(c, stores, pm.mem) && |stores| < PAGES && n > 0
    requires Page(s) == c.v + |stores| && d == NthPage(c.dst, |stores|) && n == Remains(c.len, |stores|)
    requires Remainder(c, pm.mem, s, d, n)
    modifies pm`mem
    ensures tried <==> r != Returned(false) && !(r.Panicked? && UserFrame(old(pm.mem), root, s).Panicked?)
    ensures |stores| <= c.clear ==> (tried <==> r != Returned(false)) && (tried <==> UserPage(c.flat, Page(s)))
    ensures if r == Returned(true)
            then Remainder(c, pm.mem, s + PGSIZE, d + PGSIZE, (n + TWO64 - PGSIZE) % 0x1_0000_0000_0000_0000)
            else Ran(c.mem, root, c.v * 4096, c.dst, c.len, if r.Panicked? then Panicked else Returned(-1), pm.mem)
    ensures r == Returned(true) ==> Track(c, stores + [d], pm.mem)
    ensures r != Returned(true) ==> pm.mem == old(pm.mem)
  {
    tried := false;
    if |stores| <= c.clear {
      TrackFrame(c, stores, pm.mem, s);
    }
    RanOne(c, pm.mem, s, d, n);
    var frame := UserFrame(pm.mem, root, s);
    if frame.Panicked? {
      return Panicked, false;
    }
    if frame.value.None? {
      return Returned(false), false;
    }
    var pa := frame.value.value;
    tried := true;
    TrackNext(c, stores, pm.mem, pa);
    if d !in pm.mem || pa !in pm.mem {
      return Panicked, true;
    }
    pm.mem := pm.mem[d := Mixed(pm.mem[d], pm.mem[pa], if n < 4096 then n else 4096)];
    return Returned(true), true;
  }

  /** uvm_copyin (uvm.c:16-34) from a page-aligned user address to a page of the kernel's
      memory, as written: each round loses a whole page of the length, so that it ends on
      its own only after whole pages. */
  method CopyinToMemory(pm: Pmem, root: nat, dst: nat, src: nat, len: nat,
                        ghost t: Tree, ghost tables: set<nat>, ghost flat: map<nat, nat>, ghost clear: nat)
    returns (r: Outcome<int>, ghost stores: seq<nat>)
    requires src % 4096 == 0 && len < TWO64
    requires Means(pm.mem, t, tables, flat) && root == t.root && Spares(dst, clear, Sources(tables, flat))
    modifies pm`mem
    ensures InRow(stores, dst) && OnlyAt(old(pm.mem), stores, pm.mem) && |stores| <= PAGES
    ensures stores != [] <==> len > 0 && UserPage(flat, Page(src))
    ensures r.Panicked? ==> stores != []
    ensures len % 4096 == 0 ==> |stores| <= len / 4096
    ensures |stores| > clear ==> UserPage(flat, Page(src) + clear)
    ensures r.Returned? ==> r.value == 0 || r.value == -1
    ensures Ran(old(pm.mem), root, src, dst, len, r, pm.mem)
    ensures r.Returned? ==> Moved(old(pm.mem), flat, Page(src), dst, len, Known(stores, clear), pm.mem)
    ensures r.Returned? && |stores| <= clear ==>
      (if r.value == 0 then len == |stores| * 4096 else len != |stores| * 4096 && !UserPage(flat, Page(src) + |stores|))
  {
    ghost var c, i := Trip(pm.mem, t, tables, flat, Page(src), dst, len, clear), 0;
    TrackStart(c);
    stores := [];
    var n, s, d := len, src, dst;
    while n > 0
      invariant i == |stores| <= PAGES && n == Remains(len, i) && s == NthPage(src, i) && d == NthPage(dst, i)
      invariant i == 0 || s <= VA_MAX
      invariant Track(c, stores, pm.mem) && Remainder(c, pm.mem, s, d, n)
      invariant len % 4096 == 0 ==> i <= len / 4096
      invariant i > 0 ==> len > 0 && UserPage(flat, Page(src))
      invariant i > clear ==> UserPage(flat, Page(src) + clear)
      decreases VA_MAX - s
    {
      PageStep(src, i);
      TrackLost(c, stores, pm.mem);
      if s >= VA_MAX {
        RanOut(c, pm.mem, s, d, n);
        return Returned(-1), stores;                 // vm_getpte answers NULL
      }
      var moved;
      ghost var tried;
      moved, tried := MoveOne(pm, root, s, d, n, c, stores);
      RemainsNext(len, i);
      if tried {
        stores := stores + [d];
      }
      if moved.Panicked? {
        return Panicked, stores;
      }
      if !moved.value {
        return Returned(-1), stores;
      }
      n, s, d, i := (n + TWO64 - PGSIZE) % 0x1_0000_0000_0000_0000, s + PGSIZE, d + PGSIZE, i + 1;
    }
    TrackLost(c, stores, pm.mem);
    RanNone(c, pm.mem, s, d);
    return Returned(0), stores;
  }
}
