/** Sv39 page tables: the walk with on-demand tables, range map and range unmap of
    src/kernel/mem/kvm.c, proved against the flat map from page numbers to entries. */
module Kvm {
  import opened Layout
  import opened Outcomes
  import opened PhysMem
  import opened PageTree

  /** Root and level-1 index of the level-0 table for page v. */
  function Slot(v: nat): (nat, nat) { (I2(v), I1(v)) }

  ghost function EntryAt(mem: Memory, t: Tree, v: nat): nat {
    Lookup(mem, t, Slot(v), I0(v))
  }

  /** The translation a table defines: every mapped page number with its leaf entry. */
  ghost function FlatOf(mem: Memory, t: Tree): map<nat, nat> {
    map v | 0 <= v < PAGES && EntryAt(mem, t, v) != 0 :: EntryAt(mem, t, v)
  }

  /** In memory mem, t is a well-formed page table made of `tables` that translates as flat. */
  ghost predicate Means(mem: Memory, t: Tree, tables: set<nat>, flat: map<nat, nat>) {
    forall k {:trigger Opened(Closed.Meaning, k)} :: Sealed(Closed.Meaning, k) ==>
      TreeOk(mem, t) && tables == Tables(t) && flat == FlatOf(mem, t)
  }

  /** The page numbers from lo up to hi. */
  ghost function Pages(lo: nat, hi: nat): set<nat> {
    set v | lo <= v < hi && Between(lo, v, hi)
  }

  predicate Between(lo: nat, v: nat, hi: nat) { lo <= v < hi }

  predicate Differ(v: nat, w: nat) { v != w }

  /** The frames behind those of the given pages that are mapped. */
  ghost function FramesOf(flat: map<nat, nat>, pages: set<nat>): set<nat> {
    set v | v in pages && v in flat :: PteToPa(flat[v])
  }

  /** Frames of the given pages that may be handed to pmem_free for the user region: each
      at most once, and owned there unless outside the region (which makes it panic). */
  ghost predicate Freeable(flat: map<nat, nat>, pages: set<nat>, user: AllocRegion, uowned: set<nat>) {
    && (forall v :: v in flat && v in pages ==>
          PteToPa(flat[v]) in uowned || !user.InRange(PteToPa(flat[v])))
    && forall v, w {:trigger Differ(v, w)} :: Differ(v, w) && v in flat && w in flat && v in pages && w in pages ==>
         PteToPa(flat[v]) != PteToPa(flat[w])
  }

  /** Some mapped one of the given pages has a frame that pmem_free rejects. */
  ghost predicate Rejected(flat: map<nat, nat>, pages: set<nat>, user: AllocRegion) {
    exists v :: v in flat && v in pages && !user.InRange(PteToPa(flat[v]))
  }

  lemma PagesNext(lo: nat, mid: nat)
    requires lo <= mid
    ensures Pages(lo, mid + 1) == Pages(lo, mid) + {mid} && mid !in Pages(lo, mid)
    ensures Pages(lo, lo) == {}
  {
  }

  lemma PagesBelow(mid: nat, hi: nat)
    requires mid < hi
    ensures Pages(mid, hi) == Pages(mid + 1, hi) + {mid} && mid !in Pages(mid + 1, hi)
    ensures Pages(hi, hi) == {}
  {
  }

  lemma NextPages(flat: map<nat, nat>, lo: nat, mid: nat, user: AllocRegion)
    requires lo <= mid
    ensures Pages(lo, mid + 1) == Pages(lo, mid) + {mid} && mid !in Pages(lo, mid)
    ensures flat - Pages(lo, mid) - {mid} == flat - Pages(lo, mid + 1)
    ensures FramesOf(flat, Pages(lo, mid + 1))
            == FramesOf(flat, Pages(lo, mid)) + (if mid in flat then {PteToPa(flat[mid])} else {})
    ensures Rejected(flat, Pages(lo, mid + 1), user)
            <==> Rejected(flat, Pages(lo, mid), user) || (mid in flat && !user.InRange(PteToPa(flat[mid])))
  {
    assert Pages(lo, mid + 1) == Pages(lo, mid) + {mid};
  }

  lemma NoPages(flat: map<nat, nat>, lo: nat)
    ensures Pages(lo, lo) == {} && flat - Pages(lo, lo) == flat && FramesOf(flat, Pages(lo, lo)) == {}
  {
    assert Pages(lo, lo) == {};
  }

  /** A frame still waiting to be freed is still owned. */
  lemma FreeableNext(flat: map<nat, nat>, lo: nat, v: nat, hi: nat, user: AllocRegion, uowned: set<nat>)
    requires Freeable(flat, Pages(lo, hi), user, uowned) && lo <= v < hi && v in flat
    ensures PteToPa(flat[v]) in uowned - FramesOf(flat, Pages(lo, v)) || !user.InRange(PteToPa(flat[v]))
  {
    assert Between(lo, v, hi);
    assert forall w :: w in Pages(lo, v) ==> Between(lo, w, hi) && w in Pages(lo, hi) && Differ(v, w);
  }

  /** n consecutive pages from v on, mapped to consecutive frames from pa on. */
  ghost function RangeMap(v: nat, n: nat, pa: nat, perm: nat): map<nat, nat> {
    map u: nat | v <= u < v + n :: PteInRange(v, u, pa, perm)
  }

  function PteInRange(v: nat, u: nat, pa: nat, perm: nat): nat
    requires v <= u
  {
    MakePte((pa + (u - v) * 4096) % 0x1_0000_0000_0000_0000, perm)
  }

  /** flat' is flat with n pages from va on mapped to the frames from pa on. */
  ghost predicate Maps(flat: map<nat, nat>, va: nat, n: nat, pa: nat, perm: nat, flat': map<nat, nat>) {
    forall k {:trigger Opened(Closed.Range, k)} :: Sealed(Closed.Range, k) ==>
      flat' == flat + RangeMap(Page(va), n, pa, perm)
  }

  lemma MapsNone(flat: map<nat, nat>, va: nat, pa: nat, perm: nat)
    ensures Maps(flat, va, 0, pa, perm, flat)
  {
    assert flat == flat + RangeMap(Page(va), 0, pa, perm);
  }

  lemma MapsStep(flat: map<nat, nat>, va: nat, n: nat, pa: nat, perm: nat,
                 flat': map<nat, nat>, currVa: nat, currPa: nat)
    requires va % 4096 == 0 && currVa == va + n * 4096 && currPa == (pa + n * 4096) % 0x1_0000_0000_0000_0000
    requires Maps(flat, va, n, pa, perm, flat')
    ensures Maps(flat, va, n + 1, pa, perm, flat'[Page(currVa) := MakePte(currPa, perm)])
  {
    assert Opened(Closed.Range, 0);
    PageStep(va, n);
    assert PteInRange(Page(va), Page(va) + n, pa, perm) == MakePte(currPa, perm);
  }

  lemma MapsOne(flat: map<nat, nat>, va: nat, pa: nat, perm: nat, flat': map<nat, nat>)
    requires Maps(flat, va, 1, pa, perm, flat') && pa < TWO64
    ensures flat' == flat[Page(va) := MakePte(pa, perm)]
  {
    assert Opened(Closed.Range, 0);
    assert PteInRange(Page(va), Page(va), pa, perm) == MakePte(pa, perm);
  }

  /** What a mapped range translates to: the i-th page to the i-th frame, with the flags asked
      for and the valid bit; every other page translates as before. */
  lemma RangeTranslates(flat: map<nat, nat>, va: nat, n: nat, pa: nat, perm: nat, flat': map<nat, nat>, v: nat)
    requires Maps(flat, va, n, pa, perm, flat') && pa % 4096 == 0 && pa + n * 4096 <= TWO64 && perm < 1024
    ensures Page(va) <= v < Page(va) + n ==>
      && v in flat' && HasV(flat'[v]) && PteFlags(flat'[v]) == OrFlag(perm, PTE_V)
      && PteToPa(flat'[v]) == pa + (v - Page(va)) * 4096
    ensures !(Page(va) <= v < Page(va) + n) ==> (v in flat' <==> v in flat) && (v in flat ==> flat'[v] == flat[v])
  {
    RangeEntry(flat, va, n, pa, perm, flat', v);
    if Page(va) <= v < Page(va) + n {
      FrameInRange(Page(va), v, pa, n, perm);
    }
  }

  lemma RangeEntry(flat: map<nat, nat>, va: nat, n: nat, pa: nat, perm: nat, flat': map<nat, nat>, v: nat)
    requires Maps(flat, va, n, pa, perm, flat')
    ensures Page(va) <= v < Page(va) + n ==> v in flat' && flat'[v] == PteInRange(Page(va), v, pa, perm)
    ensures !(Page(va) <= v < Page(va) + n) ==> (v in flat' <==> v in flat) && (v in flat ==> flat'[v] == flat[v])
  {
    assert Opened(Closed.Range, 0);
  }

  lemma FrameInRange(v: nat, u: nat, pa: nat, n: nat, perm: nat)
    requires v <= u < v + n && pa % 4096 == 0 && pa + n * 4096 <= TWO64 && perm < 1024
    ensures var w := PteInRange(v, u, pa, perm);
      HasV(w) && PteFlags(w) == OrFlag(perm, PTE_V) && PteToPa(w) == pa + (u - v) * 4096
  {
    var f := pa + (u - v) * 4096;
    assert f < TWO64;
    assert PteInRange(v, u, pa, perm) == MakePte(f, perm);
    assert f % 4096 == 0;
    PteRoundTrip(f, perm);
  }

  // ---------- what memory contents mean ----------

  /** The entry of the level-2 or level-1 table that leads towards page v. */
  ghost function Parent(t: Tree, v: nat, level: nat): (nat, nat)
    requires level != 2 ==> I2(v) in t.mid
  {
    if level == 2 then (t.root, I2(v)) else (t.mid[I2(v)], I1(v))
  }

  /** No table hangs below that entry yet. */
  ghost predicate Missing(t: Tree, v: nat, level: nat) {
    if level == 2 then I2(v) !in t.mid else I2(v) in t.mid && Slot(v) !in t.low
  }

  ghost function WithTable(t: Tree, v: nat, level: nat, page: nat): Tree {
    if level == 2 then AddMid(t, I2(v), page) else AddLow(t, Slot(v), page)
  }

  /** Equal lookups make equal translations. */
  lemma SameFlat(mem: Memory, t: Tree, mem': Memory, t': Tree)
    requires forall k, i | 0 <= i < 512 :: Lookup(mem', t', k, i) == Lookup(mem, t, k, i)
    ensures FlatOf(mem', t') == FlatOf(mem, t)
  {
    assert forall v: nat :: EntryAt(mem', t', v) == EntryAt(mem, t, v);
  }

  lemma OneSlotFlat(mem: Memory, mem': Memory, t: Tree, v: nat, w: nat)
    requires v < PAGES && (HasV(w) || w == 0)
    requires EntryAt(mem', t, v) == w
    requires forall k, i | 0 <= i < 512 && (k != Slot(v) || i != I0(v)) :: Lookup(mem', t, k, i) == Lookup(mem, t, k, i)
    ensures FlatOf(mem', t) == if HasV(w) then FlatOf(mem, t)[v := w] else FlatOf(mem, t) - {v}
  {
    forall u: nat | u < PAGES && u != v
      ensures EntryAt(mem', t, u) == EntryAt(mem, t, u)
    {
      if Slot(u) == Slot(v) && I0(u) == I0(v) {
        PageSplitInjective(u, v);
      }
    }
  }

  /** A zeroed page is an empty page table. */
  lemma MeansEmpty(mem: Memory, root: nat)
    requires root in mem && IsPageBase(root) && mem[root] == ZERO_FRAME
    ensures Means(mem, Tree(root, map[], map[]), {root}, map[])
  {
    EmptyTree(mem, root);
    SameFlat(map[], Tree(root, map[], map[]), mem, Tree(root, map[], map[]));
  }

  /** Only the contents of its own tables determine what a page table means. */
  lemma MeansFrame(mem: Memory, mem': Memory, t: Tree, tables: set<nat>, flat: map<nat, nat>)
    requires Means(mem, t, tables, flat) && mem'.Keys == mem.Keys
    requires forall p :: p in tables && p in mem ==> mem'[p] == mem[p]
    ensures Means(mem', t, tables, flat)
  {
    assert Opened(Closed.Meaning, 0);
    TreeFrame(mem, mem', t);
    SameFlat(mem, t, mem', t);
  }

  /** Linking a fresh zeroed table below a missing entry changes no translation. */
  lemma MeansLink(mem: Memory, t: Tree, tables: set<nat>, flat: map<nat, nat>, v: nat, level: nat, page: nat)
    requires Means(mem, t, tables, flat) && Missing(t, v, level)
    requires page in mem && page !in tables && IsPageBase(page) && mem[page] == ZERO_FRAME
    ensures Parent(t, v, level).0 in tables && Parent(t, v, level).0 in mem
    ensures var (p, i) := Parent(t, v, level);
            Means(mem[p := mem[p][i := TableEntry(page)]], WithTable(t, v, level, page), tables + {page}, flat)
  {
    assert Opened(Closed.Meaning, 0);
    var (p, i) := Parent(t, v, level);
    if level == 2 {
      LinkMid(mem, t, I2(v), page);
    } else {
      LinkLow(mem, t, Slot(v), page);
    }
    SameFlat(mem, t, mem[p := mem[p][i := TableEntry(page)]], WithTable(t, v, level, page));
  }

  /** Writing the leaf slot of page v changes the translation of exactly that page. */
  lemma MeansSet(mem: Memory, t: Tree, tables: set<nat>, flat: map<nat, nat>, v: nat, w: nat)
    requires Means(mem, t, tables, flat) && v < PAGES && Slot(v) in t.low
    ensures t.low[Slot(v)] in tables && t.low[Slot(v)] in mem
    ensures Means(mem[t.low[Slot(v)] := mem[t.low[Slot(v)]][I0(v) := w]], t, tables,
                  if HasV(w) then flat[v := w] else flat - {v})
  {
    assert Opened(Closed.Meaning, 0);
    SetLeaf(mem, t, Slot(v), I0(v), w);
    OneSlotFlat(mem, mem[t.low[Slot(v)] := mem[t.low[Slot(v)]][I0(v) := w]], t, v, if HasV(w) then w else 0);
  }

  /** What the walk reads at level 0: the entry of the flat map, or no valid entry. */
  lemma MeansLeaf(mem: Memory, t: Tree, tables: set<nat>, flat: map<nat, nat>, v: nat)
    requires Means(mem, t, tables, flat) && v < PAGES
    ensures v in flat ==> Slot(v) in t.low
    ensures Slot(v) in t.low ==>
      var p := t.low[Slot(v)];
      p in mem && p in tables && (v in flat <==> HasV(mem[p][I0(v)])) && (v in flat ==> flat[v] == mem[p][I0(v)])
  {
    assert Opened(Closed.Meaning, 0);
    if Slot(v) in t.low {
      LowIsTable(mem, t, Slot(v));
    }
  }

  /** What the walk reads at levels 2 and 1: no valid entry where no table hangs, else an
      entry that passes PTE_CHECK and decodes to the next table. */
  lemma MeansEntry(mem: Memory, t: Tree, tables: set<nat>, flat: map<nat, nat>, v: nat, level: nat)
    requires Means(mem, t, tables, flat) && 1 <= level <= 2 && (level == 1 ==> I2(v) in t.mid)
    ensures var (p, i) := Parent(t, v, level);
            && p in mem
            && (Missing(t, v, level) <==> !HasV(mem[p][i]))
            && (!Missing(t, v, level) ==>
                  PteCheck(mem[p][i])
                  && PteToPa(mem[p][i]) == if level == 2 then t.mid[I2(v)] else t.low[Slot(v)])
            && (Slot(v) in t.low ==> !Missing(t, v, level))
  {
    assert Opened(Closed.Meaning, 0);
    assert Opened(Closed.TreeWords, 0);
    if level == 2 {
      assert Points(mem[t.root][I2(v)], t.mid, I2(v));
      if I2(v) in t.mid {
        assert t.mid[I2(v)] in Tables(t);
        TablePte(t.mid[I2(v)]);
      }
    } else {
      assert MidWords(mem[t.mid[I2(v)]], t, I2(v));
      assert Points(mem[t.mid[I2(v)]][I1(v)], t.low, Slot(v));
      if Slot(v) in t.low {
        assert t.low[Slot(v)] in Tables(t);
        TablePte(t.low[Slot(v)]);
      }
    }
  }

  // ---------- what stays unchanged ----------

  /** New tables are pages that were free before, and of the pages owned before only the
      old tables were written. */
  ghost predicate TablesGrew(mem: Memory, tables: set<nat>, kowned: set<nat>,
                             mem': Memory, tables': set<nat>, kowned': set<nat>, uowned: set<nat>) {
    forall k {:trigger Opened(Closed.Growth, k)} :: Sealed(Closed.Growth, k) ==>
      && tables <= tables'
      && kowned' == kowned + tables'
      && (tables' - tables) !! kowned
      && mem'.Keys == mem.Keys
      && forall p :: p in mem && (p in kowned || p in uowned) && p !in tables ==> mem'[p] == mem[p]
  }

  lemma TablesGrewRefl(mem: Memory, tables: set<nat>, kowned: set<nat>, uowned: set<nat>)
    requires tables <= kowned
    ensures TablesGrew(mem, tables, kowned, mem, tables, kowned, uowned)
  {
  }

  lemma TablesGrewTrans(m0: Memory, t0: set<nat>, k0: set<nat>, m1: Memory, t1: set<nat>, k1: set<nat>,
                        m2: Memory, t2: set<nat>, k2: set<nat>, uowned: set<nat>)
    requires TablesGrew(m0, t0, k0, m1, t1, k1, uowned) && TablesGrew(m1, t1, k1, m2, t2, k2, uowned)
    requires k2 !! uowned
    ensures TablesGrew(m0, t0, k0, m2, t2, k2, uowned)
  {
    assert Opened(Closed.Growth, 0);
  }

  /** Apart from the given tables, pages that are still owned hold what they held. */
  ghost predicate SlotsOnly(mem: Memory, mem': Memory, owned': set<nat>, tables: set<nat>) {
    forall k {:trigger Opened(Closed.Growth, k)} :: Sealed(Closed.Growth, k) ==>
      && mem'.Keys == mem.Keys
      && forall p :: p in mem && p in owned' && p !in tables ==> mem'[p] == mem[p]
  }

  lemma SlotsOnlyTrans(m0: Memory, m1: Memory, owned1: set<nat>, m2: Memory, owned2: set<nat>, tables: set<nat>)
    requires SlotsOnly(m0, m1, owned1, tables) && SlotsOnly(m1, m2, owned2, tables) && owned2 <= owned1
    ensures SlotsOnly(m0, m2, owned2, tables)
  {
    assert Opened(Closed.Growth, 0);
  }

  class PageTable {
    const pm: Pmem
    var root: nat
    ghost var tree: Tree
    ghost var tables: set<nat>          // every page of the table, all levels
    ghost var flat: map<nat, nat>       // mapped page number -> leaf entry

    /** A zeroed kernel page is an empty page table (proc.c:36-38, uvm.c:499-501). */
    constructor (pm: Pmem, root: nat)
      requires pm.Valid() && root in pm.kern.owned && pm.mem[root] == ZERO_FRAME
      ensures Valid() && this.pm == pm && this.root == root
      ensures tables == {root} && flat == map[]
    {
      this.pm, this.root := pm, root;
      tree, tables, flat := Tree(root, map[], map[]), {root}, map[];
      new;
      pm.OwnedKernelPages(root);
      MeansEmpty(pm.mem, root);
    }

    ghost predicate Valid()
      reads this, pm, pm.kern, pm.user
    {
      && pm.Valid()
      && Means(pm.mem, tree, tables, flat)
      && root == tree.root
      && tables <= pm.kern.owned
    }

    /** Since a state with memory mem, tables t and kernel-owned pages kowned, only tables of
        this page table were written, and every new one came off the kernel free list. */
    ghost predicate OnlyTables(mem: Memory, t: set<nat>, kowned: set<nat>)
      reads this, pm, pm.kern, pm.user
    {
      TablesGrew(mem, t, kowned, pm.mem, tables, pm.kern.owned, pm.user.owned)
    }

    /** kvm.c:37-44: take a zeroed page and link it below a missing entry. */
    method Link(ghost v: nat, ghost level: nat, pgtbl: nat, vpn: nat) returns (r: Outcome<nat>)
      requires Valid() && Missing(tree, v, level) && (pgtbl, vpn) == Parent(tree, v, level)
      modifies this, pm, pm.kern
      ensures r.Panicked? ==> old(pm.kern.chain) == []
      ensures r.Returned? ==>
        && Valid() && flat == old(flat)
        && OnlyTables(old(pm.mem), old(tables), old(pm.kern.owned))
        && |pm.kern.chain| == |old(pm.kern.chain)| - 1
        && (level != 2 ==> I2(v) in tree.mid) && Parent(tree, v, level) == (pgtbl, vpn)
        && !Missing(tree, v, level)
        && pgtbl in pm.mem && r.value == pm.mem[pgtbl][vpn]
    {
      var page :- pm.Alloc(true);
      MeansFrame(old(pm.mem), pm.mem, tree, tables, flat);
      MeansLink(pm.mem, tree, tables, flat, v, level, page);
      tree, tables := WithTable(tree, v, level, page), tables + {page};
      pm.Store(pgtbl, vpn, TableEntry(page));
      return Returned(TableEntry(page));
    }

    /** The slot of page v: its level-0 table and index (a pte_t pointer). */
    ghost predicate IsSlot(v: nat, slot: (nat, nat))
      reads this
    {
      Slot(v) in tree.low && slot == (tree.low[Slot(v)], I0(v))
    }

    /** How far the walk for page v has come: pgtbl is its table at this level. */
    ghost predicate AtLevel(v: nat, level: nat, pgtbl: nat)
      reads this
    {
      && (level == 2 ==> pgtbl == tree.root)
      && (level == 1 ==> I2(v) in tree.mid && pgtbl == tree.mid[I2(v)])
      && (level == 0 ==> Slot(v) in tree.low && pgtbl == tree.low[Slot(v)])
    }

    /** kvm.c:33-52: the next table on the way to page v, or None where there is none. */
    method Descend(ghost v: nat, level: nat, pgtbl: nat, vpn: nat, alloc: bool) returns (r: Outcome<Option<nat>>)
      requires Valid() && 1 <= level <= 2 && AtLevel(v, level, pgtbl) && vpn == if level == 2 then I2(v) else I1(v)
      modifies if alloc then {this, pm, pm.kern} else {}
      ensures r.Panicked? ==> alloc && old(pm.kern.chain) == []
      ensures r.Returned? ==>
        && Valid() && flat == old(flat)
        && OnlyTables(old(pm.mem), old(tables), old(pm.kern.owned))
        && |pm.kern.chain| >= |old(pm.kern.chain)| - (if alloc then 1 else 0)
        && (r.value.None? ==> !alloc && Slot(v) !in tree.low)
        && (r.value.Some? ==> AtLevel(v, level - 1, r.value.value))
    {
      MeansEntry(pm.mem, tree, tables, flat, v, level);
      TablesGrewRefl(pm.mem, tables, pm.kern.owned, pm.user.owned);
      var pte := pm.mem[pgtbl][vpn];
      if !HasV(pte) {
        if !alloc {
          return Returned(None);
        }
        pte :- Link(v, level, pgtbl, vpn);
        MeansEntry(pm.mem, tree, tables, flat, v, level);
      }
      if !PteCheck(pte) {
        assert false;                     // every valid entry above level 0 points to a table
      }
      return Returned(Some(PteToPa(pte)));
    }

    /** vm_getpte (kvm.c:15-56). Without `alloc` nothing changes; with it, missing tables
        are made on the way, and either way every translation stays what it was. The
        answer is NULL exactly for an address out of range or, without `alloc`, a page
        whose leaf table does not exist. */
    method GetPte(va: nat, alloc: bool) returns (r: Outcome<Option<(nat, nat)>>)
      requires Valid()
      modifies if alloc then {this, pm, pm.kern} else {}
      ensures r.Panicked? ==> alloc && |old(pm.kern.chain)| < 2
      ensures r.Returned? ==>
        && Valid() && flat == old(flat)
        && OnlyTables(old(pm.mem), old(tables), old(pm.kern.owned))
        && |pm.kern.chain| >= |old(pm.kern.chain)| - (if alloc then 2 else 0)
        && (r.value.None? <==> va >= VA_MAX || (!alloc && Slot(Page(va)) !in old(tree).low))
        && (r.value.Some? ==> IsSlot(Page(va), r.value.value))
    {
      TablesGrewRefl(pm.mem, tables, pm.kern.owned, pm.user.owned);
      if va >= VA_MAX {
        return Returned(None);
      }
      var pgtbl, level := root, 2;
      while level > 0
        invariant 0 <= level <= 2
        invariant Valid() && flat == old(flat)
        invariant OnlyTables(old(pm.mem), old(tables), old(pm.kern.owned))
        invariant |pm.kern.chain| >= |old(pm.kern.chain)| - (if alloc then 2 - level else 0)
        invariant AtLevel(Page(va), level, pgtbl)
      {
        VpnOfPage(va);
        var vpn := VaToVpn(va, level);
        label before:
        var next :- Descend(Page(va), level, pgtbl, vpn, alloc);
        TablesGrewTrans(old(pm.mem), old(tables), old(pm.kern.owned),
                        old@before(pm.mem), old@before(tables), old@before(pm.kern.owned),
                        pm.mem, tables, pm.kern.owned, pm.user.owned);
        if next.None? {
          return Returned(None);
        }
        pgtbl, level := next.value, level - 1;
      }
      VpnOfPage(va);
      return Returned(Some((pgtbl, VaToVpn(va, 0))));
    }

    /** `*pte = w` for the slot of page v. */
    method SetPte(slot: (nat, nat), ghost v: nat, w: nat)
      requires Valid() && v < PAGES && IsSlot(v, slot)
      modifies this`flat, pm
      ensures Valid()
      ensures flat == if HasV(w) then old(flat)[v := w] else old(flat) - {v}
      ensures OnlyTables(old(pm.mem), tables, pm.kern.owned)
      ensures OnlySlots(old(pm.mem))
    {
      MeansSet(pm.mem, tree, tables, flat, v, w);
      pm.Store(slot.0, slot.1, w);
      flat := if HasV(w) then flat[v := w] else flat - {v};
    }

    /** The body of vm_mappages' loop (kvm.c:75-87), for one page. */
    method MapOne(va: nat, pa: nat, perm: nat) returns (r: Outcome<()>)
      requires Valid() && va < VA_MAX && pa < TWO64 && perm < 1024
      modifies this, pm, pm.kern
      ensures r.Panicked? ==> |old(pm.kern.chain)| < 2
      ensures r.Returned? ==>
        && Valid()
        && OnlyTables(old(pm.mem), old(tables), old(pm.kern.owned))
        && |pm.kern.chain| >= |old(pm.kern.chain)| - 2
        && flat == old(flat)[Page(va) := MakePte(pa, perm)]
    {
      var pte :- GetPte(va, true);
      if pte.None? {
        assert false;
      }
      label walked:
      PteRoundTrip(pa, perm);
      SetPte(pte.value, Page(va), MakePte(pa, perm));
      TablesGrewTrans(old(pm.mem), old(tables), old(pm.kern.owned),
                      old@walked(pm.mem), tables, pm.kern.owned,
                      pm.mem, tables, pm.kern.owned, pm.user.owned);
      return Returned(());
    }

    /** The argument checks of vm_mappages (kvm.c:65-68). */
    static predicate MapArgsOk(va: nat, pa: nat, len: nat) {
      va % 4096 == 0 && pa % 4096 == 0 && len > 0 && BelowMax(va, len)
    }

    /** n pages of a range have been mapped since a state with memory mem, tables t, kernel
        pages kowned, `free` free kernel pages and translation flat. */
    ghost predicate Mapped(mem: Memory, t: set<nat>, kowned: set<nat>, free: nat, flat: map<nat, nat>,
                           va: nat, n: nat, pa: nat, perm: nat)
      reads this, pm, pm.kern, pm.user
    {
      && Valid()
      && OnlyTables(mem, t, kowned)
      && |pm.kern.chain| >= free - 2 * n
      && Maps(flat, va, n, pa, perm, this.flat)
    }

    method MapNext(ghost mem: Memory, ghost t: set<nat>, ghost kowned: set<nat>, ghost free: nat,
                   ghost flat: map<nat, nat>, ghost va: nat, ghost n: nat, ghost pa: nat, perm: nat, currVa: nat,
                   currPa: nat)
      returns (r: Outcome<()>)
      requires Mapped(mem, t, kowned, free, flat, va, n, pa, perm)
      requires va % 4096 == 0 && currVa == va + n * 4096 && currPa == (pa + n * 4096) % 0x1_0000_0000_0000_0000
      requires currVa < VA_MAX && currPa < TWO64 && perm < 1024
      modifies this, pm, pm.kern
      ensures r.Panicked? ==> free < 2 * n + 2
      ensures r.Returned? ==> Mapped(mem, t, kowned, free, flat, va, n + 1, pa, perm)
    {
      var _ :- MapOne(currVa, currPa, perm);
      TablesGrewTrans(mem, t, kowned, old(pm.mem), old(tables), old(pm.kern.owned),
                      pm.mem, tables, pm.kern.owned, pm.user.owned);
      MapsStep(flat, va, n, pa, perm, old(this.flat), currVa, currPa);
      return Returned(());
    }

    /** vm_mappages (kvm.c:62-89): the pages of the range now translate to the matching
        frames with the given flags; every other translation is what it was. Arguments are any
        uint64 values; a range whose end passes 2^64 and that the checks let through maps
        nothing. */
    method MapPages(va: nat, pa: nat, len: nat, perm: nat) returns (r: Outcome<()>)
      requires Valid() && va < TWO64 && len < TWO64 && pa < TWO64 && perm < 1024
      modifies this, pm, pm.kern
      ensures va % 4096 == 0 && pa % 4096 == 0 && 0 < len && va + len <= VA_MAX ==>
        |old(pm.kern.chain)| >= 2 * ((len + 4095) / 4096) ==> r.Returned?
      ensures va % 4096 != 0 || pa % 4096 != 0 || len == 0 || (va + len) % 0x1_0000_0000_0000_0000 > VA_MAX ==>
        r.Panicked?
      ensures r.Panicked? ==> !MapArgsOk(va, pa, len) || |old(pm.kern.chain)| < 2 * SpanCount(va, len)
      ensures r.Returned? ==> Mapped(old(pm.mem), old(tables), old(pm.kern.owned), |old(pm.kern.chain)|, old(flat),
                                     va, SpanCount(va, len), pa, perm)
      ensures r.Returned? && va + len < TWO64 ==> SpanCount(va, len) == (len + 4095) / 4096
    {
      if !MapArgsOk(va, pa, len) {
        return Panicked;
      }
      SpanExact(va, len);
      r := MapLoop(va, pa, RangeStop(va, len), perm, SpanCount(va, len));
    }

    /** The loop of vm_mappages. */
    method MapLoop(va: nat, pa: nat, endVa: nat, perm: nat, ghost total: nat) returns (r: Outcome<()>)
      requires Valid() && va % 4096 == 0 && pa < TWO64 && perm < 1024
      requires if total == 0 then endVa <= va else endVa == va + total * 4096 <= VA_MAX
      modifies this, pm, pm.kern
      ensures r.Panicked? ==> |old(pm.kern.chain)| < 2 * total
      ensures r.Returned? ==>
        Mapped(old(pm.mem), old(tables), old(pm.kern.owned), |old(pm.kern.chain)|, old(flat), va, total, pa, perm)
    {
      ghost var mem, t, kowned, free, n := pm.mem, tables, pm.kern.owned, |pm.kern.chain|, 0;
      var currVa, currPa := va, pa;
      TablesGrewRefl(mem, t, kowned, pm.user.owned);
      MapsNone(flat, va, pa, perm);
      while currVa < endVa
        invariant 0 <= n <= total && currVa == va + n * 4096 && currPa == (pa + n * 4096) % 0x1_0000_0000_0000_0000
        invariant Mapped(mem, t, kowned, free, old(flat), va, n, pa, perm)
      {
        var _ :- MapNext(mem, t, kowned, free, old(flat), va, n, pa, perm, currVa, currPa);
        currVa, currPa, n := currVa + PGSIZE, (currPa + PGSIZE) % 0x1_0000_0000_0000_0000, n + 1;
      }
      assert n == total;
      return Returned(());
    }

    /** Memory outside this table and outside freed pages is as it was. */
    ghost predicate OnlySlots(mem: Memory)
      reads this, pm, pm.kern, pm.user
    {
      SlotsOnly(mem, pm.mem, pm.Owned(), tables)
    }

    /** Give back the frame of a user page: no translation changes yet. */
    method FreeFrame(pa: nat) returns (r: Outcome<()>)
      requires Valid() && (pa in pm.user.owned || !pm.user.InRange(pa))
      modifies pm, pm.user
      ensures r.Panicked? <==> !pm.user.InRange(pa)
      ensures r.Returned? ==> Valid() && OnlySlots(old(pm.mem)) && pm.user.owned == old(pm.user.owned) - {pa}
    {
      var _ :- pm.Free(pa, false);
      MeansFrame(old(pm.mem), pm.mem, tree, tables, flat);
      return Returned(());
    }

    /** The body of vm_unmappages' loop (kvm.c:105-119), for one page. */
    method UnmapOne(va: nat, freeit: bool) returns (r: Outcome<()>)
      requires Valid() && va < VA_MAX
      requires freeit && Page(va) in flat ==>
                 PteToPa(flat[Page(va)]) in pm.user.owned || !pm.user.InRange(PteToPa(flat[Page(va)]))
      modifies this`flat, pm, pm.user
      ensures r.Panicked? <==> freeit && Page(va) in old(flat) && !pm.user.InRange(PteToPa(old(flat)[Page(va)]))
      ensures r.Returned? ==>
        && Valid()
        && OnlySlots(old(pm.mem))
        && flat == old(flat) - {Page(va)}
        && pm.user.owned == old(pm.user.owned)
             - (if freeit && Page(va) in old(flat) then {PteToPa(old(flat)[Page(va)])} else {})
    {
      ghost var v := Page(va);
      MeansLeaf(pm.mem, tree, tables, flat, v);
      var pte := GetPte(va, false);
      if pte.value.None? {
        return Returned(());
      }
      var slot := pte.value.value;
      var word := pm.mem[slot.0][slot.1];
      if !HasV(word) {
        return Returned(());
      }
      if freeit {
        var _ :- FreeFrame(PteToPa(word));
      }
      label freed:
      SetPte(slot, v, 0);
      if freeit {
        SlotsOnlyTrans(old(pm.mem), old@freed(pm.mem), pm.Owned(), pm.mem, pm.Owned(), tables);
      }
      return Returned(());
    }

    /** The given pages have been unmapped since a state with memory mem, translation flat
        and user-owned frames uowned. */
    ghost predicate Unmapped(mem: Memory, flat: map<nat, nat>, uowned: set<nat>, pages: set<nat>, freeit: bool)
      reads this, pm, pm.kern, pm.user
    {
      && Valid()
      && OnlySlots(mem)
      && this.flat == flat - pages
      && pm.user.owned == uowned - (if freeit then FramesOf(flat, pages) else {})
    }

    /** Unmapped, with no frame rejected on the way. */
    ghost predicate UnmappedClean(mem: Memory, flat: map<nat, nat>, uowned: set<nat>, pages: set<nat>, freeit: bool)
      reads this, pm, pm.kern, pm.user
    {
      forall k {:trigger Opened(Closed.Range, k)} :: Sealed(Closed.Range, k) ==>
        Unmapped(mem, flat, uowned, pages, freeit) && (freeit ==> !Rejected(flat, pages, pm.user))
    }

    /** One step of the loop: page v is next, and no frame has been rejected so far. */
    method UnmapNext(ghost mem: Memory, ghost flat: map<nat, nat>, ghost uowned: set<nat>,
                     ghost lo: nat, ghost v: nat, ghost hi: nat, currVa: nat, freeit: bool) returns (r: Outcome<()>)
      requires lo <= v < hi && v == Page(currVa) && currVa < VA_MAX
      requires UnmappedClean(mem, flat, uowned, Pages(lo, v), freeit)
      requires freeit ==> Freeable(flat, Pages(lo, hi), pm.user, uowned)
      modifies this`flat, pm, pm.user
      ensures r.Panicked? ==> freeit && Rejected(flat, Pages(lo, hi), pm.user)
      ensures r.Returned? ==> UnmappedClean(mem, flat, uowned, Pages(lo, v + 1), freeit)
    {
      assert Opened(Closed.Range, 0);
      NextPages(flat, lo, v, pm.user);
      assert v in Pages(lo, hi) by {
        assert Between(lo, v, hi);
      }
      if freeit && v in flat {
        FreeableNext(flat, lo, v, hi, pm.user, uowned);
      }
      var _ :- UnmapOne(currVa, freeit);
      SlotsOnlyTrans(mem, old(pm.mem), old(pm.Owned()), pm.mem, pm.Owned(), tables);
      return Returned(());
    }

    /** The argument checks of vm_unmappages (kvm.c:96-98). */
    static predicate UnmapArgsOk(va: nat, len: nat) {
      va % 4096 == 0 && len > 0 && BelowMax(va, len)
    }

    /** The pages a call of vm_unmappages covers. */
    static ghost function Span(va: nat, len: nat): set<nat> {
      Pages(Page(va), Page(va) + SpanCount(va, len))
    }

    /** vm_unmappages (kvm.c:93-120): exactly the pages of the range lose their translation,
        holes are skipped, no table changes shape, and with `freeit` exactly the frames
        they had go back to the user free list, each once. It panics exactly on bad
        arguments or on a frame outside the user region. Arguments are any uint64 values. */
    method UnmapPages(va: nat, len: nat, freeit: bool) returns (r: Outcome<()>)
      requires Valid() && va < TWO64 && len < TWO64
      requires freeit ==> Freeable(flat, Span(va, len), pm.user, pm.user.owned)
      modifies this`flat, pm, pm.user
      ensures va % 4096 == 0 && 0 < len && va + len <= VA_MAX ==>
        (r.Panicked? <==> freeit && exists v :: v in old(flat) && Page(va) <= v < Page(va) + (len + 4095) / 4096
                                                && !pm.user.InRange(PteToPa(old(flat)[v])))
      ensures va % 4096 != 0 || len == 0 || (va + len) % 0x1_0000_0000_0000_0000 > VA_MAX ==> r.Panicked?
      ensures r.Panicked? <==> !UnmapArgsOk(va, len) || (freeit && Rejected(old(flat), Span(va, len), pm.user))
      ensures r.Returned? ==> Unmapped(old(pm.mem), old(flat), old(pm.user.owned), Span(va, len), freeit)
    {
      if !UnmapArgsOk(va, len) {
        return Panicked;
      }
      SpanExact(va, len);
      r := UnmapLoop(va, RangeStop(va, len), freeit, SpanCount(va, len));
      assert Opened(Closed.Range, 0);
    }

    /** The loop of vm_unmappages over n pages. */
    method UnmapLoop(va: nat, endVa: nat, freeit: bool, ghost n: nat) returns (r: Outcome<()>)
      requires Valid() && va % 4096 == 0
      requires if n == 0 then endVa <= va else endVa == va + n * 4096 <= VA_MAX
      requires freeit ==> Freeable(flat, Pages(Page(va), Page(va) + n), pm.user, pm.user.owned)
      modifies this`flat, pm, pm.user
      ensures r.Panicked? ==> freeit && Rejected(old(flat), Pages(Page(va), Page(va) + n), pm.user)
      ensures r.Returned? ==>
        UnmappedClean(old(pm.mem), old(flat), old(pm.user.owned), Pages(Page(va), Page(va) + n), freeit)
    {
      ghost var mem, uowned := pm.mem, pm.user.owned;
      ghost var lo, v, hi := Page(va), Page(va), Page(va) + n;
      var currVa := va;
      NoPages(flat, lo);
      assert Unmapped(mem, flat, uowned, Pages(lo, lo), freeit) && !Rejected(flat, Pages(lo, lo), pm.user);
      while currVa < endVa
        invariant lo <= v <= hi && currVa == va + (v - lo) * 4096
        invariant UnmappedClean(mem, old(flat), uowned, Pages(lo, v), freeit)
      {
        PageStep(va, v - lo);
        var _ :- UnmapNext(mem, old(flat), uowned, lo, v, hi, currVa, freeit);
        currVa, v := currVa + PGSIZE, v + 1;
      }
      assert v == hi;
      return Returned(());
    }
  }
}
