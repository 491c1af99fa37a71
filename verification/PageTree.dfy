/** The shape of an Sv39 page table in physical memory and the lookup it stands for.
    These are facts about memory contents; Kvm.dfy has the code that walks them. */
module PageTree {
  import opened Layout
  import opened Outcomes
  import opened PhysMem

  /** Where the tables of one page table live: the root, the level-1 tables by root
      index, and the level-0 tables by root and level-1 index. */
  datatype Tree = Tree(root: nat, mid: map<nat, nat>, low: map<(nat, nat), nat>)

  ghost function Tables(t: Tree): set<nat> {
    {t.root} + t.mid.Values + t.low.Values
  }

  /** Tables are distinct aligned pages, so no table is reachable in two ways. */
  ghost predicate Shape(t: Tree) {
    && (forall a :: a in t.mid ==> a < 512 && t.mid[a] != t.root)
    && (forall a, b :: a in t.mid && b in t.mid && a != b ==> t.mid[a] != t.mid[b])
    && (forall k :: k in t.low ==> k.0 in t.mid && k.1 < 512 && t.low[k] != t.root)
    && (forall k, l :: k in t.low && l in t.low && k != l ==> t.low[k] != t.low[l])
    && (forall a, k :: a in t.mid && k in t.low ==> t.mid[a] != t.low[k])
  }

  ghost predicate Resident(mem: Memory, t: Tree) {
    && Tables(t) <= mem.Keys
    && forall p :: p in Tables(t) ==> IsPageBase(p)
  }

  /** A non-leaf entry: exactly `PA_TO_PTE(child) | PTE_V` when there is a child. */
  ghost predicate Points<K>(w: nat, children: map<K, nat>, k: K) {
    if k in children then w == TableEntry(children[k]) else !HasV(w)
  }

  function TableEntry(p: nat): nat { PaToPte(p) + PTE_V }

  ghost predicate RootWords(root: Frame, t: Tree) {
    forall a :: 0 <= a < 512 ==> Points(root[a], t.mid, a)
  }

  ghost predicate MidWords(mid: Frame, t: Tree, a: nat) {
    forall j :: 0 <= j < 512 ==> Points(mid[j], t.low, (a, j))
  }

  ghost predicate TreeOk(mem: Memory, t: Tree) {
    && Tables(t) <= mem.Keys
    && forall k {:trigger Opened(Closed.TreeWords, k)} :: Sealed(Closed.TreeWords, k) ==> Contents(mem, t)
  }

  ghost predicate Contents(mem: Memory, t: Tree) {
    && Shape(t)
    && Resident(mem, t)
    && t.root in mem && RootWords(mem[t.root], t)
    && forall a :: a in t.mid ==> t.mid[a] in mem && MidWords(mem[t.mid[a]], t, a)
  }

  /** The leaf entry for indices (k.0, k.1, i), or 0 when there is no valid one. */
  ghost function Lookup(mem: Memory, t: Tree, k: (nat, nat), i: nat): nat
    requires i < 512
  {
    if k in t.low && t.low[k] in mem && HasV(mem[t.low[k]][i]) then mem[t.low[k]][i] else 0
  }

  lemma TablePte(p: nat)
    requires IsPageBase(p)
    ensures PteToPa(TableEntry(p)) == p
    ensures HasV(TableEntry(p)) && PteCheck(TableEntry(p))
  {
    PteRoundTrip(p, 0);
  }

  /** Only the contents of its own tables determine a page table. */
  lemma TreeFrame(mem: Memory, mem': Memory, t: Tree)
    requires TreeOk(mem, t)
    requires mem.Keys <= mem'.Keys
    requires forall p :: p in Tables(t) ==> mem'[p] == mem[p]
    ensures TreeOk(mem', t)
    ensures forall k, i | 0 <= i < 512 :: Lookup(mem', t, k, i) == Lookup(mem, t, k, i)
  {
    assert Opened(Closed.TreeWords, 0);
    assert t.root in Tables(t);
    assert forall a :: a in t.mid ==> t.mid[a] in Tables(t);
    assert forall k :: k in t.low ==> t.low[k] in Tables(t);
  }

  /** A zeroed page is a table without children and without entries. */
  lemma EmptyTree(mem: Memory, root: nat)
    requires root in mem && IsPageBase(root) && mem[root] == ZERO_FRAME
    ensures Tables(Tree(root, map[], map[])) == {root}
    ensures TreeOk(mem, Tree(root, map[], map[]))
    ensures forall k, i | 0 <= i < 512 :: Lookup(mem, Tree(root, map[], map[]), k, i) == 0
  {
    assert Contents(mem, Tree(root, map[], map[]));
  }

  /** Writing one level-0 slot changes the lookup of exactly that slot. */
  lemma SetLeaf(mem: Memory, t: Tree, k: (nat, nat), i: nat, w: nat)
    requires TreeOk(mem, t) && k in t.low && i < 512
    ensures t.low[k] in Tables(t)
    ensures var mem' := mem[t.low[k] := mem[t.low[k]][i := w]];
            && TreeOk(mem', t)
            && Lookup(mem', t, k, i) == (if HasV(w) then w else 0)
            && forall l, j | 0 <= j < 512 && (l != k || j != i) :: Lookup(mem', t, l, j) == Lookup(mem, t, l, j)
  {
    var p := t.low[k];
    var mem' := mem[p := mem[p][i := w]];
    LowIsTable(mem, t, k);
    SetLeafTree(mem, t, k, i, w);
  }

  lemma LowIsTable(mem: Memory, t: Tree, k: (nat, nat))
    requires TreeOk(mem, t) && k in t.low
    ensures t.low[k] in Tables(t) && t.low[k] in mem
    ensures forall l :: l in t.low && l != k ==> t.low[l] != t.low[k]
  {
    assert Opened(Closed.TreeWords, 0);
  }

  /** Leaf tables are neither the root nor level-1 tables. */
  lemma LowIsNotAbove(mem: Memory, t: Tree, k: (nat, nat))
    requires TreeOk(mem, t) && k in t.low
    ensures t.low[k] in mem && t.low[k] in Tables(t) && t.low[k] != t.root
    ensures forall a :: a in t.mid ==> t.mid[a] != t.low[k]
  {
    assert Opened(Closed.TreeWords, 0);
  }

  lemma SetLeafTree(mem: Memory, t: Tree, k: (nat, nat), i: nat, w: nat)
    requires TreeOk(mem, t) && k in t.low && t.low[k] in mem && i < 512
    ensures TreeOk(mem[t.low[k] := mem[t.low[k]][i := w]], t)
  {
    assert Opened(Closed.TreeWords, 0);
    var p := t.low[k];
    var mem' := mem[p := mem[p][i := w]];
    assert mem'[t.root] == mem[t.root];
    assert forall a :: a in t.mid ==> mem'[t.mid[a]] == mem[t.mid[a]];
    assert Contents(mem', t);
  }

  ghost function AddMid(t: Tree, a: nat, p: nat): Tree { t.(mid := t.mid[a := p]) }

  ghost function AddLow(t: Tree, k: (nat, nat), p: nat): Tree { t.(low := t.low[k := p]) }

  lemma AddMidShape(t: Tree, a: nat, p: nat)
    requires Shape(t) && a < 512 && a !in t.mid && p !in Tables(t)
    ensures Tables(AddMid(t, a, p)) == Tables(t) + {p} && Shape(AddMid(t, a, p))
  {
    var t' := AddMid(t, a, p);
    assert t'.mid[a] == p;
    assert forall b :: b in t.mid ==> t'.mid[b] == t.mid[b] && t.mid[b] in Tables(t);
    assert forall k :: k in t.low ==> t.low[k] in Tables(t);
  }

  lemma AddLowShape(t: Tree, k: (nat, nat), p: nat)
    requires Shape(t) && k.0 in t.mid && k.1 < 512 && k !in t.low && p !in Tables(t)
    ensures Tables(AddLow(t, k, p)) == Tables(t) + {p} && Shape(AddLow(t, k, p))
  {
    var t' := AddLow(t, k, p);
    assert t'.low[k] == p;
    assert forall l :: l in t.low ==> t'.low[l] == t.low[l] && t.low[l] in Tables(t);
    assert forall a :: a in t.mid ==> t.mid[a] in Tables(t);
  }

  /** The same leaf tables with the same contents answer the same lookups, and a zeroed
      new one answers none. */
  lemma SameLookups(mem: Memory, t: Tree, mem': Memory, t': Tree)
    requires forall k :: k in t.low ==> k in t'.low && t'.low[k] == t.low[k]
    requires forall k :: k in t.low ==> t.low[k] in mem && t.low[k] in mem' && mem'[t.low[k]] == mem[t.low[k]]
    requires forall k :: k in t'.low && k !in t.low ==> t'.low[k] in mem' && mem'[t'.low[k]] == ZERO_FRAME
    ensures forall k, i | 0 <= i < 512 :: Lookup(mem', t', k, i) == Lookup(mem, t, k, i)
  {
  }

  /** Linking a fresh zeroed level-1 table changes no lookup. */
  lemma LinkMid(mem: Memory, t: Tree, a: nat, p: nat)
    requires TreeOk(mem, t) && a < 512 && a !in t.mid
    requires p in mem && p !in Tables(t) && IsPageBase(p) && mem[p] == ZERO_FRAME
    ensures t.root in mem
    ensures var t' := AddMid(t, a, p);
            var mem' := mem[t.root := mem[t.root][a := TableEntry(p)]];
            && Tables(t') == Tables(t) + {p} && TreeOk(mem', t')
            && forall k, i | 0 <= i < 512 :: Lookup(mem', t', k, i) == Lookup(mem, t, k, i)
  {
    LinkMidTree(mem, t, a, p);
    var t' := AddMid(t, a, p);
    var mem' := mem[t.root := mem[t.root][a := TableEntry(p)]];
    forall l | l in t.low
      ensures t.low[l] in mem && mem'[t.low[l]] == mem[t.low[l]]
    {
      LowIsNotAbove(mem, t, l);
    }
    SameLookups(mem, t, mem', t');
  }

  lemma LinkMidTree(mem: Memory, t: Tree, a: nat, p: nat)
    requires TreeOk(mem, t) && a < 512 && a !in t.mid
    requires p in mem && p !in Tables(t) && IsPageBase(p) && mem[p] == ZERO_FRAME
    ensures t.root in Tables(t) && t.root in mem
    ensures var t' := AddMid(t, a, p);
            var mem' := mem[t.root := mem[t.root][a := TableEntry(p)]];
            Tables(t') == Tables(t) + {p} && TreeOk(mem', t')
  {
    assert Opened(Closed.TreeWords, 0);
    assert t.root in Tables(t);
    AddMidShape(t, a, p);
    LinkMidWords(mem, t, a, p);
    assert Contents(mem[t.root := mem[t.root][a := TableEntry(p)]], AddMid(t, a, p));
  }

  lemma LinkMidWords(mem: Memory, t: Tree, a: nat, p: nat)
    requires TreeOk(mem, t) && a < 512 && a !in t.mid
    requires p in mem && p !in Tables(t) && mem[p] == ZERO_FRAME
    ensures t.root in mem
    ensures var t' := AddMid(t, a, p);
            var mem' := mem[t.root := mem[t.root][a := TableEntry(p)]];
            && RootWords(mem'[t'.root], t')
            && forall b :: b in t'.mid ==> t'.mid[b] in mem' && MidWords(mem'[t'.mid[b]], t', b)
  {
    assert Opened(Closed.TreeWords, 0);
    var t' := AddMid(t, a, p);
    var mem' := mem[t.root := mem[t.root][a := TableEntry(p)]];
    forall b | b in t'.mid
      ensures t'.mid[b] in mem' && MidWords(mem'[t'.mid[b]], t', b)
    {
      if b == a {
        assert p != t.root && mem'[p] == ZERO_FRAME;
      } else {
        assert MidWords(mem[t.mid[b]], t, b);
      }
    }
    assert RootWords(mem[t.root], t);
  }

  /** Linking a fresh zeroed level-0 table changes no lookup. */
  lemma LinkLow(mem: Memory, t: Tree, k: (nat, nat), p: nat)
    requires TreeOk(mem, t) && k.0 in t.mid && k.1 < 512 && k !in t.low
    requires p in mem && p !in Tables(t) && IsPageBase(p) && mem[p] == ZERO_FRAME
    ensures t.mid[k.0] in Tables(t) && t.mid[k.0] in mem
    ensures var t' := AddLow(t, k, p);
            var mem' := mem[t.mid[k.0] := mem[t.mid[k.0]][k.1 := TableEntry(p)]];
            && Tables(t') == Tables(t) + {p} && TreeOk(mem', t')
            && forall l, i | 0 <= i < 512 :: Lookup(mem', t', l, i) == Lookup(mem, t, l, i)
  {
    LinkLowTree(mem, t, k, p);
    var t' := AddLow(t, k, p);
    var mem' := mem[t.mid[k.0] := mem[t.mid[k.0]][k.1 := TableEntry(p)]];
    forall l | l in t.low
      ensures t.low[l] in mem && mem'[t.low[l]] == mem[t.low[l]]
    {
      LowIsNotAbove(mem, t, l);
    }
    SameLookups(mem, t, mem', t');
  }

  lemma LinkLowTree(mem: Memory, t: Tree, k: (nat, nat), p: nat)
    requires TreeOk(mem, t) && k.0 in t.mid && k.1 < 512 && k !in t.low
    requires p in mem && p !in Tables(t) && IsPageBase(p) && mem[p] == ZERO_FRAME
    ensures t.mid[k.0] in Tables(t) && t.mid[k.0] in mem
    ensures var t' := AddLow(t, k, p);
            var mem' := mem[t.mid[k.0] := mem[t.mid[k.0]][k.1 := TableEntry(p)]];
            Tables(t') == Tables(t) + {p} && TreeOk(mem', t')
  {
    assert Opened(Closed.TreeWords, 0);
    assert t.mid[k.0] in Tables(t);
    AddLowShape(t, k, p);
    LinkLowWords(mem, t, k, p);
    assert Contents(mem[t.mid[k.0] := mem[t.mid[k.0]][k.1 := TableEntry(p)]], AddLow(t, k, p));
  }

  lemma LinkLowWords(mem: Memory, t: Tree, k: (nat, nat), p: nat)
    requires TreeOk(mem, t) && k.0 in t.mid && k.1 < 512 && k !in t.low
    ensures t.mid[k.0] in mem
    ensures var t' := AddLow(t, k, p);
            var mem' := mem[t.mid[k.0] := mem[t.mid[k.0]][k.1 := TableEntry(p)]];
            && RootWords(mem'[t'.root], t')
            && forall a :: a in t'.mid ==> t'.mid[a] in mem' && MidWords(mem'[t'.mid[a]], t', a)
  {
    assert Opened(Closed.TreeWords, 0);
    var t' := AddLow(t, k, p);
    var mem' := mem[t.mid[k.0] := mem[t.mid[k.0]][k.1 := TableEntry(p)]];
    assert mem'[t.root] == mem[t.root] && RootWords(mem[t.root], t);
    forall a | a in t'.mid
      ensures t'.mid[a] in mem' && MidWords(mem'[t'.mid[a]], t', a)
    {
      assert MidWords(mem[t.mid[a]], t, a);
    }
  }
}
