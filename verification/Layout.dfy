/** Address-space constants, the rounding macros, the Sv39 index split and the
    page-table-entry encoding of src/kernel/mem/type.h. Addresses and entries are
    naturals below 2^64; wherever the C arithmetic can wrap, the wrap is written out.
    PGSIZE, 2^32 and 2^64 appear as literals wherever they multiply or divide, which
    keeps the arithmetic linear. */
module Layout {
  const PGSIZE := 4096
  const TWO32 := 0x1_0000_0000
  const TWO64 := 0x1_0000_0000_0000_0000
  const VA_MAX := 0x40_0000_0000                  // 2^38
  const TRAMPOLINE := VA_MAX - PGSIZE
  const TRAPFRAME := TRAMPOLINE - PGSIZE
  const USER_BASE := PGSIZE
  const UHEAP_START := USER_BASE + PGSIZE
  const MMAP_END := TRAPFRAME - 16 * 256 * 4096
  const MMAP_BEGIN := MMAP_END - 64 * 256 * 4096
  const N_MMAP := 256
  const KERN_PAGES := 1024

  const PTE_V := 1
  const PTE_R := 2
  const PTE_W := 4
  const PTE_X := 8
  const PTE_U := 16

  /** The address space, from the top: 2^38 bytes, half of what three levels of 512 entries reach;
      trampoline and trapframe, a page each; 4096 pages for the stack; 16384 pages for mmap; and
      from the bottom an empty page and the code page below the heap. */
  lemma AddressMap()
    ensures 2 * VA_MAX == 512 * 512 * 512 * PGSIZE && PGSIZE == 4096
    ensures TRAMPOLINE + PGSIZE == VA_MAX && TRAPFRAME + PGSIZE == TRAMPOLINE
    ensures MMAP_END + 4096 * PGSIZE == TRAPFRAME && MMAP_BEGIN + 16384 * PGSIZE == MMAP_END
    ensures USER_BASE == PGSIZE && UHEAP_START == 2 * PGSIZE && N_MMAP == 256 && KERN_PAGES == 1024
  {
  }

  // ---------- rounding (type.h:41-42) ----------

  /** PGROUNDUP on a uint64: the addition of PGSIZE-1 may wrap. */
  function PgRoundUp(sz: nat): nat {
    (sz + PGSIZE - 1) % 0x1_0000_0000_0000_0000 / 4096 * 4096
  }

  function PgRoundDown(a: nat): nat {
    a / 4096 * 4096
  }

  /** PGROUNDUP is the least page boundary at or above its argument exactly when the
      addition does not wrap; for the last 4095 arguments it answers 0. */
  lemma PgRoundUpExact(sz: nat)
    requires sz < TWO64
    ensures PgRoundUp(sz) % 4096 == 0
    ensures sz <= TWO64 - PGSIZE <==> sz <= PgRoundUp(sz) < sz + PGSIZE
    ensures sz > TWO64 - PGSIZE ==> PgRoundUp(sz) == 0
  {
    if sz > TWO64 - PGSIZE {
      assert (sz + PGSIZE - 1) % 0x1_0000_0000_0000_0000 == sz + PGSIZE - 1 - TWO64;
    }
  }

  // ---------- 32-bit page counts (uvm.c:219, 232, 265, 314, 315) ----------

  /** `uint32 npages = PGROUNDUP(len) / 4096` */
  function PageCount32(len: nat): nat {
    PgRoundUp(len) / 4096 % 0x1_0000_0000
  }

  /** `npages * 4096`, an unsigned 32-bit product */
  function Bytes32(npages: nat): nat {
    npages * 4096 % 0x1_0000_0000
  }

  /** The pages that the 32-bit size of npages pages stands for. */
  function Seen(npages: nat): nat { npages % 0x10_0000 }

  lemma SeenExact(npages: nat)
    ensures Seen(npages) < 0x10_0000
    ensures npages < 0x10_0000 <==> Seen(npages) == npages
    ensures npages >= 0x10_0000 ==> npages - Seen(npages) >= 0x10_0000
  {
  }

  lemma SeenSum(a: nat, npages: nat)
    requires a + Seen(npages) < 0x10_0000
    ensures Seen(a + npages) == a + Seen(npages)
  {
  }

  lemma SeenSmall(npages: nat)
    requires npages < TWO32 && Seen(npages) <= 0x4000
    ensures npages <= TWO32 - 0x10_0000 + 0x4000
  {
  }

  lemma BytesSeen(npages: nat)
    ensures Bytes32(npages) == Seen(npages) * 4096
  {
  }

  /** uint32 addition */
  function Add32(a: nat, b: nat): nat { (a + b) % 0x1_0000_0000 }

  /** The 32-bit size computation yields the rounded length exactly for lengths up
      to 2^32 - PGSIZE (and for the last few lengths, where both sides are 0). */
  lemma Bytes32Exact(len: nat)
    requires len < TWO64
    ensures Bytes32(PageCount32(len)) == PgRoundUp(len)
            <==> len <= TWO32 - PGSIZE || len > TWO64 - PGSIZE
    ensures len <= TWO32 - PGSIZE ==> len <= PageCount32(len) * 4096 < len + PGSIZE
                                      && PageCount32(len) < 0x10_0000
  {
    PgRoundUpExact(len);
  }

  /** The range check of uvm_mmap (uvm.c:265), with its 64-bit sum. */
  predicate InAreaCheck(begin: nat, bytes: nat) {
    !(begin < MMAP_BEGIN || (begin + bytes) % 0x1_0000_0000_0000_0000 > MMAP_END)
  }

  /** The check admits exactly the ranges inside the mmap area unless the sum wraps to a
      small value, in which case it admits a range at the very top of the 64-bit space. */
  lemma InAreaCheckExact(begin: nat, bytes: nat)
    requires begin < TWO64 && bytes < TWO32
    ensures (InAreaCheck(begin, bytes) <==> MMAP_BEGIN <= begin && begin + bytes <= MMAP_END)
            <==> begin + bytes < TWO64
  {
    if begin + bytes >= TWO64 {
      assert (begin + bytes) % 0x1_0000_0000_0000_0000 == begin + bytes - TWO64;
    }
  }

  // ---------- Sv39 index split (type.h:55-56) ----------

  /** `(len + PGSIZE - 1) / 4096` (kvm.c:71, 101), on uint64 */
  function PageSpan(len: nat): nat { (len + PGSIZE - 1) % 0x1_0000_0000_0000_0000 / 4096 }

  /** `va + PageSpan(len) * PGSIZE` (kvm.c:71, 101), on uint64 */
  function RangeStop(va: nat, len: nat): nat { (va + PageSpan(len) * 4096) % 0x1_0000_0000_0000_0000 }

  /** `va + len <= VA_MAX` (kvm.c:68, 98), on uint64 */
  predicate BelowMax(va: nat, len: nat) { (va + len) % 0x1_0000_0000_0000_0000 <= VA_MAX }

  /** The pages of [va, va + len), or none when the sum passes 2^64. */
  function SpanCount(va: nat, len: nat): nat { if va + len < TWO64 then PageSpan(len) else 0 }

  /** A range whose sum passes 2^64 can slip through the check, and then the loop that goes
      from va up to RangeStop does nothing; every other accepted range lies below VA_MAX. */
  lemma SpanExact(va: nat, len: nat)
    requires va < TWO64 && len < TWO64 && va % 4096 == 0 && BelowMax(va, len)
    ensures va + len >= TWO64 ==> RangeStop(va, len) <= va
    ensures va + len < TWO64 ==> va + len <= VA_MAX && RangeStop(va, len) == va + SpanCount(va, len) * 4096
    ensures va + len < TWO64 ==> len <= SpanCount(va, len) * 4096 < len + PGSIZE && RangeStop(va, len) <= VA_MAX
  {
    if va + len < TWO64 {
      assert va + len <= VA_MAX;
      assert PageSpan(len) == (len + PGSIZE - 1) / 4096;
    } else {
      WrapStop(va, len);
    }
  }

  lemma WrapStop(va: nat, len: nat)
    requires va < TWO64 && len < TWO64 && va + len >= TWO64
    ensures RangeStop(va, len) <= va
  {
    if len + PGSIZE - 1 >= TWO64 {
      assert (len + PGSIZE - 1) % 0x1_0000_0000_0000_0000 == len + PGSIZE - 1 - TWO64;
      assert PageSpan(len) == 0;
    } else {
      assert PageSpan(len) == (len + PGSIZE - 1) / 4096;
      assert va + PageSpan(len) * 4096 >= va + len;
      assert RangeStop(va, len) == va + PageSpan(len) * 4096 - TWO64;
    }
  }

  predicate IsPageBase(p: nat) { p % 4096 == 0 && p < TWO64 }

  /** Page number of an address. */
  function Page(va: nat): nat { va / 4096 }

  lemma PageStep(va: nat, n: nat)
    requires va % 4096 == 0
    ensures Page(va + n * 4096) == Page(va) + n && (va + n * 4096) % 4096 == 0
  {
  }

  const PAGES := 0x400_0000                       // VA_MAX / PGSIZE, 2^26 virtual pages
  const TRAMP_PAGE := PAGES - 1
  const TF_PAGE := PAGES - 2

  /** VA_TO_VPN(va, level) */
  function VaToVpn(va: nat, level: nat): nat
    requires level <= 2
  {
    (if level == 0 then va / 0x1000 else if level == 1 then va / 0x20_0000 else va / 0x4000_0000) % 512
  }

  /** The indices of virtual page v, level by level. */
  function I2(v: nat): nat { v / 0x4_0000 % 512 }
  function I1(v: nat): nat { v / 512 % 512 }
  function I0(v: nat): nat { v % 512 }

  /** The address split only depends on the page and agrees with the page split. */
  lemma VpnOfPage(va: nat)
    ensures VaToVpn(va, 2) == I2(Page(va))
    ensures VaToVpn(va, 1) == I1(Page(va))
    ensures VaToVpn(va, 0) == I0(Page(va))
  {
  }

  /** Sv39 indices lose nothing below VA_MAX: they rebuild the page-aligned address. */
  lemma VpnRebuilds(va: nat)
    requires va < VA_MAX
    ensures VaToVpn(va, 2) < 256
    ensures VaToVpn(va, 2) * 0x4000_0000 + VaToVpn(va, 1) * 0x20_0000 + VaToVpn(va, 0) * 0x1000 == PgRoundDown(va)
  {
    VpnOfPage(va);
    PageSplits(Page(va));
  }

  lemma PageSplits(v: nat)
    requires v < PAGES
    ensures I2(v) < 256 && v == I2(v) * 0x4_0000 + I1(v) * 512 + I0(v)
  {
    assert v / 0x4_0000 == v / 512 / 512;
  }

  lemma PageSplitInjective(v: nat, w: nat)
    requires v < PAGES && w < PAGES
    requires I2(v) == I2(w) && I1(v) == I1(w) && I0(v) == I0(w)
    ensures v == w
  {
    PageSplits(v);
    PageSplits(w);
  }

  /** Two addresses meet in the same slot at all three levels iff they share a page. */
  lemma VpnInjective(va: nat, vb: nat)
    requires va < VA_MAX && vb < VA_MAX
    ensures Page(va) == Page(vb) <==> forall level: nat | level <= 2 :: VaToVpn(va, level) == VaToVpn(vb, level)
  {
    VpnOfPage(va);
    VpnOfPage(vb);
    if forall level: nat | level <= 2 :: VaToVpn(va, level) == VaToVpn(vb, level) {
      assert VaToVpn(va, 0) == VaToVpn(vb, 0) && VaToVpn(va, 1) == VaToVpn(vb, 1) && VaToVpn(va, 2) == VaToVpn(vb, 2);
      PageSplitInjective(Page(va), Page(vb));
    }
  }

  // ---------- page-table entries (type.h:59-76) ----------

  function PaToPte(pa: nat): nat { pa / 4096 * 1024 % 0x1_0000_0000_0000_0000 }
  function PteToPa(pte: nat): nat { pte / 1024 * 4096 % 0x1_0000_0000_0000_0000 }
  function PteFlags(pte: nat): nat { pte % 1024 }

  /** `flags | bit` for a single flag bit */
  function OrFlag(flags: nat, bit: nat): nat
    requires bit > 0
  {
    if flags / bit % 2 == 1 then flags else flags + bit
  }

  predicate HasV(pte: nat) { pte % 2 == 1 }
  predicate HasR(pte: nat) { pte / 2 % 2 == 1 }
  predicate HasW(pte: nat) { pte / 4 % 2 == 1 }
  predicate HasX(pte: nat) { pte / 8 % 2 == 1 }
  predicate HasU(pte: nat) { pte / 16 % 2 == 1 }

  /** PTE_CHECK: no R, W or X bit, so the entry points to the next table. */
  predicate PteCheck(pte: nat) { pte / 2 % 8 == 0 }

  /** `PA_TO_PTE(pa) | perm | PTE_V` (kvm.c:83) */
  function MakePte(pa: nat, perm: nat): nat { PaToPte(pa) + OrFlag(perm, PTE_V) }

  /** An entry built from a frame address and flags decodes to both, and the frame comes
      back exactly when it is page aligned. */
  lemma PteRoundTrip(pa: nat, perm: nat)
    requires pa < TWO64 && perm < 1024
    ensures MakePte(pa, perm) < TWO64
    ensures PteFlags(MakePte(pa, perm)) == OrFlag(perm, PTE_V)
    ensures PteToPa(MakePte(pa, perm)) == pa <==> pa % 4096 == 0
    ensures HasV(MakePte(pa, perm)) && PteCheck(MakePte(pa, perm)) == PteCheck(perm)
    ensures HasU(MakePte(pa, perm)) == HasU(perm) && HasW(MakePte(pa, perm)) == HasW(perm)
  {
    var ppn, f := pa / 4096, OrFlag(perm, PTE_V);
    assert PaToPte(pa) == ppn * 1024;
    FlagBits(ppn, f);
    assert f / 2 == perm / 2;
    assert f / 4 == perm / 4 && f / 16 == perm / 16;
  }

  /** The low ten bits of an entry are untouched by the page number above them. */
  lemma FlagBits(ppn: nat, f: nat)
    requires f < 1024
    ensures (ppn * 1024 + f) / 1024 == ppn && (ppn * 1024 + f) % 1024 == f
    ensures (ppn * 1024 + f) % 2 == f % 2
    ensures (ppn * 1024 + f) / 2 % 8 == f / 2 % 8
    ensures (ppn * 1024 + f) / 4 % 2 == f / 4 % 2
    ensures (ppn * 1024 + f) / 16 % 2 == f / 16 % 2
  {
    SplitSum(ppn, f, 1024);
    SplitSum(ppn * 256, f, 4);
    SplitSum(ppn * 64, f, 16);
    SplitSum(ppn * 512, f, 2);
    SplitSum(ppn * 64, f / 2, 8);
    SplitSum(ppn * 128, f / 4, 2);
    SplitSum(ppn * 32, f / 16, 2);
  }

  /** The user bit is one of the flags. */
  lemma UserFlag(pte: nat)
    ensures HasU(PteFlags(pte)) == HasU(pte)
  {
    FlagBits(pte / 1024, pte % 1024);
  }

  /** The five permission bits of an entry are those of its flags. */
  lemma BitsOfFlags(pte: nat)
    ensures HasV(PteFlags(pte)) == HasV(pte) && HasR(PteFlags(pte)) == HasR(pte) && HasW(PteFlags(pte)) == HasW(pte)
    ensures HasX(PteFlags(pte)) == HasX(pte) && HasU(PteFlags(pte)) == HasU(pte)
  {
    FlagBits(pte / 1024, pte % 1024);
    SplitSum(pte / 1024 * 512, pte % 1024, 2);
    SplitSum(pte / 1024 * 256, pte % 1024 / 2, 2);
    SplitSum(pte / 1024 * 128, pte % 1024, 8);
    SplitSum(pte / 1024 * 64, pte % 1024 / 8, 2);
  }

  lemma SplitSum(a: nat, f: nat, b: nat)
    requires b == 2 || b == 4 || b == 8 || b == 16 || b == 1024
    ensures (a * b + f) / b == a + f / b && (a * b + f) % b == f % b
  {
  }

  lemma OrUser(prot: nat)
    requires prot < 1024
    ensures OrFlag(prot, PTE_U) < 1024 && HasU(OrFlag(prot, PTE_U))
  {
  }
}
