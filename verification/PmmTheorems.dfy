/** What the contracts of the physical page manager amount to for a caller of kalloc and kfree. */
module PmmTheorems {
  import opened Bits
  import opened PhysicalMemory
  import opened Bitmap
  import opened BootInfo
  import opened MemoryManager

  /**
    kalloc hands out the fewest pages that cover the size, exactly when rounding the size up does not wrap.
    A size in the last page of 64 bits is granted no page at all.
   */
  lemma KallocCovers(size: nat)
    requires size < TWO64
    ensures size <= PAGE_SIZE * PagesFor(size) <==> size <= TWO64 - PAGE_SIZE
    ensures size <= TWO64 - PAGE_SIZE ==> PAGE_SIZE * PagesFor(size) < size + PAGE_SIZE
    ensures size > TWO64 - PAGE_SIZE ==> PagesFor(size) == 0
  {
  }

  /** The HHDM address of a page leads back to the page. */
  lemma HhdmRoundTrip(hhdm: nat, paddr: nat)
    requires hhdm < TWO64 && paddr < TWO64
    ensures U64(PhyToVirt(hhdm, paddr) - hhdm) == paddr
  {
  }

  /** kfree with the pointer and size of a kalloc does not panic and restores every byte of memory. */
  lemma KallocKfree(m0: Memory, m1: Memory, m2: Memory, bm: nat, n: nat, hhdm: nat, size: nat, i: nat)
    requires Placed(m0, bm, n) && size < TWO64 && hhdm < TWO64
    requires FirstRun(Free(m0, bm, n), n, i, PagesFor(size))
    requires Marked(m0, m1, bm, n, i, i + PagesFor(size), false)
    requires var paddr := U64(PhyToVirt(hhdm, PAGE_SIZE * i) - hhdm);
      Marked(m1, m2, bm, n, paddr / PAGE_SIZE, paddr / PAGE_SIZE + PagesFor(size), true)
    ensures var paddr := U64(PhyToVirt(hhdm, PAGE_SIZE * i) - hhdm);
      paddr % PAGE_SIZE == 0 && paddr / PAGE_SIZE + PagesFor(size) <= n
    ensures m2 == m0
  {
    var count := PagesFor(size);
    HhdmRoundTrip(hhdm, PAGE_SIZE * i);
    RunInside(Free(m0, bm, n), n, i, count);
    PageOfAddress(i);
    MarkedUndone(m0, m1, m2, bm, n, i, i + count);
  }

  lemma RunInside(free: set<nat>, n: nat, i: nat, count: nat)
    requires i < n && RunAt(free, i, count) && forall p :: p in free ==> p < n
    ensures i + count <= n
  {
    if count > 0 { assert i + count - 1 in free; }
  }

  lemma PageOfAddress(i: nat)
    ensures PAGE_SIZE * i % PAGE_SIZE == 0 && PAGE_SIZE * i / PAGE_SIZE == i
  {
  }
}
