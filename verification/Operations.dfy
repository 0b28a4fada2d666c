/** Every operation of the memory manager, called as its clients must call it, is a step of the ledger. */
module Operations {
  import opened Wrappers
  import opened Bits
  import opened PhysicalMemory
  import opened Bitmap
  import opened Paging
  import opened KernelSpace
  import opened Mapping
  import opened BootInfo
  import opened MemoryManager
  import opened PmmTheorems
  import opened Runs

  /** pmm_alloc_pages. */
  method Allocate(mm: MemoryManager, ghost k: Ledger, count: nat) returns (r: Option<nat>, ghost k': Ledger)
    requires mm.Running() && Inv(k) && k.space == mm.Now()
    modifies mm.ram, mm.ram.bytes
    ensures mm.ram.Valid()
    ensures r.Some? ==> Operation(k, Alloc(r.value / PAGE_SIZE, count), k') && Inv(k') && k'.space == mm.Now()
  {
    r := mm.PmmAllocPages(count);
    if r.None? { return None, k; }
    ghost var i := r.value / PAGE_SIZE;
    k' := Ledger(mm.Now(), k.held + Range(i, i + count), k.managed);
    Taken(k, k', i, count);
  }

  lemma Taken(k: Ledger, k': Ledger, i: nat, count: nat)
    requires Inv(k) && FirstRun(k.space.Free(), k.space.pages, i, count)
    requires Marked(k.space.mem, k'.space.mem, k.space.bitmap, k.space.pages, i, i + count, false)
    requires k' == Ledger(k.space.(mem := k'.space.mem), k.held + Range(i, i + count), k.managed)
    ensures Operation(k, Alloc(i, count), k') && Inv(k')
  {
    OperationKeeps(k, Alloc(i, count), k');
  }

  /** kalloc: the pages behind the pointer are the caller's. */
  method AllocateBytes(mm: MemoryManager, ghost k: Ledger, size: nat)
    returns (r: Option<nat>, ghost i: nat, ghost k': Ledger)
    requires mm.Running() && Inv(k) && k.space == mm.Now() && size < TWO64
    modifies mm.ram, mm.ram.bytes
    ensures mm.ram.Valid()
    ensures r.Some? ==> r.value == PhyToVirt(mm.hhdm, PAGE_SIZE * i)
    ensures r.Some? ==> Operation(k, Alloc(i, PagesFor(size)), k') && Inv(k') && k'.space == mm.Now()
  {
    r := mm.Kalloc(size);
    if r.None? { return None, 0, k; }
    i :| && FirstRun(k.space.Free(), mm.pages, i, PagesFor(size))
         && r.value == PhyToVirt(mm.hhdm, PAGE_SIZE * i)
         && Marked(k.space.mem, mm.ram.contents, mm.bitmap, mm.pages, i, i + PagesFor(size), false);
    k' := Ledger(mm.Now(), k.held + Range(i, i + PagesFor(size)), k.managed);
    Taken(k, k', i, PagesFor(size));
  }

  /** pmm_free_pages of pages the caller holds, which panics on an unaligned address only. */
  method Free(mm: MemoryManager, ghost k: Ledger, paddr: nat, count: nat) returns (ok: bool, ghost k': Ledger)
    requires mm.Running() && Inv(k) && k.space == mm.Now() && paddr < TWO64
    requires Range(paddr / PAGE_SIZE, paddr / PAGE_SIZE + count) <= k.held
    modifies mm.ram, mm.ram.bytes
    ensures mm.ram.Valid()
    ensures ok <==> count == 0 || paddr % PAGE_SIZE == 0
    ensures ok ==> Operation(k, Release(paddr / PAGE_SIZE, count), k') && Inv(k') && k'.space == mm.Now()
  {
    ghost var i := paddr / PAGE_SIZE;
    HeldInside(k, i, count);
    ok := mm.PmmFreePages(paddr, count);
    if !ok { return false, k; }
    k' := Ledger(mm.Now(), k.held - Range(i, i + count), k.managed);
    OperationKeeps(k, Release(i, count), k');
  }

  lemma HeldInside(k: Ledger, i: nat, count: nat)
    requires Inv(k) && Range(i, i + count) <= k.held
    ensures count == 0 || i + count <= k.space.pages
  {
    if count > 0 { assert i + count - 1 in Range(i, i + count); }
  }

  /** kfree of a pointer to page `i` and the size it was allocated with cannot panic. */
  method FreeBytes(mm: MemoryManager, ghost k: Ledger, ptr: nat, size: nat, ghost i: nat) returns (ok: bool, ghost k': Ledger)
    requires mm.Running() && Inv(k) && k.space == mm.Now() && size < TWO64 && mm.hhdm < TWO64
    requires i < k.space.pages && ptr == PhyToVirt(mm.hhdm, PAGE_SIZE * i) && Range(i, i + PagesFor(size)) <= k.held
    modifies mm.ram, mm.ram.bytes
    ensures mm.ram.Valid() && ok
    ensures Operation(k, Release(i, PagesFor(size)), k') && Inv(k') && k'.space == mm.Now()
  {
    ghost var count := PagesFor(size);
    HhdmRoundTrip(mm.hhdm, PAGE_SIZE * i);
    PageOfAddress(i);
    HeldInside(k, i, count);
    ok := mm.Kfree(ptr, size);
    k' := Ledger(mm.Now(), k.held - Range(i, i + count), k.managed);
    OperationKeeps(k, Release(i, count), k');
  }

  /** vmm_map, at canonical addresses. */
  method MapRange(mm: MemoryManager, ghost k: Ledger, what: nat, where: nat, size: nat, flags: nat) returns (ok: bool, ghost k': Ledger)
    requires mm.Running() && Inv(k) && k.space == mm.Now() && what < TWO64 && where < TWO64 && size < TWO64
    requires CanonicalRequest(Request(what, where, size, flags))
    modifies mm.ram, mm.ram.bytes, mm`tables
    ensures mm.ram.Valid()
    ensures ok ==> Operation(k, Map(Request(what, where, size, flags)), k') && Inv(k') && k'.space == mm.Now()
  {
    ok := mm.VmmMap(what, where, size, flags);
    if !ok { return false, k; }
    k' := Ledger(mm.Now(), k.held, k.managed);
    OperationKeeps(k, Map(Request(what, where, size, flags)), k');
  }

  /** vmm_map_unaligned, the drivers' way to map their devices. */
  method MapDevice(mm: MemoryManager, ghost k: Ledger, what: nat, where: nat, size: nat, flags: nat) returns (ok: bool, ghost k': Ledger)
    requires mm.Running() && Inv(k) && k.space == mm.Now() && what < TWO64 && where < TWO64 && size < TWO64
    requires CanonicalRequest(AlignedRequest(what, where, size, flags))
    modifies mm.ram, mm.ram.bytes, mm`tables
    ensures mm.ram.Valid()
    ensures ok ==> Operation(k, Map(AlignedRequest(what, where, size, flags)), k') && Inv(k') && k'.space == mm.Now()
  {
    ghost var r := AlignedRequest(what, where, size, flags);
    RoundedDownFits(where);
    ok := mm.VmmMapUnaligned(what, where, size, flags);
    if !ok { return false, k; }
    k' := Ledger(mm.Now(), k.held, k.managed);
    OperationKeeps(k, Map(r), k');
  }

  lemma RoundedDownFits(a: nat)
    ensures 0 <= RoundDown(a, PAGE_SIZE) <= a
  {
  }

  /** Page `p` holds a byte of the `size` bytes below address `top`. */
  predicate OfStack(p: nat, top: nat, size: nat) {
    PAGE_SIZE * p < top && top - size < PAGE_SIZE * p + PAGE_SIZE
  }

  /** Page `p` starts in entry `i`, which holds ACPI tables or boot-loader data. */
  predicate Reclaimable(entries: seq<MemmapEntry>, i: nat, p: nat)
    requires i < |entries|
  {
    && (entries[i].kind == AcpiReclaimable || entries[i].kind == BootloaderReclaimable)
    && entries[i].base <= PAGE_SIZE * p < entries[i].base + entries[i].length
  }

  /** The stack is made of whole managed pages. */
  predicate StackWhole(top: nat, size: nat, pages: nat) {
    top % PAGE_SIZE == 0 && size % PAGE_SIZE == 0 && (size == 0 || top <= PAGE_SIZE * pages)
  }

  /** So is a reclaimable entry. */
  predicate EntryWhole(e: MemmapEntry, pages: nat) {
    e.kind == AcpiReclaimable || e.kind == BootloaderReclaimable ==>
      && e.base % PAGE_SIZE == 0 && e.length % PAGE_SIZE == 0
      && (e.length == 0 || e.base + e.length <= PAGE_SIZE * pages)
  }

  lemma WholeOrPanic(entries: seq<MemmapEntry>, stackOrigin: nat, stackSize: nat, hhdm: nat, pages: nat, top: nat)
    requires stackSize <= top < TWO64 && stackOrigin == (hhdm + top) % TWO64
    ensures StackOk(stackOrigin, stackSize, hhdm, pages) <==> StackWhole(top, stackSize, pages)
    ensures (forall i :: 0 <= i < |entries| && Claims(Reclaim, entries[i].kind) ==> Markable(entries[i], pages)) <==>
            forall i :: 0 <= i < |entries| ==> EntryWhole(entries[i], pages)
  {
    StackBelow(stackOrigin, stackSize, hhdm, top);
    forall i | 0 <= i < |entries|
      ensures EntryWhole(entries[i], pages) <==> (Claims(Reclaim, entries[i].kind) ==> Markable(entries[i], pages))
    {
    }
  }

  /**
    pmm_reclaim of memory that the manager does not know yet. When the stack's origin is the HHDM address of `top`,
    afterwards exactly those pages are free that were free or reclaimable and hold no byte of the stack.
   */
  method ReclaimMemory(mm: MemoryManager, ghost k: Ledger, entries: seq<MemmapEntry>, stackOrigin: nat, stackSize: nat, ghost top: nat)
    returns (ok: bool, ghost k': Ledger)
    requires mm.Running() && Inv(k) && k.space == mm.Now() && stackOrigin < TWO64 && stackSize < TWO64
    requires forall i :: 0 <= i < |entries| ==> entries[i].End() < TWO64
    requires Claimed(entries, Reclaim, |entries|) !! k.managed
    modifies mm.ram, mm.ram.bytes
    ensures mm.ram.Valid()
    ensures var claimed, stack := Claimed(entries, Reclaim, |entries|), StackPages(stackOrigin, stackSize, mm.hhdm);
      ok ==> Operation(k, TakeIn(claimed, stack), k') && Inv(k') && k'.space == mm.Now()
    ensures stackSize <= top < TWO64 && stackOrigin == (mm.hhdm + top) % TWO64 ==>
      (ok <==> StackWhole(top, stackSize, mm.pages) && forall i :: 0 <= i < |entries| ==> EntryWhole(entries[i], mm.pages))
    ensures ok && stackSize <= top < TWO64 && stackOrigin == (mm.hhdm + top) % TWO64 ==>
      forall p: nat :: p in mm.Now().Free() <==>
        !OfStack(p, top, stackSize) && (p in k.space.Free() || exists i: nat :: i < |entries| && Reclaimable(entries, i, p))
  {
    ghost var claimed, stack := Claimed(entries, Reclaim, |entries|), StackPages(stackOrigin, stackSize, mm.hhdm);
    ghost var taken := (mm.Now().Free() + claimed) * stack;
    if stackSize <= top < TWO64 && stackOrigin == (mm.hhdm + top) % TWO64 {
      WholeOrPanic(entries, stackOrigin, stackSize, mm.hhdm, mm.pages, top);
    }
    ok := mm.PmmReclaim(entries, stackOrigin, stackSize);
    if !ok { return false, k; }
    k' := Ledger(mm.Now(), k.held + taken, k.managed + claimed);
    OperationKeeps(k, TakeIn(claimed, stack), k');
    if stackSize <= top < TWO64 && stackOrigin == (mm.hhdm + top) % TWO64 {
      FreeAfterReclaim(entries, stackOrigin, stackSize, mm.hhdm, mm.pages, top, k.space.Free(), mm.Now().Free());
    }
  }

  lemma FreeAfterReclaim(entries: seq<MemmapEntry>, stackOrigin: nat, stackSize: nat, hhdm: nat, pages: nat, top: nat,
                         free: set<nat>, free': set<nat>)
    requires stackSize <= top < TWO64 && stackOrigin == (hhdm + top) % TWO64 && StackOk(stackOrigin, stackSize, hhdm, pages)
    requires forall i :: 0 <= i < |entries| && Claims(Reclaim, entries[i].kind) ==> Markable(entries[i], pages)
    requires free' == (free + Claimed(entries, Reclaim, |entries|)) - StackPages(stackOrigin, stackSize, hhdm)
    ensures forall p: nat :: p in free' <==>
      !OfStack(p, top, stackSize) && (p in free || exists i: nat :: i < |entries| && Reclaimable(entries, i, p))
  {
    forall p: nat
      ensures p in free' <==>
        !OfStack(p, top, stackSize) && (p in free || exists i: nat :: i < |entries| && Reclaimable(entries, i, p))
    {
      StackPagesBelow(stackOrigin, stackSize, hhdm, pages, top, p);
      ClaimedReclaimable(entries, pages, p);
    }
  }

  lemma ClaimedReclaimable(entries: seq<MemmapEntry>, pages: nat, p: nat)
    requires forall i :: 0 <= i < |entries| && Claims(Reclaim, entries[i].kind) ==> Markable(entries[i], pages)
    ensures p in Claimed(entries, Reclaim, |entries|) <==> exists i: nat :: i < |entries| && Reclaimable(entries, i, p)
  {
    ClaimedHas(entries, Reclaim, |entries|, p);
    forall i: nat | i < |entries| && Claims(Reclaim, entries[i].kind)
      ensures p in entries[i].Pages() <==> Reclaimable(entries, i, p)
    {
      PagesOfEntry(entries[i], p);
    }
    if i: nat :| i < |entries| && Reclaimable(entries, i, p) {
      assert Claims(Reclaim, entries[i].kind);
    }
  }

  lemma PagesOfEntry(e: MemmapEntry, p: nat)
    requires e.Aligned()
    ensures p in e.Pages() <==> e.base <= PAGE_SIZE * p < e.base + e.length
  {
  }

  /** pmm_zero. */
  method ZeroFree(mm: MemoryManager, ghost k: Ledger) returns (ghost k': Ledger)
    requires mm.Running() && Inv(k) && k.space == mm.Now()
    modifies mm.ram, mm.ram.bytes
    ensures mm.ram.Valid()
    ensures Operation(k, Zero, k') && Inv(k') && k'.space == mm.Now()
  {
    mm.PmmZero();
    k' := Ledger(mm.Now(), k.held, k.managed);
    OperationKeeps(k, Zero, k');
  }
}
