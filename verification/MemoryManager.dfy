/** The memory manager of `src/mm.c`: the physical page manager and the virtual memory manager over one physical memory. */
module MemoryManager {
  import opened Wrappers
  import opened Bits
  import opened PhysicalMemory
  import opened Bitmap
  import opened Paging
  import opened KernelSpace
  import opened Mapping
  import opened BootInfo
  import R = Ram

  /** Byte offset and mask of a page's bit; None is a panic: the address is not aligned or out of range. */
  function BitmapLocation(page: nat, pages: nat): Option<(nat, nat)> {
    if page % PAGE_SIZE != 0 then None
    else if page / PAGE_SIZE >= pages then None
    else Some((page / PAGE_SIZE / CHAR_BIT, page / PAGE_SIZE % CHAR_BIT))
  }

  /** Page count that kalloc and kfree derive from a size. */
  function PagesFor(size: nat): nat {
    RoundUp(size, PAGE_SIZE) / PAGE_SIZE
  }

  /** An entry that pmm_mark_range accepts. */
  predicate Markable(e: MemmapEntry, pages: nat) {
    e.Aligned() && (e.length == 0 || e.End() <= PAGE_SIZE * pages)
  }

  /** A panic never returns: it is a `false` or `None` result, after which nothing is promised unless said so. */
  class MemoryManager {
    const ram: R.Ram
    var pages: nat // PMM_DATA.num_pages
    var bitmap: nat // physical address of PMM_DATA.bitmap
    var hhdm: nat
    var pml4: nat // page frame that holds the PML4
    ghost var tables: map<Node, nat>

    constructor (ram: R.Ram)
      ensures this.ram == ram
    {
      this.ram := ram;
      pages, bitmap, hhdm, pml4, tables := 0, 0, 0, 0, map[];
    }

    ghost function Now(): Space
      reads this, ram
    {
      Space(ram.contents, bitmap, pages, pml4, tables)
    }

    /** The bitmap is in place. */
    ghost predicate Sited()
      reads this, ram, ram.bytes
    {
      ram.Valid() && Now().Placed()
    }

    /** The bitmap and the page tables are in place. */
    ghost predicate Running()
      reads this, ram, ram.bytes
    {
      ram.Valid() && Sound(Now())
    }

    // ----- Physical page manager

    method PmmMarkPage(page: nat, usable: bool) returns (ok: bool)
      requires Sited()
      modifies ram, ram.bytes
      ensures ram.Valid()
      ensures ok <==> page % PAGE_SIZE == 0 && page / PAGE_SIZE < pages
      ensures ok ==> Marked(old(ram.contents), ram.contents, bitmap, pages, page / PAGE_SIZE, page / PAGE_SIZE + 1, usable)
      ensures !ok ==> ram.contents == old(ram.contents)
    {
      var location := BitmapLocation(page, pages);
      if location.None? { return false; }
      var (index, bit) := location.value;
      MarkOne(ram.contents, bitmap, pages, page / PAGE_SIZE, usable);
      var b := ram.Read(bitmap + index);
      if usable {
        ram.Write(bitmap + index, Or(b, Mask(bit)));
      } else {
        ram.Write(bitmap + index, And(b, Not(Mask(bit))));
      }
      return true;
    }

    method PmmQueryPage(page: nat) returns (r: Option<bool>)
      requires Sited()
      ensures r.Some? <==> page % PAGE_SIZE == 0 && page / PAGE_SIZE < pages
      ensures r.Some? ==> (r.value <==> page / PAGE_SIZE in Now().Free())
    {
      var location := BitmapLocation(page, pages);
      if location.None? { return None; }
      var (index, bit) := location.value;
      var b := ram.Read(bitmap + index);
      var masked := And(b, Mask(bit));
      assert masked[bit] == b[bit];
      assert masked != ZERO_BYTE ==> masked[bit];
      return Some(masked != ZERO_BYTE);
    }

    /** One round of a marking loop that began on memory `m0` and has marked the pages p..q-1. */
    method MarkNext(ghost m0: Memory, page: nat, ghost p: nat, ghost q: nat, usable: bool) returns (ok: bool)
      requires Sited() && Placed(m0, bitmap, pages) && p <= q && Marked(m0, ram.contents, bitmap, pages, p, q, usable)
      requires page % PAGE_SIZE == 0 ==> page / PAGE_SIZE == q
      modifies ram, ram.bytes
      ensures ram.Valid()
      ensures ok <==> page % PAGE_SIZE == 0 && q < pages
      ensures ok ==> Now().Placed() && Marked(m0, ram.contents, bitmap, pages, p, q + 1, usable)
    {
      ghost var before := ram.contents;
      ok := PmmMarkPage(page, usable);
      if ok { MarkedThen(m0, before, ram.contents, bitmap, pages, p, q, q + 1, usable); }
    }

    method PmmMarkRange(base: nat, len: nat, usable: bool) returns (ok: bool)
      requires Sited() && base < TWO64 && len < TWO64
      modifies ram, ram.bytes
      ensures ram.Valid()
      ensures ok <==> base % PAGE_SIZE == 0 && len % PAGE_SIZE == 0 && (len == 0 || base + len <= PAGE_SIZE * pages)
      ensures ok ==> Marked(old(ram.contents), ram.contents, bitmap, pages, base / PAGE_SIZE, (base + len) / PAGE_SIZE, usable)
    {
      if base % PAGE_SIZE != 0 { return false; }
      if len % PAGE_SIZE != 0 { return false; }
      ghost var p, n := base / PAGE_SIZE, len / PAGE_SIZE;
      RangeInPages(base, len, p, n, pages);
      ok := MarkPages(base, len, usable, p, n);
    }

    /** The loop of pmm_mark_range over the pages p..p+n-1. */
    method MarkPages(base: nat, len: nat, usable: bool, ghost p: nat, ghost n: nat) returns (ok: bool)
      requires Sited() && base < TWO64 && base == PAGE_SIZE * p && len == PAGE_SIZE * n
      modifies ram, ram.bytes
      ensures ram.Valid()
      ensures ok <==> n == 0 || p + n <= pages
      ensures ok ==> Marked(old(ram.contents), ram.contents, bitmap, pages, p, p + n, usable)
    {
      ghost var k := 0;
      var i := 0;
      while i < len
        invariant i == PAGE_SIZE * k && k <= n && (k == 0 || p + k <= pages)
        invariant Sited() && Marked(old(ram.contents), ram.contents, bitmap, pages, p, p + k, usable)
      {
        var page := U64(base + i);
        PageOfRun(base, i, p, k);
        var marked := MarkNext(old(ram.contents), page, p, p + k, usable);
        if !marked { return false; }
        i, k := i + PAGE_SIZE, k + 1;
      }
      assert k == n;
      return true;
    }

    /** The allocator's scan of one candidate run. It never stops early; None is the out-of-range panic. */
    method ScanRun(i: nat, count: nat) returns (r: Option<bool>)
      requires Sited() && i < pages
      ensures r.Some? <==> count == 0 || i + count <= pages
      ensures r.Some? ==> (r.value <==> RunAt(Now().Free(), i, count))
    {
      var usable := true;
      var j := 0;
      while j < count
        invariant 0 <= j <= count && (j == 0 || i + j <= pages)
        invariant usable <==> RunAt(Now().Free(), i, j)
      {
        var page := U64((i + j) * PAGE_SIZE);
        PageNumber((i + j) * PAGE_SIZE, i + j);
        assert page / PAGE_SIZE == i + j;
        var queried := PmmQueryPage(page);
        if queried.None? { return None; }
        RunGrows(Now().Free(), i, j);
        usable := usable && queried.value;
        j := j + 1;
      }
      return Some(usable);
    }

    /** First fit. Panics if and only if no run of that many free pages exists. */
    method PmmAllocPages(count: nat) returns (r: Option<nat>)
      requires Sited()
      modifies ram, ram.bytes
      ensures ram.Valid()
      ensures r.Some? <==> exists i: nat :: i < pages && RunAt(old(Now().Free()), i, count)
      ensures r.Some? ==>
        && r.value % PAGE_SIZE == 0
        && FirstRun(old(Now().Free()), pages, r.value / PAGE_SIZE, count)
        && Marked(old(ram.contents), ram.contents, bitmap, pages, r.value / PAGE_SIZE, r.value / PAGE_SIZE + count, false)
      ensures r.None? ==> ram.contents == old(ram.contents)
    {
      ghost var free := Now().Free();
      var i := 0;
      while i < pages
        invariant 0 <= i <= pages && ram.Valid()
        invariant ram.contents == old(ram.contents)
        invariant forall k: nat :: k < i ==> !RunAt(free, k, count)
      {
        var usable := ScanRun(i, count);
        if usable.None? {
          NoRunBeyond(free, pages, i, count);
          return None;
        }
        if usable.value {
          MarkRun(i, count);
          return Some(i * PAGE_SIZE);
        }
        i := i + 1;
      }
      return None;
    }

    /** The marking loop of the allocator, entered once the run is known to be free. */
    method MarkRun(i: nat, count: nat)
      requires Sited() && (count == 0 || i + count <= pages)
      modifies ram, ram.bytes
      ensures ram.Valid()
      ensures Marked(old(ram.contents), ram.contents, bitmap, pages, i, i + count, false)
    {
      var j := 0;
      while j < count
        invariant 0 <= j <= count && Sited()
        invariant Marked(old(ram.contents), ram.contents, bitmap, pages, i, i + j, false)
      {
        PageNumber((i + j) * PAGE_SIZE, i + j);
        var marked := MarkNext(old(ram.contents), U64((i + j) * PAGE_SIZE), i, i + j, false);
        j := j + 1;
      }
    }

    method PmmFreePages(paddr: nat, count: nat) returns (ok: bool)
      requires Sited() && paddr < TWO64
      modifies ram, ram.bytes
      ensures ram.Valid()
      ensures ok <==> count == 0 || (paddr % PAGE_SIZE == 0 && paddr / PAGE_SIZE + count <= pages)
      ensures ok ==> Marked(old(ram.contents), ram.contents, bitmap, pages, paddr / PAGE_SIZE, paddr / PAGE_SIZE + count, true)
    {
      ghost var p := paddr / PAGE_SIZE;
      var i := 0;
      while i < count
        invariant 0 <= i <= count && Sited()
        invariant i == 0 || (paddr == PAGE_SIZE * p && p + i <= pages)
        invariant Marked(old(ram.contents), ram.contents, bitmap, pages, p, p + i, true)
      {
        var page := U64(paddr + i * PAGE_SIZE);
        PageAfter(paddr, p, i);
        var marked := MarkNext(old(ram.contents), page, p, p + i, true);
        if !marked { return false; }
        i := i + 1;
      }
      return true;
    }

    /** `pmm_alloc_page`: the lowest free page; panics if and only if no page is free. */
    method PmmAllocPage() returns (r: Option<nat>)
      requires Sited()
      modifies ram, ram.bytes
      ensures ram.Valid()
      ensures r.Some? <==> old(Now().Free()) != {}
      ensures r.Some? ==>
        && r.value % PAGE_SIZE == 0
        && r.value / PAGE_SIZE in old(Now().Free())
        && (forall p :: p in old(Now().Free()) ==> r.value / PAGE_SIZE <= p)
        && Marked(old(ram.contents), ram.contents, bitmap, pages, r.value / PAGE_SIZE, r.value / PAGE_SIZE + 1, false)
      ensures r.None? ==> ram.contents == old(ram.contents)
    {
      ghost var free := Now().Free();
      SingleRun(free, pages);
      r := PmmAllocPages(1);
      if r.None? { return; }
      assert r.value / PAGE_SIZE in free;
      forall p | p in free
        ensures r.value / PAGE_SIZE <= p
      {
        assert RunAt(free, p, 1);
      }
    }

    /** `pmm_free_page` */
    method PmmFreePage(paddr: nat) returns (ok: bool)
      requires Sited() && paddr < TWO64
      modifies ram, ram.bytes
      ensures ram.Valid()
      ensures ok <==> paddr % PAGE_SIZE == 0 && paddr / PAGE_SIZE < pages
      ensures ok ==> Marked(old(ram.contents), ram.contents, bitmap, pages, paddr / PAGE_SIZE, paddr / PAGE_SIZE + 1, true)
    {
      ok := PmmFreePages(paddr, 1);
    }

    /** `kalloc`: panics exactly when the allocator does. */
    method Kalloc(size: nat) returns (r: Option<nat>)
      requires Sited() && size < TWO64
      modifies ram, ram.bytes
      ensures ram.Valid()
      ensures r.Some? <==> exists i: nat :: i < pages && RunAt(old(Now().Free()), i, PagesFor(size))
      ensures r.Some? ==> exists i: nat ::
        && FirstRun(old(Now().Free()), pages, i, PagesFor(size))
        && r.value == PhyToVirt(hhdm, PAGE_SIZE * i)
        && Marked(old(ram.contents), ram.contents, bitmap, pages, i, i + PagesFor(size), false)
    {
      var page := PmmAllocPages(PagesFor(size));
      if page.None? { return None; }
      assert page.value == PAGE_SIZE * (page.value / PAGE_SIZE);
      return Some(PhyToVirt(hhdm, page.value));
    }

    method Kfree(ptr: nat, size: nat) returns (ok: bool)
      requires Sited() && ptr < TWO64 && size < TWO64
      modifies ram, ram.bytes
      ensures ram.Valid()
      ensures var paddr := U64(ptr - hhdm);
        && (ok <==> PagesFor(size) == 0 || (paddr % PAGE_SIZE == 0 && paddr / PAGE_SIZE + PagesFor(size) <= pages))
        && (ok ==> Marked(old(ram.contents), ram.contents, bitmap, pages, paddr / PAGE_SIZE, paddr / PAGE_SIZE + PagesFor(size), true))
    {
      ok := PmmFreePages(U64(ptr - hhdm), PagesFor(size));
    }

    method MarkEntry(e: MemmapEntry) returns (ok: bool)
      requires Sited() && e.End() < TWO64
      modifies ram, ram.bytes
      ensures ram.Valid()
      ensures ok <==> Markable(e, pages)
      ensures ok ==> Marked(old(ram.contents), ram.contents, bitmap, pages, e.base / PAGE_SIZE, e.End() / PAGE_SIZE, true)
    {
      ok := PmmMarkRange(e.base, e.length, true);
    }

    /** One round of an entry loop that began on memory `m0` and has freed the pages `done`. */
    method MarkClaimedEntry(e: MemmapEntry, phase: Phase, ghost m0: Memory, ghost done: set<nat>) returns (ok: bool)
      requires Sited() && e.End() < TWO64
      requires Placed(m0, bitmap, pages) && Freed(m0, ram.contents, bitmap, pages, done)
      modifies ram, ram.bytes
      ensures ram.Valid()
      ensures ok <==> (Claims(phase, e.kind) ==> Markable(e, pages))
      ensures ok ==> Now().Placed()
      ensures ok ==> Freed(m0, ram.contents, bitmap, pages, done + (if Claims(phase, e.kind) then e.Pages() else {}))
    {
      ok := true;
      if Claims(phase, e.kind) {
        ghost var before := ram.contents;
        ok := MarkEntry(e);
        if ok { FreedThen(m0, before, ram.contents, bitmap, pages, done, e.base / PAGE_SIZE, e.End() / PAGE_SIZE); }
      }
    }

    /** The loops that hand whole entries of the memory map to the bitmap. */
    method MarkClaimed(entries: seq<MemmapEntry>, phase: Phase) returns (ok: bool)
      requires Sited() && forall i :: 0 <= i < |entries| ==> entries[i].End() < TWO64
      modifies ram, ram.bytes
      ensures ram.Valid()
      ensures ok <==> forall i :: 0 <= i < |entries| && Claims(phase, entries[i].kind) ==> Markable(entries[i], pages)
      ensures ok ==> Freed(old(ram.contents), ram.contents, bitmap, pages, Claimed(entries, phase, |entries|))
    {
      var i := 0;
      while i < |entries|
        invariant 0 <= i <= |entries| && Sited()
        invariant forall j :: 0 <= j < i && Claims(phase, entries[j].kind) ==> Markable(entries[j], pages)
        invariant Freed(old(ram.contents), ram.contents, bitmap, pages, Claimed(entries, phase, i))
      {
        var marked := MarkClaimedEntry(entries[i], phase, old(ram.contents), Claimed(entries, phase, i));
        if !marked { return false; }
        i := i + 1;
      }
      return true;
    }

    /**
      Sizes the bitmap, places it in the first usable entry longer than it, and frees every usable page
      except those it occupies itself. Panics if and only if no entry fits or the first fit starts at 0.
     */
    method PmmInit(entries: seq<MemmapEntry>, phhdm: nat) returns (ok: bool)
      requires ram.Valid() && WellFormed(entries, |ram.contents|)
      modifies this, ram, ram.bytes
      ensures ram.Valid() && hhdm == phhdm && pages == TotalPages(entries)
      ensures ok <==> exists i: nat :: FirstFit(entries, BitmapBytes(pages), i) && entries[i].base != 0
      ensures ok ==> Prepared(Now())
      ensures ok ==> exists i: nat :: FirstFit(entries, BitmapBytes(pages), i) && bitmap == entries[i].base
                                 && BitmapFrames(bitmap, pages) <= entries[i].Pages()
      ensures ok ==> Now().Free() == Claimed(entries, Init, |entries|) - BitmapFrames(bitmap, pages)
      ensures ok ==> BitmapOnly(old(ram.contents), ram.contents, bitmap, pages)
    {
      hhdm := phhdm;
      var highest := HighestAddr(entries);
      pages := RoundUp(highest, PAGE_SIZE) / PAGE_SIZE;
      var size := RoundUp(pages, CHAR_BIT) / CHAR_BIT;
      BitmapSize(entries, |ram.contents|, pages, size);
      var fit := FindBitmapHome(entries, size);
      FirstFitUnique(entries, size);
      if fit == 0 { return false; }
      bitmap := fit;
      ghost var home: nat :| FirstFit(entries, size, home) && entries[home].base == fit;
      ok := PmmPopulate(entries, size, home);
    }

    /** Clears the bitmap, frees the usable entries and takes the bitmap's own pages back. */
    method PmmPopulate(entries: seq<MemmapEntry>, size: nat, ghost home: nat) returns (ok: bool)
      requires ram.Valid() && WellFormed(entries, |ram.contents|)
      requires pages == TotalPages(entries) && size == BitmapBytes(pages)
      requires FirstFit(entries, size, home) && bitmap == entries[home].base
      modifies ram, ram.bytes
      ensures ok && ram.Valid() && Prepared(Now())
      ensures BitmapFrames(bitmap, pages) <= entries[home].Pages()
      ensures Now().Free() == Claimed(entries, Init, |entries|) - BitmapFrames(bitmap, pages)
      ensures BitmapOnly(old(ram.contents), ram.contents, bitmap, pages)
    {
      ghost var m0 := ram.contents;
      HomeFits(entries, |m0|, home);
      ram.Zero(bitmap, size);
      ghost var m1 := ram.contents;
      ClearedFree(m1, bitmap, pages);
      ok := MarkClaimed(entries, Init);
      ghost var m2 := ram.contents;
      ClaimedInRange(entries, Init, |entries|, pages);
      FreedFree(m1, m2, bitmap, pages, Claimed(entries, Init, |entries|));
      ReserveBitmap(size);
      ghost var lo, hi := bitmap / PAGE_SIZE, bitmap / PAGE_SIZE + BitmapPages(pages);
      MarkedFree(m2, ram.contents, bitmap, pages, lo, hi, false);
      InitWrites(m0, m1, m2, ram.contents, bitmap, pages, lo, hi, Claimed(entries, Init, |entries|));
    }

    /** The last step of pmm_init: the bitmap's own frames are not free. */
    method ReserveBitmap(size: nat)
      requires Sited() && size == BitmapBytes(pages)
      modifies ram, ram.bytes
      ensures ram.Valid()
      ensures Marked(old(ram.contents), ram.contents, bitmap, pages,
                     bitmap / PAGE_SIZE, bitmap / PAGE_SIZE + BitmapPages(pages), false)
    {
      var own := RoundUp(size, PAGE_SIZE);
      OwnRange(bitmap, pages, own);
      var marked := PmmMarkRange(bitmap, own, false);
    }

    method HighestAddr(entries: seq<MemmapEntry>) returns (highest: nat)
      ensures highest == HighestEnd(entries, |entries|)
    {
      highest := 0;
      for i := 0 to |entries|
        invariant highest == HighestEnd(entries, i)
      {
        var end := entries[i].base + entries[i].length;
        if end > highest { highest := end; }
      }
    }

    /** Base of the first entry that fits, or 0 when there is none. */
    method FindBitmapHome(entries: seq<MemmapEntry>, size: nat) returns (home: nat)
      ensures (exists i: nat :: FirstFit(entries, size, i) && entries[i].base == home) ||
              (home == 0 && forall i :: 0 <= i < |entries| ==> !Fits(entries[i], size))
    {
      home := 0;
      for i := 0 to |entries|
        invariant home == 0 && forall j :: 0 <= j < i ==> !Fits(entries[j], size)
      {
        if entries[i].kind == Usable && entries[i].length > size {
          assert FirstFit(entries, size, i);
          home := entries[i].base;
          break;
        }
      }
    }

    /** Frees the reclaimable entries, then takes the live stack back out. */
    method PmmReclaim(entries: seq<MemmapEntry>, stackOrigin: nat, stackSize: nat) returns (ok: bool)
      requires Running() && stackOrigin < TWO64 && stackSize < TWO64
      requires forall i :: 0 <= i < |entries| ==> entries[i].End() < TWO64
      modifies ram, ram.bytes
      ensures ram.Valid()
      ensures ok <==>
        && (forall i :: 0 <= i < |entries| && Claims(Reclaim, entries[i].kind) ==> Markable(entries[i], pages))
        && StackOk(stackOrigin, stackSize, hhdm, pages)
      ensures ok ==> Reclaimed(old(Now()), Now(), Claimed(entries, Reclaim, |entries|),
                               StackPages(stackOrigin, stackSize, hhdm))
    {
      ghost var s := Now();
      ok := MarkClaimed(entries, Reclaim);
      if !ok { return; }
      ghost var m1 := ram.contents;
      ghost var claimed := Claimed(entries, Reclaim, |entries|);
      ClaimedInRange(entries, Reclaim, |entries|, pages);
      FreedFree(s.mem, m1, bitmap, pages, claimed);
      ghost var lo, hi;
      ok, lo, hi := ReserveStack(stackOrigin, stackSize);
      if ok {
        ReclaimSteps(s, m1, ram.contents, claimed, lo, hi);
        assert Now() == s.(mem := ram.contents);
      }
    }

    /** The last step of pmm_reclaim: the live stack stays taken. */
    method ReserveStack(stackOrigin: nat, stackSize: nat) returns (ok: bool, ghost lo: nat, ghost hi: nat)
      requires Sited() && stackSize < TWO64
      modifies ram, ram.bytes
      ensures ram.Valid()
      ensures ok <==> StackOk(stackOrigin, stackSize, hhdm, pages)
      ensures ok ==> lo <= hi && (hi <= pages || lo == hi) && Range(lo, hi) == StackPages(stackOrigin, stackSize, hhdm)
      ensures ok ==> Marked(old(ram.contents), ram.contents, bitmap, pages, lo, hi, false)
    {
      var stackTop := stackOrigin;
      var stackBottom := U64(stackTop - stackSize);
      var stack := U64(stackBottom - hhdm);
      ok := PmmMarkRange(stack, stackSize, false);
      lo, hi := stack / PAGE_SIZE, (stack + stackSize) / PAGE_SIZE;
      if ok { StackRange(stack, stackSize, pages); }
    }

    /** Debug build: clears every free page. */
    method PmmZero()
      requires Running()
      modifies ram, ram.bytes
      ensures ram.Valid()
      ensures Zeroed(old(Now()), Now(), pages)
    {
      ghost var s := Now();
      ZeroedNone(s);
      var i := 0;
      while i < pages
        invariant 0 <= i <= pages && ram.Valid()
        invariant Zeroed(s, Now(), i)
      {
        ghost var t := Now();
        PageNumber(i * PAGE_SIZE, i);
        var page := U64(i * PAGE_SIZE);
        assert page / PAGE_SIZE == i;
        var free := PmmQueryPage(page);
        if free.value {
          ram.Zero(page, PAGE_SIZE);
        }
        ZeroedNext(s, t, Now(), i);
        i := i + 1;
      }
    }

    // ----- Virtual memory manager

    /** `pmm_alloc_page` and `memzero`, as every table starts: page `f`. `m1` is memory between the two steps. */
    method AllocZeroedPage() returns (r: Option<nat>, ghost f: nat, ghost m1: Memory)
      requires Sited()
      modifies ram, ram.bytes
      ensures ram.Valid()
      ensures r.Some? <==> old(Now().Free()) != {}
      ensures r.Some? ==>
        && r.value == PAGE_SIZE * f
        && f in old(Now().Free()) && (forall p :: p in old(Now().Free()) ==> f <= p)
        && Marked(old(ram.contents), m1, bitmap, pages, f, f + 1, false)
        && ram.contents == ZeroRange(m1, PAGE_SIZE * f, PAGE_SIZE)
    {
      r := PmmAllocPage();
      m1, f := ram.contents, 0;
      if r.None? { return; }
      f := r.value / PAGE_SIZE;
      assert r.value == PAGE_SIZE * f;
      ram.Zero(r.value, PAGE_SIZE);
    }

    /** The field assignments of vmm_ensure_present. */
    method StoreReference(entry: nat, page: nat) returns (ghost e: Word)
      requires ram.Valid() && entry + 8 <= |ram.contents|
      modifies ram, ram.bytes
      ensures ram.Valid() && ram.contents == StoreWord(old(ram.contents), entry, e)
      ensures Present(e) && Writable(e) && !UserMode(e) && !LargePage(e) && !ExecuteDisable(e) && Address(e) == FrameOf(page)
    {
      var w := ram.ReadWord(entry);
      w := FillTableEntry(w, page);
      ram.WriteWord(entry, w);
      e := w;
    }

    /** The missing-entry branch of vmm_ensure_present: takes, clears and links a page. */
    method VmmAddTable(entry: nat, ghost n: Node, ghost i: nat) returns (ok: bool)
      requires Running() && n in tables && n.level > 0 && i < 512 && entry == Slot(tables[n], i)
      requires Child(n, i) !in tables
      modifies ram, ram.bytes, this`tables
      ensures ok <==> old(Now().Free()) != {}
      ensures ram.Valid()
      ensures ok ==> Extends(old(Now()), Now(), {Child(n, i)})
    {
      ghost var s := Now();
      ghost var c := Child(n, i);
      var taken, f, m1 := AllocZeroedPage();
      if taken.None? { return false; }
      var page := taken.value;
      PageNumber(page, f);
      SlotInside(ram.contents, tables[n], i);
      ghost var e := StoreReference(entry, page);
      FrameFits(page);
      tables := tables[c := f];
      TableAdded(s, m1, Now(), n, i, f, e);
      return true;
    }

    /** `entry` points to entry `i` of the table of node `n`. Panics if and only if a table is needed and no page is free. */
    method VmmEnsurePresent(entry: nat, ghost n: Node, ghost i: nat) returns (r: Option<nat>)
      requires Running() && n in tables && n.level > 0 && i < 512 && entry == Slot(tables[n], i)
      modifies ram, ram.bytes, this`tables
      ensures r.Some? <==> Child(n, i) in old(tables) || old(Now().Free()) != {}
      ensures ram.Valid()
      ensures r.Some? ==> Extends(old(Now()), Now(), {Child(n, i)})
      ensures r.Some? ==> Child(n, i) in tables && r.value == PAGE_SIZE * tables[Child(n, i)]
    {
      var e := ram.ReadWord(entry);
      assert Links(e, tables, Child(n, i));
      if !e[0] {
        var added := VmmAddTable(entry, n, i);
        if !added { return None; }
      } else {
        AlreadyThere(Now(), {Child(n, i)});
      }
      var next := EntryTarget(entry, n, i);
      return Some(next);
    }

    /** `entry->addr << 12` */
    method EntryTarget(entry: nat, ghost n: Node, ghost i: nat) returns (next: nat)
      requires Running() && n in tables && n.level > 0 && i < 512 && entry == Slot(tables[n], i)
      requires Child(n, i) in tables
      ensures next == PAGE_SIZE * tables[Child(n, i)]
    {
      var e := ram.ReadWord(entry);
      assert e == Entry(ram.contents, tables[n], i);
      assert Links(e, tables, Child(n, i));
      EntryAddress(e, tables[Child(n, i)]);
      next := U64(NatOf(e[12..52]) * 4096);
    }

    /** One level of vmm_map_page's descent, which began in state `s` and has made the nodes `done` present. */
    method VmmStep(entry: nat, ghost s: Space, ghost done: set<Node>, ghost n: Node, ghost i: nat) returns (r: Option<nat>)
      requires Running() && n in tables && n.level > 0 && i < 512 && entry == Slot(tables[n], i)
      requires Sound(s) && Extends(s, Now(), done)
      modifies ram, ram.bytes, this`tables
      ensures ram.Valid()
      ensures r.Some? ==> Extends(s, Now(), done + {Child(n, i)})
      ensures r.Some? ==> Child(n, i) in tables && r.value == PAGE_SIZE * tables[Child(n, i)]
      ensures r.None? ==> |Missing(s.tables, done + {Child(n, i)})| > |s.Free()|
    {
      ghost var t := Now();
      r := VmmEnsurePresent(entry, n, i);
      if r.Some? {
        ExtendsThen(s, t, Now(), done, {Child(n, i)});
      } else {
        OneMissing(t.tables, Child(n, i));
        RanDry(s.Free(), s.tables, t.Free(), t.tables, done, {Child(n, i)}, done + {Child(n, i)});
      }
    }

    /** The first two levels of vmm_map_page's descent; returns the page directory of `where`. */
    method VmmDescendPd(where: nat, ghost n2: Node, ghost n1: Node) returns (r: Option<nat>)
      requires Running()
      requires n2.level == 2 && Child(ROOT, where / 0x80_0000_0000 % 512) == n2
      requires Child(n2, where / 0x4000_0000 % 512) == n1
      modifies ram, ram.bytes, this`tables
      ensures ram.Valid()
      ensures r.Some? ==> Extends(old(Now()), Now(), {} + {n2} + {n1})
      ensures r.Some? ==> n1 in tables && r.value == PAGE_SIZE * tables[n1]
      ensures r.None? ==>
        || |Missing(old(tables), {} + {n2})| > |old(Now().Free())|
        || |Missing(old(tables), {} + {n2} + {n1})| > |old(Now().Free())|
    {
      ghost var s := Now();
      AlreadyThere(s, {});
      var pml4Index := where / 0x80_0000_0000 % 512;
      var pdpt := VmmStep(PAGE_SIZE * pml4 + 8 * pml4Index, s, {}, ROOT, pml4Index);
      if pdpt.None? { return None; }
      var pdptIndex := where / 0x4000_0000 % 512;
      r := VmmStep(pdpt.value + 8 * pdptIndex, s, {} + {n2}, n2, pdptIndex);
    }

    /** All three levels; returns the page table of `where`. */
    method VmmDescendPt(where: nat, ghost n2: Node, ghost n1: Node, ghost n0: Node) returns (r: Option<nat>)
      requires Running()
      requires n2.level == 2 && Child(ROOT, where / 0x80_0000_0000 % 512) == n2
      requires n1.level == 1 && Child(n2, where / 0x4000_0000 % 512) == n1
      requires Child(n1, where / 0x20_0000 % 512) == n0
      modifies ram, ram.bytes, this`tables
      ensures ram.Valid()
      ensures r.Some? ==> Extends(old(Now()), Now(), {} + {n2} + {n1} + {n0})
      ensures r.Some? ==> n0 in tables && r.value == PAGE_SIZE * tables[n0]
      ensures r.None? ==>
        || |Missing(old(tables), {} + {n2})| > |old(Now().Free())|
        || |Missing(old(tables), {} + {n2} + {n1})| > |old(Now().Free())|
        || |Missing(old(tables), {} + {n2} + {n1} + {n0})| > |old(Now().Free())|
    {
      ghost var s := Now();
      var pd := VmmDescendPd(where, n2, n1);
      if pd.None? { return None; }
      var pdIndex := where / 0x20_0000 % 512;
      r := VmmStep(pd.value + 8 * pdIndex, s, {} + {n2} + {n1}, n1, pdIndex);
    }

    /** The whole descent: makes each level present and returns the page table of `where`. */
    method VmmDescend(where: nat) returns (r: Option<nat>)
      requires Running()
      modifies ram, ram.bytes, this`tables
      ensures ram.Valid()
      ensures r.Some? <==> |Missing(old(tables), Path(Vpn(where)))| <= |old(Now().Free())|
      ensures r.Some? ==> Extends(old(Now()), Now(), Path(Vpn(where)))
      ensures r.Some? ==> Home(Vpn(where), 0) in tables && r.value == PAGE_SIZE * tables[Home(Vpn(where), 0)]
    {
      ghost var s, path := Now(), Path(Vpn(where));
      ghost var n2, n1, n0 := PathOf(where, tables);
      r := VmmDescendPt(where, n2, n1, n0);
      if r.Some? {
        EnoughPages(s.Free(), s.tables, Now().Free(), tables, path);
      }
    }

    method VmmMapPage(what: nat, where: nat, flags: nat) returns (ok: bool)
      requires Running() && what < TWO64 && where < TWO64
      modifies ram, ram.bytes, this`tables
      ensures ram.Valid()
      ensures ok <==>
        && what % PAGE_SIZE == 0 && where % PAGE_SIZE == 0 && where != 0
        && !(flags % 2 == 1 && flags / 2 % 2 == 1) && flags / 8 % 4 != 3
        && |Missing(old(tables), Path(Vpn(where)))| <= |old(Now().Free())|
      ensures ok ==> Remaps(old(Now()), Now(), what, where, flags, 1)
      ensures ok ==> LeafUser(Now(), Vpn(where), flags / 4 % 2 == 1)
    {
      if what % PAGE_SIZE != 0 { return false; }
      if where % PAGE_SIZE != 0 { return false; }
      if where == 0 { return false; }
      if IsW(flags) && IsX(flags) { return false; }
      if Cache(flags) == Unknown { return false; }
      ghost var s := Now();
      var pt := VmmDescend(where);
      if pt.None? { return false; }
      ghost var t := Now();
      IndexBits(where);
      var ptIndex := where / 0x1000 % 512;
      var entry := pt.value + 8 * ptIndex;
      assert entry == Slot(tables[Home(Vpn(where), 0)], Index(Vpn(where), 0));
      var e := ram.ReadWord(entry);
      e := FillLeafEntry(e, what, flags);
      ram.WriteWord(entry, e);
      RemapsOne(s, t, Now(), what, where, flags, e);
      EntryAfterStore(t.mem, tables[Home(Vpn(where), 0)], Index(Vpn(where), 0), e, tables[Home(Vpn(where), 0)], Index(Vpn(where), 0));
      return true;
    }

    /** One round of vmm_map's loop, which began in state `s` and has mapped `k` pages. */
    method VmmMapNext(ghost s: Space, what: nat, where: nat, size: nat, flags: nat, i: nat, ghost k: nat, ghost n: nat) returns (ok: bool)
      requires Running() && what < TWO64 && where < TWO64 && size < TWO64
      requires AllAligned(what, where, size) && i == PAGE_SIZE * k && size == PAGE_SIZE * n && k < n && Reached(where, flags, k)
      requires Sound(s) && Remaps(s, Now(), what, where, flags, k)
      modifies ram, ram.bytes, this`tables
      ensures ram.Valid()
      ensures ok ==> Reached(where, flags, k + 1) && Remaps(s, Now(), what, where, flags, k + 1)
      ensures !ok ==>
        !MapOk(what, where, size, flags) || |Missing(s.tables, Touched(where, n))| > |s.Free()|
    {
      ghost var t := Now();
      AlignedFacts(what, where, size);
      PageOfRange(what, where, size, flags, k);
      var pageWhat, pageWhere := U64(what + i), U64(where + i);
      PageAtBytes(what, i, k);
      PageAtBytes(where, i, k);
      ok := VmmMapPage(pageWhat, pageWhere, flags);
      if ok {
        RemapsThen(s, t, Now(), what, where, flags, k);
      } else {
        MapRanDry(s, t, what, where, flags, k, n);
      }
    }

    /** vmm_map's loop over the `n` pages of the range. */
    method VmmMapPages(what: nat, where: nat, size: nat, flags: nat, ghost n: nat) returns (ok: bool)
      requires Running() && what < TWO64 && where < TWO64 && size < TWO64
      requires AllAligned(what, where, size) && size == PAGE_SIZE * n
      modifies ram, ram.bytes, this`tables
      ensures ram.Valid()
      ensures ok ==> Reached(where, flags, n) && Remaps(old(Now()), Now(), what, where, flags, n)
      ensures !ok ==> !MapOk(what, where, size, flags) || |Missing(old(tables), Touched(where, n))| > |old(Now().Free())|
    {
      ghost var s, k := Now(), 0;
      RemapsNothing(s, what, where, flags);
      var i := 0;
      while i < size
        invariant i == PAGE_SIZE * k && k <= n && Reached(where, flags, k)
        invariant ram.Valid() && Remaps(s, Now(), what, where, flags, k)
      {
        var mapped := VmmMapNext(s, what, where, size, flags, i, k, n);
        if !mapped { return false; }
        i, k := i + PAGE_SIZE, k + 1;
      }
      assert k == n;
      return true;
    }

    /** Panics if and only if the arguments are unacceptable or the tables still missing outnumber the free pages. */
    method VmmMap(what: nat, where: nat, size: nat, flags: nat) returns (ok: bool)
      requires Running() && what < TWO64 && where < TWO64 && size < TWO64
      modifies ram, ram.bytes, this`tables
      ensures ram.Valid()
      ensures ok <==>
        && MapOk(what, where, size, flags)
        && |Missing(old(tables), Touched(where, size / PAGE_SIZE))| <= |old(Now().Free())|
      ensures ok ==> Remaps(old(Now()), Now(), what, where, flags, size / PAGE_SIZE)
    {
      if what % PAGE_SIZE != 0 { return false; }
      if where % PAGE_SIZE != 0 { return false; }
      if size % PAGE_SIZE != 0 { return false; }
      ghost var s, n := Now(), size / PAGE_SIZE;
      AllReached(what, where, size, flags, n);
      AlignedWitness(what, where, size);
      ok := VmmMapPages(what, where, size, flags, n);
      if ok { RemapsAffords(s, Now(), what, where, flags, n); }
    }

    method VmmMapUnaligned(what: nat, where: nat, size: nat, flags: nat) returns (ok: bool)
      requires Running() && what < TWO64 && where < TWO64 && size < TWO64
      modifies ram, ram.bytes, this`tables
      ensures ram.Valid()
      ensures var r := AlignedRequest(what, where, size, flags);
        && (ok <==> r.Ok() && |Missing(old(tables), Touched(r.where, r.Pages()))| <= |old(Now().Free())|)
        && (ok ==> Remaps(old(Now()), Now(), r.what, r.where, flags, r.Pages()))
    {
      var alignedWhat := RoundDown(what, PAGE_SIZE);
      var alignedWhere := RoundDown(where, PAGE_SIZE);
      var alignedEnd: int := RoundUp(U64(what + size), PAGE_SIZE);
      var alignedSize := U64(alignedEnd - alignedWhat);
      assert AlignedRequest(what, where, size, flags) == Request(alignedWhat, alignedWhere, alignedSize, flags);
      ok := VmmMap(alignedWhat, alignedWhere, alignedSize, flags);
    }

    // ----- Boot

    /** Allocates and clears the PML4. */
    method NewRoot() returns (ok: bool)
      requires ram.Valid() && Prepared(Now())
      modifies ram, ram.bytes, this`pml4, this`tables
      ensures ram.Valid()
      ensures ok <==> old(Now().Free()) != {}
      ensures ok ==> StartsEmpty(old(Now()), Now())
    {
      ghost var s := Now();
      var page, f, m1 := AllocZeroedPage();
      if page.None? { return false; }
      PageNumber(page.value, f);
      pml4 := page.value / PAGE_SIZE;
      tables := map[ROOT := pml4];
      RootTaken(s, m1, Now());
      return true;
    }

    /** One vmm_map call of vmm_init, after the requests `done` were served from state `s`. */
    method ServeMap(ghost s: Space, ghost done: seq<Request>, ghost all: seq<Request>,
                    what: nat, where: nat, size: nat, flags: nat) returns (ok: bool)
      requires ram.Valid() && Serves(s, Now(), done) && what < TWO64 && where < TWO64 && size < TWO64
      requires done + [Request(what, where, size, flags)] <= all
      modifies ram, ram.bytes, this`tables
      ensures ram.Valid()
      ensures ok ==> Serves(s, Now(), done + [Request(what, where, size, flags)])
      ensures !ok ==> Hopeless(s, all)
    {
      ghost var t, r := Now(), Request(what, where, size, flags);
      ServesSound(s, t, done);
      ok := VmmMap(what, where, size, flags);
      if ok { ServesThen(s, t, Now(), done, r); } else { ServesRanDry(s, t, done, r, all); }
    }

    /** One vmm_map_unaligned call of vmm_init. */
    method ServeSegment(ghost s: Space, ghost done: seq<Request>, ghost all: seq<Request>,
                        what: nat, where: nat, size: nat, flags: nat) returns (ok: bool)
      requires ram.Valid() && Serves(s, Now(), done) && what < TWO64 && where < TWO64 && size < TWO64
      requires done + [AlignedRequest(what, where, size, flags)] <= all
      modifies ram, ram.bytes, this`tables
      ensures ram.Valid()
      ensures var r := AlignedRequest(what, where, size, flags); ok ==> Serves(s, Now(), done + [r])
      ensures !ok ==> Hopeless(s, all)
    {
      ghost var t, r := Now(), AlignedRequest(what, where, size, flags);
      ServesSound(s, t, done);
      ok := VmmMapUnaligned(what, where, size, flags);
      if ok { ServesThen(s, t, Now(), done, r); } else { ServesRanDry(s, t, done, r, all); }
    }

    /** One round of vmm_init's memory-map loop. */
    method MapHhdmEntry(e: MemmapEntry, ghost s: Space, ghost done: seq<Request>, ghost all: seq<Request>) returns (ok: bool)
      requires ram.Valid() && Serves(s, Now(), done) && e.base < TWO64 && e.length < TWO64
      requires done + HhdmPart(e, hhdm) <= all
      modifies ram, ram.bytes, this`tables
      ensures ram.Valid()
      ensures ok ==> Serves(s, Now(), done + HhdmPart(e, hhdm))
      ensures !ok ==> Hopeless(s, all)
    {
      match HhdmFlags(e.kind) {
        case None =>
          assert done + HhdmPart(e, hhdm) == done;
          ok := true;
        case Some(flags) =>
          ok := ServeMap(s, done, all, e.base, PhyToVirt(hhdm, e.base), e.length, flags);
      }
    }

    /** The memory-map loop of vmm_init. */
    method MapHhdm(entries: seq<MemmapEntry>, ghost s: Space, ghost all: seq<Request>) returns (ok: bool)
      requires ram.Valid() && Serves(s, Now(), [])
      requires forall i :: 0 <= i < |entries| ==> entries[i].base < TWO64 && entries[i].length < TWO64
      requires HhdmRequests(entries, hhdm, |entries|) <= all
      modifies ram, ram.bytes, this`tables
      ensures ram.Valid()
      ensures ok ==> Serves(s, Now(), HhdmRequests(entries, hhdm, |entries|))
      ensures !ok ==> Hopeless(s, all)
    {
      var i := 0;
      while i < |entries|
        invariant 0 <= i <= |entries| && ram.Valid()
        invariant Serves(s, Now(), HhdmRequests(entries, hhdm, i))
      {
        HhdmPrefix(entries, hhdm, i + 1, |entries|);
        var mapped := MapHhdmEntry(entries[i], s, HhdmRequests(entries, hhdm, i), all);
        if !mapped { return false; }
        i := i + 1;
      }
      return true;
    }

    /** One round of a program-header loop. */
    method MapSegment(p: Phdr, kind: SegmentKind, physBase: nat, virtBase: nat,
                      ghost s: Space, ghost done: seq<Request>, ghost all: seq<Request>) returns (ok: bool)
      requires ram.Valid() && Serves(s, Now(), done) && p.memsz < TWO64
      requires done + SegmentPart(p, kind, physBase, virtBase) <= all
      modifies ram, ram.bytes, this`tables
      ensures ram.Valid()
      ensures ok ==> Serves(s, Now(), done + SegmentPart(p, kind, physBase, virtBase))
      ensures !ok ==> Hopeless(s, all)
    {
      if p.kind == kind {
        ElfFlagsMean(p.flags);
        ok := ServeSegment(s, done, all, U64(physBase + p.vaddr), U64(virtBase + p.vaddr), p.memsz, ElfFlags(p.flags));
      } else {
        assert done + SegmentPart(p, kind, physBase, virtBase) == done;
        ok := true;
      }
    }

    /** A program-header loop of vmm_init. */
    method MapSegments(phdrs: seq<Phdr>, kind: SegmentKind, physBase: nat, virtBase: nat,
                       ghost s: Space, ghost done: seq<Request>, ghost all: seq<Request>) returns (ok: bool)
      requires ram.Valid() && Serves(s, Now(), done)
      requires forall i :: 0 <= i < |phdrs| ==> phdrs[i].memsz < TWO64
      requires done + SegmentRequests(phdrs, kind, physBase, virtBase, |phdrs|) <= all
      modifies ram, ram.bytes, this`tables
      ensures ram.Valid()
      ensures ok ==> Serves(s, Now(), done + SegmentRequests(phdrs, kind, physBase, virtBase, |phdrs|))
      ensures !ok ==> Hopeless(s, all)
    {
      var i := 0;
      assert done + [] == done;
      while i < |phdrs|
        invariant 0 <= i <= |phdrs| && ram.Valid()
        invariant Serves(s, Now(), done + SegmentRequests(phdrs, kind, physBase, virtBase, i))
      {
        SegmentNext(done, phdrs, kind, physBase, virtBase, i, all);
        var mapped := MapSegment(phdrs[i], kind, physBase, virtBase, s, done + SegmentRequests(phdrs, kind, physBase, virtBase, i), all);
        if !mapped { return false; }
        i := i + 1;
      }
      return true;
    }

    /**
      Builds the first address space: the HHDM entries, then PT_LOAD, then PT_GNU_RELRO. It reaches the CR3 load
      if and only if every request is acceptable and the tables they touch are fewer than the free pages (one goes to the PML4).
     */
    method VmmInit(entries: seq<MemmapEntry>, phdrs: seq<Phdr>, physBase: nat, virtBase: nat) returns (ok: bool)
      requires ram.Valid() && Prepared(Now())
      requires forall i :: 0 <= i < |entries| ==> entries[i].base < TWO64 && entries[i].length < TWO64
      requires forall i :: 0 <= i < |phdrs| ==> phdrs[i].memsz < TWO64
      modifies ram, ram.bytes, this`pml4, this`tables
      ensures ram.Valid()
      ensures var reqs := InitRequests(entries, hhdm, phdrs, physBase, virtBase);
        && (ok <==> |TouchedAll(reqs)| < |old(Now().Free())| && forall r :: r in reqs ==> r.Ok())
        && (ok ==> exists s :: StartsEmpty(old(Now()), s) && Serves(s, Now(), reqs))
    {
      var started := NewRoot();
      if !started { return false; }
      ghost var s, all := Now(), InitRequests(entries, hhdm, phdrs, physBase, virtBase);
      ghost var before := old(Now());
      FreshHopeless(before, s, all);
      ServesNothing(s);
      ok := MapHhdm(entries, s, all);
      if !ok { return; }
      ok := MapSegments(phdrs, Load, physBase, virtBase, s, HhdmRequests(entries, hhdm, |entries|), all);
      if !ok { return; }
      ok := MapSegments(phdrs, GnuRelro, physBase, virtBase, s,
                        HhdmRequests(entries, hhdm, |entries|) + SegmentRequests(phdrs, Load, physBase, virtBase, |phdrs|), all);
      if !ok { return; }
      ServesSound(s, Now(), all);
      NotHopeless(s, Now(), all);
    }
  }

  /** The page-table entry of page `v` exists, and its user bit is `user`. */
  ghost predicate LeafUser(s: Space, v: nat, user: bool) {
    Home(v, 0) in s.tables && PageInside(s.mem, s.tables[Home(v, 0)]) && UserMode(Entry(s.mem, s.tables[Home(v, 0)], Index(v, 0))) == user
  }

  /** Rounding the bitmap's size up to pages yields exactly the bytes of its frames. */
  lemma OwnRange(bm: nat, n: nat, own: nat)
    requires bm % PAGE_SIZE == 0 && BitmapBytes(n) <= 0x10_0000_0000_0000
    requires own == RoundUp(BitmapBytes(n), PAGE_SIZE)
    ensures own == PAGE_SIZE * BitmapPages(n) && (bm + own) / PAGE_SIZE == bm / PAGE_SIZE + BitmapPages(n)
    ensures own < TWO64
  {
  }

  /** The page count covers the highest entry, and the size is that of a bitmap for as many pages. */
  lemma BitmapSize(entries: seq<MemmapEntry>, memory: nat, n: int, size: int)
    requires WellFormed(entries, memory)
    requires n == RoundUp(HighestEnd(entries, |entries|), PAGE_SIZE) / PAGE_SIZE
    requires n >= 0 ==> size == RoundUp(n, CHAR_BIT) / CHAR_BIT
    ensures n == TotalPages(entries) && size == BitmapBytes(n)
  {
    HighestEndBounds(entries, |entries|, memory);
    PageRounding(HighestEnd(entries, |entries|));
  }

  lemma FirstFitUnique(entries: seq<MemmapEntry>, bytes: nat)
    ensures forall i: nat, j: nat :: FirstFit(entries, bytes, i) && FirstFit(entries, bytes, j) ==> i == j
  {
  }

  /** The rounded-up bitmap fits in the entry chosen for it: the strict test and the alignment leave room. */
  lemma HomeFits(entries: seq<MemmapEntry>, memory: nat, home: nat)
    requires WellFormed(entries, memory)
    requires FirstFit(entries, BitmapBytes(TotalPages(entries)), home)
    ensures forall i :: 0 <= i < |entries| ==> entries[i].End() <= PAGE_SIZE * TotalPages(entries)
    ensures PAGE_SIZE * TotalPages(entries) <= memory
    ensures var bm, n := entries[home].base, TotalPages(entries);
      && bm % PAGE_SIZE == 0 && BitmapFrames(bm, n) <= entries[home].Pages()
      && bm + PAGE_SIZE * BitmapPages(n) <= entries[home].End()
  {
    HighestEndBounds(entries, |entries|, memory);
    RoomFor(entries[home].base, entries[home].length, TotalPages(entries));
    PagesCover(HighestEnd(entries, |entries|), memory);
  }

  lemma PagesCover(end: nat, memory: nat)
    requires end <= memory && memory % PAGE_SIZE == 0
    ensures end <= PAGE_SIZE * ((end + PAGE_SIZE - 1) / PAGE_SIZE) <= memory
  {
  }

  /** A page-aligned entry longer than the bitmap has room for the bitmap's pages. */
  lemma RoomFor(base: nat, length: nat, n: nat)
    requires base % PAGE_SIZE == 0 && length % PAGE_SIZE == 0 && length > BitmapBytes(n)
    ensures base + PAGE_SIZE * BitmapPages(n) <= base + length
    ensures base / PAGE_SIZE + BitmapPages(n) <= (base + length) / PAGE_SIZE
  {
  }

  lemma {:induction false} ClaimedInRange(entries: seq<MemmapEntry>, phase: Phase, k: nat, pages: nat)
    requires k <= |entries|
    requires forall i :: 0 <= i < k && Claims(phase, entries[i].kind) ==> Markable(entries[i], pages)
    ensures forall p :: p in Claimed(entries, phase, k) ==> p < pages
  {
    if k > 0 { ClaimedInRange(entries, phase, k - 1, pages); }
  }

  /** Initialisation writes nothing outside the bitmap's own frames. */
  lemma InitWrites(m0: Memory, m1: Memory, m2: Memory, m3: Memory, bm: nat, n: nat, lo: nat, hi: nat, claimed: set<nat>)
    requires Placed(m0, bm, n) && m1 == ZeroRange(m0, bm, BitmapBytes(n))
    requires Placed(m1, bm, n) && Freed(m1, m2, bm, n, claimed)
    requires Placed(m2, bm, n) && Marked(m2, m3, bm, n, lo, hi, false)
    ensures BitmapOnly(m0, m3, bm, n)
  {
  }

  /** `t` has one table, the root, on a page that was free in `s`; nothing is mapped and no other page changed. */
  ghost predicate StartsEmpty(s: Space, t: Space)
    requires s.Placed()
  {
    && Sound(t) && |t.mem| == |s.mem| && t.bitmap == s.bitmap && t.pages == s.pages
    && t.tables == map[ROOT := t.root]
    && t.root in s.Free() && t.Free() == s.Free() - {t.root}
    && DataKept(s, t)
    && forall v: nat :: Lookup(t.mem, t.tables, v) == NotMapped
  }

  /** From a fresh root, a list of requests is hopeless exactly when one is unacceptable or their tables exhaust the free pages. */
  lemma FreshHopeless(s: Space, t: Space, reqs: seq<Request>)
    requires s.Placed() && StartsEmpty(s, t)
    ensures Hopeless(t, reqs) <==> !(|TouchedAll(reqs)| < |s.Free()| && forall r :: r in reqs ==> r.Ok())
  {
    AllBelowRoot(reqs);
    assert Missing(t.tables, TouchedAll(reqs)) == TouchedAll(reqs);
    assert |t.Free()| == |s.Free()| - 1;
  }

  lemma RootTaken(s: Space, m1: Memory, t: Space)
    requires Prepared(s) && t.root in s.Free()
    requires Marked(s.mem, m1, s.bitmap, s.pages, t.root, t.root + 1, false)
    requires t == s.(mem := ZeroRange(m1, PAGE_SIZE * t.root, PAGE_SIZE), root := t.root, tables := map[ROOT := t.root])
    ensures StartsEmpty(s, t)
  {
    RootAlone(s, m1, t, t.root);
    assert Range(t.root, t.root + 1) == {t.root};
  }

  /** The live stack is made of whole managed pages. */
  predicate StackOk(stackOrigin: nat, stackSize: nat, hhdm: nat, pages: nat) {
    var stack := U64(U64(stackOrigin - stackSize) - hhdm);
    && stack % PAGE_SIZE == 0 && stackSize % PAGE_SIZE == 0
    && (stackSize == 0 || stack + stackSize <= PAGE_SIZE * pages)
  }

  /** The pages of the live stack, whose addresses are HHDM addresses. */
  function StackPages(stackOrigin: nat, stackSize: nat, hhdm: nat): set<nat> {
    var stack := U64(U64(stackOrigin - stackSize) - hhdm);
    Range(stack / PAGE_SIZE, (stack + stackSize) / PAGE_SIZE)
  }

  lemma Shifted(x: int, k: int)
    ensures U64(x - TWO64 * k) == U64(x)
  {
  }

  /** When the origin is the HHDM address of physical address `top`, the stack is the `stackSize` bytes below `top`. */
  lemma StackBelow(stackOrigin: nat, stackSize: nat, hhdm: nat, top: nat)
    requires stackOrigin == (hhdm + top) % TWO64 && stackSize <= top < TWO64
    ensures U64(U64(stackOrigin - stackSize) - hhdm) == top - stackSize
  {
    var q, bottom := (hhdm + top) / TWO64, stackOrigin - stackSize;
    assert stackOrigin == hhdm + top - TWO64 * q;
    var k := bottom / TWO64;
    assert U64(bottom) == bottom - TWO64 * k;
    Shifted(top - stackSize, q + k);
  }

  /** Its pages are those that hold one of these bytes. */
  lemma StackPagesBelow(stackOrigin: nat, stackSize: nat, hhdm: nat, pages: nat, top: nat, p: nat)
    requires stackOrigin == (hhdm + top) % TWO64 && stackSize <= top < TWO64 && StackOk(stackOrigin, stackSize, hhdm, pages)
    ensures p in StackPages(stackOrigin, stackSize, hhdm) <==> PAGE_SIZE * p < top && top - stackSize < PAGE_SIZE * p + PAGE_SIZE
  {
    StackBelow(stackOrigin, stackSize, hhdm, top);
  }

  /**
    The free set gained exactly the claimed pages and lost exactly the stack. When no claimed page was a table
    or bitmap page, the tables are untouched and every translation stays.
   */
  ghost predicate Reclaimed(s: Space, t: Space, claimed: set<nat>, stack: set<nat>)
    requires Sound(s)
  {
    && t.Placed() && SameLayout(s, t) && t.tables == s.tables
    && (forall p :: p in claimed ==> p < s.pages)
    && t.Free() == (s.Free() + claimed) - stack
    && BitmapOnly(s.mem, t.mem, s.bitmap, s.pages)
    && (claimed !! BitmapFrames(s.bitmap, s.pages) && (forall p :: p in claimed ==> !IsTable(s.tables, p)) ==>
          Sound(t) && forall v: nat :: Lookup(t.mem, t.tables, v) == Lookup(s.mem, s.tables, v))
  }

  lemma StackRange(stack: nat, size: nat, pages: nat)
    requires stack % PAGE_SIZE == 0 && size % PAGE_SIZE == 0 && (size == 0 || stack + size <= PAGE_SIZE * pages)
    ensures var lo, hi := stack / PAGE_SIZE, (stack + size) / PAGE_SIZE; lo <= hi && (hi <= pages || lo == hi)
  {
  }

  lemma ReclaimSteps(s: Space, m1: Memory, m2: Memory, claimed: set<nat>, lo: nat, hi: nat)
    requires Sound(s) && (forall p :: p in claimed ==> p < s.pages) && lo <= hi && (hi <= s.pages || lo == hi)
    requires Freed(s.mem, m1, s.bitmap, s.pages, claimed)
    requires Placed(m1, s.bitmap, s.pages) && Marked(m1, m2, s.bitmap, s.pages, lo, hi, false)
    ensures Reclaimed(s, s.(mem := m2), claimed, Range(lo, hi))
  {
    FreedFree(s.mem, m1, s.bitmap, s.pages, claimed);
    MarkedFree(m1, m2, s.bitmap, s.pages, lo, hi, false);
    OnlyBitmapBytes(s.mem, m2, s.bitmap, s.pages);
    if claimed !! BitmapFrames(s.bitmap, s.pages) && forall p :: p in claimed ==> !IsTable(s.tables, p) {
      GivePages(s, m1, claimed);
      TakePages(s.(mem := m1), m2, lo, hi);
    }
  }

  /** Memory `m'` is `m` with the pages of `free` below `k` cleared. */
  ghost predicate Cleared(m: Memory, m': Memory, free: set<nat>, k: nat) {
    |m'| == |m| && forall a: nat :: a < |m| ==> m'[a] == if a / PAGE_SIZE < k && a / PAGE_SIZE in free then ZERO_BYTE else m[a]
  }

  /** Of the first `k` pages the free ones are cleared; every other byte, the bitmap and all translations are unchanged. */
  ghost predicate Zeroed(s: Space, t: Space, k: nat)
    requires Sound(s)
  {
    && Sound(t) && SameLayout(s, t) && t.tables == s.tables
    && t.Free() == s.Free()
    && Cleared(s.mem, t.mem, s.Free(), k)
    && forall v: nat :: Lookup(t.mem, t.tables, v) == Lookup(s.mem, s.tables, v)
  }

  lemma ZeroedNone(s: Space)
    requires Sound(s)
    ensures Zeroed(s, s, 0)
  {
  }

  lemma ClearedNext(m0: Memory, m1: Memory, m2: Memory, free: set<nat>, k: nat)
    requires Cleared(m0, m1, free, k) && PageInside(m1, k)
    requires m2 == if k in free then ZeroRange(m1, PAGE_SIZE * k, PAGE_SIZE) else m1
    ensures Cleared(m0, m2, free, k + 1)
  {
    forall a: nat | a < |m0|
      ensures m2[a] == if a / PAGE_SIZE < k + 1 && a / PAGE_SIZE in free then ZERO_BYTE else m0[a]
    {
      var p := a / PAGE_SIZE;
      assert p == k <==> PAGE_SIZE * k <= a < PAGE_SIZE * k + PAGE_SIZE;
    }
  }

  lemma ZeroedNext(s: Space, t: Space, u: Space, k: nat)
    requires Sound(s) && Zeroed(s, t, k) && k < s.pages
    requires u == if k in s.Free() then t.(mem := ZeroRange(t.mem, PAGE_SIZE * k, PAGE_SIZE)) else t
    ensures Zeroed(s, u, k + 1)
  {
    ClearedNext(s.mem, t.mem, u.mem, s.Free(), k);
    if k in s.Free() {
      FreeIsNoTable(t, k);
      ClearPage(t, u.mem, k);
    }
  }

  lemma SlotInside(m: Memory, f: nat, i: nat)
    requires PageInside(m, f) && i < 512
    ensures Slot(f, i) + 8 <= |m|
  {
  }

  /** All three are multiples of the page size. */
  ghost predicate AllAligned(what: nat, where: nat, size: nat) {
    exists a: nat, b: nat, c: nat :: Multiples(what, where, size, a, b, c)
  }

  predicate Multiples(what: nat, where: nat, size: nat, a: nat, b: nat, c: nat) {
    what == PAGE_SIZE * a && where == PAGE_SIZE * b && size == PAGE_SIZE * c
  }

  lemma AlignedWitness(what: nat, where: nat, size: nat)
    requires what % PAGE_SIZE == 0 && where % PAGE_SIZE == 0 && size % PAGE_SIZE == 0
    ensures AllAligned(what, where, size)
  {
    assert Multiples(what, where, size, what / PAGE_SIZE, where / PAGE_SIZE, size / PAGE_SIZE);
  }

  lemma AlignedFacts(what: nat, where: nat, size: nat)
    requires AllAligned(what, where, size)
    ensures what % PAGE_SIZE == 0 && where % PAGE_SIZE == 0 && size % PAGE_SIZE == 0
  {
  }

  lemma AllReached(what: nat, where: nat, size: nat, flags: nat, n: nat)
    requires what % PAGE_SIZE == 0 && where % PAGE_SIZE == 0 && size % PAGE_SIZE == 0 && n == size / PAGE_SIZE
    ensures size == PAGE_SIZE * n
    ensures Reached(where, flags, n) ==> MapOk(what, where, size, flags)
  {
  }

  lemma PageAtBytes(base: nat, i: nat, k: nat)
    requires i == PAGE_SIZE * k
    ensures U64(base + i) == PageAt(base, k)
  {
  }

  lemma MapRanDry(s: Space, t: Space, what: nat, where: nat, flags: nat, k: nat, n: nat)
    requires Sound(s) && Remaps(s, t, what, where, flags, k) && k < n
    ensures |Missing(t.tables, Path(Vpn(PageAt(where, k))))| > |t.Free()| ==>
            |Missing(s.tables, Touched(where, n))| > |s.Free()|
  {
    if |Missing(t.tables, Path(Vpn(PageAt(where, k))))| > |t.Free()| {
      TouchedGrows(where, k + 1, n);
      RanDry(s.Free(), s.tables, t.Free(), t.tables, Touched(where, k), Path(Vpn(PageAt(where, k))), Touched(where, n));
    }
  }

  /** The nodes below the root on the path of an address, reached by the indices of vmm_map_page. */
  lemma PathOf(where: nat, tabs: map<Node, nat>) returns (n2: Node, n1: Node, n0: Node)
    ensures n2.level == 2 && n1.level == 1 && n0 == Home(Vpn(where), 0)
    ensures Child(ROOT, where / 0x80_0000_0000 % 512) == n2
    ensures Child(n2, where / 0x4000_0000 % 512) == n1
    ensures Child(n1, where / 0x20_0000 % 512) == n0
    ensures {} + {n2} + {n1} + {n0} == Path(Vpn(where))
    ensures |Missing(tabs, {} + {n2})| <= |Missing(tabs, Path(Vpn(where)))|
    ensures |Missing(tabs, {} + {n2} + {n1})| <= |Missing(tabs, Path(Vpn(where)))|
  {
    var v := Vpn(where);
    IndexBits(where);
    RootPrefix(v);
    PathStep(v, 3);
    PathStep(v, 2);
    PathStep(v, 1);
    n2, n1, n0 := Home(v, 2), Home(v, 1), Home(v, 0);
    SubsetCount(Missing(tabs, {} + {n2}), Missing(tabs, Path(v)));
    SubsetCount(Missing(tabs, {} + {n2} + {n1}), Missing(tabs, Path(v)));
  }

  /** A run of one page exists exactly when some page is free. */
  lemma SingleRun(free: set<nat>, pages: nat)
    requires forall p :: p in free ==> p < pages
    ensures (exists i: nat :: i < pages && RunAt(free, i, 1)) <==> free != {}
  {
    if free != {} {
      var p :| p in free;
      assert RunAt(free, p, 1);
    }
    if i: nat :| i < pages && RunAt(free, i, 1) {
      assert i in free;
    }
  }

  /** In 64-bit arithmetic, the address of a page up to page 2^40 is exact. */
  lemma PageNumber(a: nat, p: nat)
    requires a == PAGE_SIZE * p
    ensures a % PAGE_SIZE == 0 && a / PAGE_SIZE == p
    ensures a < TWO64 ==> U64(a) == a
    ensures p <= 0x100_0000_0000 ==> a < TWO64
  {
  }

  /** An aligned range counted in pages. */
  lemma RangeInPages(base: nat, len: nat, p: nat, n: nat, pages: nat)
    requires base % PAGE_SIZE == 0 && len % PAGE_SIZE == 0 && p == base / PAGE_SIZE && n == len / PAGE_SIZE
    ensures base == PAGE_SIZE * p && len == PAGE_SIZE * n && (base + len) / PAGE_SIZE == p + n
    ensures base + len <= PAGE_SIZE * pages <==> p + n <= pages
  {
  }

  /** The address of page `k` of a run in 64-bit arithmetic, exact below page 2^40 and for the first page. */
  lemma PageOfRun(base: nat, i: nat, p: nat, k: nat)
    requires base < TWO64 && base == PAGE_SIZE * p && i == PAGE_SIZE * k && (k == 0 || p + k <= 0x100_0000_0000)
    ensures U64(base + i) % PAGE_SIZE == 0 && U64(base + i) / PAGE_SIZE == p + k
  {
    assert base + i == PAGE_SIZE * (p + k) && (k > 0 ==> PAGE_SIZE * (p + k) <= 0x10_0000_0000_0000);
  }

  /** The `k`-th page after `base`, which at k = 0 need not be aligned. */
  lemma PageAfter(base: nat, p: nat, k: nat)
    requires base < TWO64 && p == base / PAGE_SIZE && (k == 0 || base == PAGE_SIZE * p)
    ensures k == 0 ==> U64(base + k * PAGE_SIZE) == base
    ensures base % PAGE_SIZE == 0 && p + k <= 0x100_0000_0000 ==>
      U64(base + k * PAGE_SIZE) == PAGE_SIZE * (p + k) && U64(base + k * PAGE_SIZE) / PAGE_SIZE == p + k
    ensures base % PAGE_SIZE == 0 && p + k <= 0x100_0000_0000 ==> U64(base + k * PAGE_SIZE) % PAGE_SIZE == 0
  {
  }

  /** When the scan at `i` leaves the managed pages, no run fits there or later: the panic fires only when none fits at all. */
  lemma NoRunBeyond(free: set<nat>, pages: nat, i: nat, count: nat)
    requires forall p :: p in free ==> p < pages
    requires count > 0 && i + count > pages
    requires forall k: nat :: k < i ==> !RunAt(free, k, count)
    ensures forall k: nat :: !RunAt(free, k, count)
  {
    forall k: nat
      ensures !RunAt(free, k, count)
    {
      if k >= i { assert k + count - 1 !in free; }
    }
  }

  lemma RunGrows(free: set<nat>, i: nat, j: nat)
    ensures RunAt(free, i, j + 1) <==> RunAt(free, i, j) && i + j in free
  {
  }
}
