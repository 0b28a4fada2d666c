/**
  What the memory manager guarantees, said of addresses, flag bits and what the processor's walk finds, with none of
  the notions that the contracts are built from.
 */
module Guarantees {
  import opened Wrappers
  import opened Bits
  import opened PhysicalMemory
  import opened Bitmap
  import opened Paging
  import opened KernelSpace
  import opened Mapping
  import opened MapTheorems
  import opened BootInfo
  import opened BootTheorems
  import opened MemoryManager

  // ----- Pages

  /** Page `p` starts in usable entry `i`. */
  predicate UsablePage(entries: seq<MemmapEntry>, i: nat, p: nat)
    requires i < |entries|
  {
    entries[i].kind == Usable && entries[i].base <= PAGE_SIZE * p < entries[i].base + entries[i].length
  }

  /** Entry `i` is usable and longer than the bytes of one bit for each of `n` pages. */
  predicate Roomy(entries: seq<MemmapEntry>, i: nat, n: nat)
    requires i < |entries|
  {
    entries[i].kind == Usable && entries[i].length > (n + 7) / 8
  }

  /**
    pmm_init: the bitmap covers every entry and no page more, it goes to the first roomy entry, and then exactly those
    pages are free that start in a usable entry and not in the bitmap's bytes. Panics when there is no such entry or it starts at 0.
   */
  method InitPages(mm: MemoryManager, entries: seq<MemmapEntry>, hhdm: nat) returns (ok: bool, ghost home: nat)
    requires mm.ram.Valid() && WellFormed(entries, |mm.ram.contents|)
    modifies mm, mm.ram, mm.ram.bytes
    ensures mm.ram.Valid() && mm.hhdm == hhdm
    ensures forall i :: 0 <= i < |entries| ==> entries[i].base + entries[i].length <= PAGE_SIZE * mm.pages
    ensures mm.pages > 0 ==> exists i :: 0 <= i < |entries| && entries[i].base + entries[i].length > PAGE_SIZE * (mm.pages - 1)
    ensures ok <==>
      && home < |entries| && Roomy(entries, home, mm.pages) && entries[home].base != 0
      && forall j :: 0 <= j < home ==> !Roomy(entries, j, mm.pages)
    ensures !ok ==> forall i: nat :: i < |entries| && Roomy(entries, i, mm.pages) && entries[i].base != 0 ==>
      exists j :: 0 <= j < i && Roomy(entries, j, mm.pages)
    ensures ok ==> mm.bitmap == entries[home].base && mm.Now().Placed()
    ensures ok ==> forall p: nat :: p in mm.Now().Free() <==>
      && (exists i: nat :: i < |entries| && UsablePage(entries, i, p))
      && !(mm.bitmap <= PAGE_SIZE * p < mm.bitmap + (mm.pages + 7) / 8)
  {
    ok := mm.PmmInit(entries, hhdm);
    home := |entries|;
    PagesReach(entries, |mm.ram.contents|);
    if ok {
      home :| FirstFit(entries, BitmapBytes(mm.pages), home) && mm.bitmap == entries[home].base;
      FirstFitUnique(entries, BitmapBytes(mm.pages));
      FreeAfterInit(entries, mm.bitmap, mm.pages, mm.Now().Free());
    } else {
      NoHome(entries, mm.pages);
    }
    assert forall i: nat :: i < |entries| ==> (Roomy(entries, i, mm.pages) <==> Fits(entries[i], BitmapBytes(mm.pages)));
  }

  lemma NoHome(entries: seq<MemmapEntry>, n: nat)
    requires forall i: nat :: FirstFit(entries, BitmapBytes(n), i) ==> entries[i].base == 0
    ensures forall i: nat :: i < |entries| && Roomy(entries, i, n) && entries[i].base != 0 ==>
      exists j :: 0 <= j < i && Roomy(entries, j, n)
  {
    forall i: nat | i < |entries| && Roomy(entries, i, n) && entries[i].base != 0
      ensures exists j :: 0 <= j < i && Roomy(entries, j, n)
    {
      if forall j :: 0 <= j < i ==> !Fits(entries[j], BitmapBytes(n)) {
        assert FirstFit(entries, BitmapBytes(n), i);
      } else {
        var j :| 0 <= j < i && Fits(entries[j], BitmapBytes(n));
        assert Roomy(entries, j, n);
      }
    }
  }

  lemma PagesReach(entries: seq<MemmapEntry>, memory: nat)
    requires WellFormed(entries, memory)
    ensures var n := TotalPages(entries);
      && (forall i :: 0 <= i < |entries| ==> entries[i].base + entries[i].length <= PAGE_SIZE * n)
      && (n > 0 ==> exists i :: 0 <= i < |entries| && entries[i].base + entries[i].length > PAGE_SIZE * (n - 1))
  {
    HighestEndBounds(entries, |entries|, memory);
    LastPageNeeded(HighestEnd(entries, |entries|));
    if TotalPages(entries) > 0 { HighestEndReached(entries, |entries|); }
  }

  lemma LastPageNeeded(end: nat)
    ensures var n := (end + PAGE_SIZE - 1) / PAGE_SIZE; end <= PAGE_SIZE * n && (n > 0 ==> PAGE_SIZE * (n - 1) < end)
  {
  }

  lemma FreeAfterInit(entries: seq<MemmapEntry>, bm: nat, n: nat, free: set<nat>)
    requires forall i :: 0 <= i < |entries| && entries[i].kind == Usable ==> entries[i].Aligned()
    requires bm % PAGE_SIZE == 0 && free == Claimed(entries, Init, |entries|) - BitmapFrames(bm, n)
    ensures forall p: nat :: p in free <==>
      (exists i: nat :: i < |entries| && UsablePage(entries, i, p)) && !(bm <= PAGE_SIZE * p < bm + (n + 7) / 8)
  {
    forall p: nat
      ensures p in free <==>
        (exists i: nat :: i < |entries| && UsablePage(entries, i, p)) && !(bm <= PAGE_SIZE * p < bm + (n + 7) / 8)
    {
      ClaimedUsable(entries, p);
      FramesOfBytes(bm, n, p);
    }
  }

  lemma ClaimedUsable(entries: seq<MemmapEntry>, p: nat)
    requires forall i :: 0 <= i < |entries| && entries[i].kind == Usable ==> entries[i].Aligned()
    ensures p in Claimed(entries, Init, |entries|) <==> exists i: nat :: i < |entries| && UsablePage(entries, i, p)
  {
    ClaimedHas(entries, Init, |entries|, p);
    forall i: nat | i < |entries| && entries[i].kind == Usable
      ensures p in entries[i].Pages() <==> UsablePage(entries, i, p)
    {
      EntryStarts(entries[i], p);
    }
    if i: nat :| i < |entries| && UsablePage(entries, i, p) {
      assert Claims(Init, entries[i].kind);
    }
  }

  lemma EntryStarts(e: MemmapEntry, p: nat)
    requires e.Aligned()
    ensures p in e.Pages() <==> e.base <= PAGE_SIZE * p < e.base + e.length
  {
  }

  lemma FramesOfBytes(bm: nat, n: nat, p: nat)
    requires bm % PAGE_SIZE == 0
    ensures p in BitmapFrames(bm, n) <==> bm <= PAGE_SIZE * p < bm + (n + 7) / 8
  {
  }

  /**
    pmm_alloc_pages: returns the lowest page from which `count` pages are free, if there is one, and takes exactly
    these pages; panics otherwise. It writes nothing but the bitmap.
   */
  method AllocateLowest(mm: MemoryManager, count: nat) returns (r: Option<nat>, ghost i: nat)
    requires mm.Sited()
    modifies mm.ram, mm.ram.bytes
    ensures mm.Sited()
    ensures r.None? <==> forall lo: nat, hi: nat :: lo < mm.pages && hi == lo + count ==> !(Range(lo, hi) <= old(mm.Now().Free()))
    ensures r.Some? ==>
      && r.value == PAGE_SIZE * i && i < mm.pages && Range(i, i + count) <= old(mm.Now().Free())
      && (forall lo: nat, hi: nat :: lo < i && hi == lo + count ==> !(Range(lo, hi) <= old(mm.Now().Free())))
      && mm.Now().Free() == old(mm.Now().Free()) - Range(i, i + count)
    ensures BitmapOnly(old(mm.ram.contents), mm.ram.contents, mm.bitmap, mm.pages)
  {
    ghost var free, m0 := mm.Now().Free(), mm.ram.contents;
    r := mm.PmmAllocPages(count);
    RunsAreRanges(free, count);
    i := 0;
    if r.Some? {
      i := r.value / PAGE_SIZE;
      FreeRunInside(free, mm.pages, i, count);
      MarkedFree(m0, mm.ram.contents, mm.bitmap, mm.pages, i, i + count, false);
    }
    OnlyBitmapBytes(m0, mm.ram.contents, mm.bitmap, mm.pages);
  }

  lemma RunsAreRanges(free: set<nat>, count: nat)
    ensures forall lo: nat, hi: nat :: hi == lo + count ==> (Range(lo, hi) <= free <==> RunAt(free, lo, count))
  {
  }

  lemma FreeRunInside(free: set<nat>, n: nat, i: nat, count: nat)
    requires i < n && RunAt(free, i, count) && forall p :: p in free ==> p < n
    ensures count == 0 || i + count <= n
  {
    if count > 0 { assert i + count - 1 in free; }
  }

  // ----- Mappings

  /** Flags built from the enumeration's constants, as callers build them. */
  function Flags(w: bool, x: bool, u: bool, cache: nat): nat {
    (if w then M_W else 0) + (if x then M_X else 0) + (if u then M_U else 0) + cache
  }

  lemma FlagsBits(w: bool, x: bool, u: bool, cache: nat)
    requires cache in {0, 0x8, 0x10, 0x18}
    ensures var flags := Flags(w, x, u, cache);
      && (flags % 2 == 1 <==> w) && (flags / 2 % 2 == 1 <==> x) && (flags / 4 % 2 == 1 <==> u)
      && 8 * (flags / 8 % 4) == cache
  {
  }

  /** PAT, PCD and PWT for write-back, uncached and write-combining memory. */
  function CacheBits(cache: nat): nat {
    if cache == 0x8 then 2 else if cache == 0x10 then 5 else 0
  }

  /** What the flags of a mapping to `what` come to. */
  lemma TargetWith(what: nat, flags: nat, w: bool, x: bool, cache: nat)
    requires what < 0x10_0000_0000_0000
    requires (flags % 2 == 1 <==> w) && (flags / 2 % 2 == 1 <==> x) && 8 * (flags / 8 % 4) == cache
    ensures Target(what, flags) == Mapped(what / 0x1000, Rights(w, x, false), CacheBits(cache))
  {
    FrameFits(what);
  }

  /**
    vmm_map_page: one page gets exactly the write and execute rights asked for, and its entry the user bit; every other page
    keeps its translation. Panics exactly on misalignment, a null address, write with execute, an unknown cache mode, or
    when more tables are missing than pages are free.
   */
  method MapPage(mm: MemoryManager, what: nat, where: nat, w: bool, x: bool, u: bool, cache: nat) returns (ok: bool)
    requires mm.Running() && what < 0x10_0000_0000_0000 && where < TWO64 && cache in {0, 0x8, 0x10, 0x18}
    modifies mm.ram, mm.ram.bytes, mm`tables
    ensures mm.ram.Valid()
    ensures ok <==>
      && what % 0x1000 == 0 && where % 0x1000 == 0 && where != 0 && !(w && x) && cache != 0x18
      && |Missing(old(mm.tables), Path(where / 0x1000 % VPNS))| <= |old(mm.Now().Free())|
    ensures ok ==> mm.Running() && forall v: nat :: v < VPNS ==>
      (mm.Now().Walk(v) ==
         if v == where / 0x1000 % VPNS then Mapped(what / 0x1000, Rights(w, x, false), CacheBits(cache)) else old(mm.Now().Walk(v)))
    ensures ok ==> LeafUser(mm.Now(), where / 0x1000 % VPNS, u)
  {
    var flags := Flags(w, x, u, cache);
    FlagsBits(w, x, u, cache);
    TargetWith(what, flags, w, x, cache);
    ghost var s := mm.Now();
    ok := mm.VmmMapPage(what, where, flags);
    if ok { PageMapped(s, mm.Now(), what, where, flags, Target(what, flags), Vpn(where)); }
  }

  lemma PageMapped(s: Space, t: Space, what: nat, where: nat, flags: nat, target: Translation, page: nat)
    requires Sound(s) && Remaps(s, t, what, where, flags, 1) && what < TWO64 && where < TWO64
    requires target == Target(what, flags) && page == Vpn(where)
    ensures forall v: nat :: v < VPNS ==> (t.Walk(v) == if v == page then target else s.Walk(v))
  {
    PagePlaced(what, where, flags, target, page);
    RegionMapped(s, t, what, where, 1, flags, page, target);
  }

  lemma PagePlaced(what: nat, where: nat, flags: nat, target: Translation, page: nat)
    requires what < TWO64 && where < TWO64 && target == Target(what, flags) && page == Vpn(where)
    ensures Numbered(where, 1, page) && target.Mapped? && Targets(what, 1, flags, target)
  {
    FirstPage(what);
    FirstPage(where);
  }

  /** A range whose pages all have their numbers and their targets. */
  lemma RegionMapped(s: Space, t: Space, what: nat, where: nat, n: nat, flags: nat, first: nat, start: Translation)
    requires Sound(s) && Remaps(s, t, what, where, flags, n) && Numbered(where, n, first)
    requires start.Mapped? && Targets(what, n, flags, start)
    ensures forall v: nat :: v < VPNS ==>
      (t.Walk(v) == if first <= v < first + n then start.(frame := start.frame + (v - first)) else s.Walk(v))
  {
    WalksAreLookups(s);
    WalksAreLookups(t);
    forall v: nat | v < VPNS
      ensures t.Walk(v) == if first <= v < first + n then start.(frame := start.frame + (v - first)) else s.Walk(v)
    {
      OverlayRegion(s.Walk(v), v, what, where, flags, n, first, start);
    }
  }

  lemma OverlayRegion(before: Translation, v: nat, what: nat, where: nat, flags: nat, n: nat, first: nat, start: Translation)
    requires Numbered(where, n, first) && start.Mapped? && Targets(what, n, flags, start)
    ensures Overlay(before, v, what, where, flags, n) ==
            if first <= v < first + n then start.(frame := start.frame + (v - first)) else before
  {
    OverlayNumbered(before, v, what, where, flags, n, first);
    if first <= v < first + n { assert TargetAt(what, v - first, flags, start); }
  }

  /** Page `j` of the region gets frame `j` after that of `start`, with its rights and cache bits. */
  predicate TargetAt(what: nat, j: nat, flags: nat, start: Translation)
    requires start.Mapped?
  {
    Target(PageAt(what, j), flags) == start.(frame := start.frame + j)
  }

  ghost predicate Targets(what: nat, n: nat, flags: nat, start: Translation)
    requires start.Mapped?
  {
    forall j: nat {:trigger TargetAt(what, j, flags, start)} :: j < n ==> TargetAt(what, j, flags, start)
  }

  /** In `t` the walk sends page first+j to frame+j for each j below n, and every other page where it does in `s`. */
  ghost predicate OnlyRegion(s: Space, t: Space, first: nat, n: nat, frame: nat, rights: Rights, pat: nat) {
    forall v: nat :: v < VPNS ==>
      (t.Walk(v) == if first <= v < first + n then Mapped(frame + (v - first), rights, pat) else s.Walk(v))
  }

  /**
    vmm_map on a range inside one half of the address space: page `j` of the range gets page `j` of the region, with exactly
    the rights and the cache mode asked for, and every other page keeps its translation.
   */
  method MapRegion(mm: MemoryManager, what: nat, where: nat, size: nat, w: bool, x: bool, u: bool, cache: nat, ghost first: nat)
    returns (ok: bool)
    requires mm.Running() && what + size <= 0x10_0000_0000_0000 && cache in {0, 0x8, 0x10, 0x18} && where < TWO64
    requires where + size <= 0x8000_0000_0000 || 0xFFFF_8000_0000_0000 <= where < where + size <= TWO64
    requires first == where / 0x1000 % VPNS
    modifies mm.ram, mm.ram.bytes, mm`tables
    ensures mm.ram.Valid()
    ensures ok <==>
      && what % 0x1000 == 0 && where % 0x1000 == 0 && size % 0x1000 == 0
      && (size == 0 || (where != 0 && !(w && x) && cache != 0x18))
      && |Missing(old(mm.tables), Touched(where, size / 0x1000))| <= |old(mm.Now().Free())|
    ensures ok ==> mm.Running()
    ensures ok ==>
      OnlyRegion(old(mm.Now()), mm.Now(), first, size / 0x1000, what / 0x1000, Rights(w, x, false), CacheBits(cache))
  {
    var flags := Flags(w, x, u, cache);
    FlagsBits(w, x, u, cache);
    ghost var s := mm.Now();
    RequestAccepted(what, where, size, flags, w, x, cache);
    ok := mm.VmmMap(what, where, size, flags);
    if ok { RegionServed(s, mm.Now(), what, where, size, flags, w, x, cache, first, size / 0x1000, what / 0x1000); }
  }

  lemma RegionServed(s: Space, t: Space, what: nat, where: nat, size: nat, flags: nat, w: bool, x: bool, cache: nat, first: nat, n: nat, frame: nat)
    requires n == size / 0x1000 && frame == what / 0x1000 && first == Vpn(where)
    requires Sound(s) && Remaps(s, t, what, where, flags, n)
    requires what % 0x1000 == 0 && where % 0x1000 == 0 && size % 0x1000 == 0 && what + size <= 0x10_0000_0000_0000
    requires where + size <= 0x8000_0000_0000 || 0xFFFF_8000_0000_0000 <= where < where + size <= TWO64
    requires (flags % 2 == 1 <==> w) && (flags / 2 % 2 == 1 <==> x) && 8 * (flags / 8 % 4) == cache
    ensures OnlyRegion(s, t, first, n, frame, Rights(w, x, false), CacheBits(cache))
  {
    RegionPlaced(what, where, size, flags, w, x, cache, first);
    RegionResult(s, t, what, where, n, flags, first, frame, w, x, CacheBits(cache));
  }

  lemma RegionResult(s: Space, t: Space, what: nat, where: nat, n: nat, flags: nat, first: nat, frame: nat, w: bool, x: bool, pat: nat)
    requires Sound(s) && Remaps(s, t, what, where, flags, n) && Numbered(where, n, first)
    requires Targets(what, n, flags, Mapped(frame, Rights(w, x, false), pat))
    ensures OnlyRegion(s, t, first, n, frame, Rights(w, x, false), pat)
  {
    var start := Mapped(frame, Rights(w, x, false), pat);
    RegionMapped(s, t, what, where, n, flags, first, start);
    RegionNamed(s, t, n, first, start, frame, w, x, pat);
  }

  lemma RegionNamed(s: Space, t: Space, n: nat, first: nat, start: Translation, frame: nat, w: bool, x: bool, pat: nat)
    requires start == Mapped(frame, Rights(w, x, false), pat)
    requires forall v: nat :: v < VPNS ==>
      (t.Walk(v) == if first <= v < first + n then start.(frame := start.frame + (v - first)) else s.Walk(v))
    ensures OnlyRegion(s, t, first, n, frame, Rights(w, x, false), pat)
  {
  }

  lemma RequestAccepted(what: nat, where: nat, size: nat, flags: nat, w: bool, x: bool, cache: nat)
    requires where + size <= TWO64
    requires (flags % 2 == 1 <==> w) && (flags / 2 % 2 == 1 <==> x) && 8 * (flags / 8 % 4) == cache
    ensures MapOk(what, where, size, flags) <==>
      && what % 0x1000 == 0 && where % 0x1000 == 0 && size % 0x1000 == 0
      && (size == 0 || (where != 0 && !(w && x) && cache != 0x18))
  {
  }

  lemma RegionPlaced(what: nat, where: nat, size: nat, flags: nat, w: bool, x: bool, cache: nat, first: nat)
    requires what % 0x1000 == 0 && where % 0x1000 == 0 && size % 0x1000 == 0 && what + size <= 0x10_0000_0000_0000
    requires where + size <= 0x8000_0000_0000 || 0xFFFF_8000_0000_0000 <= where < where + size <= TWO64
    requires (flags % 2 == 1 <==> w) && (flags / 2 % 2 == 1 <==> x) && 8 * (flags / 8 % 4) == cache
    requires first == Vpn(where)
    ensures Numbered(where, size / 0x1000, first)
    ensures Targets(what, size / 0x1000, flags, Mapped(what / 0x1000, Rights(w, x, false), CacheBits(cache)))
  {
    var n := size / 0x1000;
    if n > 0 {
      CanonicalRangeIsStraight(where, n);
      StraightNumbers(where, n, first);
    }
    forall j: nat | j < n
      ensures TargetAt(what, j, flags, Mapped(what / 0x1000, Rights(w, x, false), CacheBits(cache)))
    {
      PageInRegion(what, n, j);
      TargetWith(what + 0x1000 * j, flags, w, x, cache);
    }
  }

  lemma PageInRegion(what: nat, n: nat, j: nat)
    requires what % 0x1000 == 0 && j < n && what + 0x1000 * n <= 0x10_0000_0000_0000
    ensures PageAt(what, j) == what + 0x1000 * j && (what + 0x1000 * j) / 0x1000 == what / 0x1000 + j
  {
  }

  // ----- Boot

  /** How an entry of each kind is mapped at the CR3 load: all but the reserved ranges writable, the frame buffer write-combining. */
  lemma HhdmKinds(b: Boot, s: Space, t: Space, i: nat, p: nat, v: nat)
    requires b.Ok() && Booted(b, s, t) && i < |b.entries| && v == b.hhdm / 0x1000 % VPNS + p
    requires b.entries[i].kind in {Usable, AcpiReclaimable, BootloaderReclaimable, Framebuffer, ReservedMapped}
    requires b.entries[i].base <= PAGE_SIZE * p < b.entries[i].base + b.entries[i].length
    ensures t.Walk(v) ==
      Mapped(p, Rights(b.entries[i].kind != ReservedMapped, false, false), if b.entries[i].kind == Framebuffer then 5 else 0)
  {
    EntryMapsTo(b, i, p, v);
    BootWalk(b, s, t, v);
  }

  lemma EntryMapsTo(b: Boot, i: nat, p: nat, v: nat)
    requires b.Ok() && i < |b.entries| && v == Vpn(b.hhdm) + p
    requires b.entries[i].kind in {Usable, AcpiReclaimable, BootloaderReclaimable, Framebuffer, ReservedMapped}
    requires b.entries[i].base <= PAGE_SIZE * p < b.entries[i].base + b.entries[i].length
    ensures v < VPNS
    ensures b.Map(v) ==
      Mapped(p, Rights(b.entries[i].kind != ReservedMapped, false, false), if b.entries[i].kind == Framebuffer then 5 else 0)
  {
    EntryStarts(b.entries[i], p);
    EntryFrames(b.entries[i], b.frames, p);
    KindTarget(b.entries[i].kind, p, b.frames);
    HhdmPage(b.hhdm, Vpn(b.hhdm), b.frames, p);
    EntryMapped(b, Vpn(b.hhdm), Vpn(b.virtBase), i, p);
  }

  lemma EntryFrames(e: MemmapEntry, frames: nat, p: nat)
    requires e.base <= PAGE_SIZE * p < e.base + e.length && e.base + e.length <= PAGE_SIZE * frames
    ensures p < frames
  {
  }

  lemma KindTarget(kind: MemmapKind, p: nat, frames: nat)
    requires kind in {Usable, AcpiReclaimable, BootloaderReclaimable, Framebuffer, ReservedMapped}
    requires p < frames && PAGE_SIZE * frames <= 0x10_0000_0000_0000
    ensures HhdmFlags(kind).Some?
    ensures Target(PAGE_SIZE * p, HhdmFlags(kind).value) ==
      Mapped(p, Rights(kind != ReservedMapped, false, false), if kind == Framebuffer then 5 else 0)
  {
    KindFlags(kind);
    TargetWith(PAGE_SIZE * p, HhdmFlags(kind).value, kind != ReservedMapped, false, if kind == Framebuffer then 0x10 else 0);
  }

  lemma KindFlags(kind: MemmapKind)
    requires kind in {Usable, AcpiReclaimable, BootloaderReclaimable, Framebuffer, ReservedMapped}
    ensures HhdmFlags(kind).Some?
    ensures var flags := HhdmFlags(kind).value;
      && (flags % 2 == 1 <==> kind != ReservedMapped) && flags / 2 % 2 == 0
      && 8 * (flags / 8 % 4) == if kind == Framebuffer then 0x10 else 0
  {
  }

  /** Header `i` is mapped and touches page `q` of the image. */
  predicate Touches(phdrs: seq<Phdr>, i: nat, q: nat)
    requires i < |phdrs|
  {
    && phdrs[i].kind != OtherSegment
    && phdrs[i].vaddr / 0x1000 <= q < (phdrs[i].vaddr + phdrs[i].memsz + 0xFFF) / 0x1000
  }

  /** Page `p` starts in entry `i`, which is of a kind that is mapped. */
  predicate Covered(entries: seq<MemmapEntry>, i: nat, p: nat)
    requires i < |entries|
  {
    && entries[i].kind in {Usable, AcpiReclaimable, BootloaderReclaimable, Framebuffer, ReservedMapped}
    && entries[i].base <= PAGE_SIZE * p < entries[i].base + entries[i].length
  }

  /** Nothing else is mapped at the CR3 load: no page `v` that is neither page `p` of a mapped entry nor page `q` of a segment. */
  lemma NothingElse(b: Boot, s: Space, t: Space, v: nat, p: int, q: int)
    requires b.Ok() && Booted(b, s, t) && v < VPNS
    requires p == v - b.hhdm / 0x1000 % VPNS && (p >= 0 ==> forall i: nat :: i < |b.entries| ==> !Covered(b.entries, i, p))
    requires q == v - b.virtBase / 0x1000 % VPNS && (q >= 0 ==> forall i: nat :: i < |b.phdrs| ==> !Touches(b.phdrs, i, q))
    ensures t.Walk(v) == NotMapped
  {
    NothingMaps(b, v, p, q);
    BootWalk(b, s, t, v);
  }

  lemma NothingMaps(b: Boot, v: nat, p: int, q: int)
    requires b.Ok()
    requires p == v - Vpn(b.hhdm) && (p >= 0 ==> forall i: nat :: i < |b.entries| ==> !Covered(b.entries, i, p))
    requires q == v - Vpn(b.virtBase) && (q >= 0 ==> forall i: nat :: i < |b.phdrs| ==> !Touches(b.phdrs, i, q))
    ensures b.Map(v) == NotMapped
  {
    if p >= 0 { NoEntry(b.entries, b.hhdm, b.frames, |b.entries|, p); }
    if q >= 0 { NoHeader(b.phdrs, q); }
  }

  lemma {:induction false} NoEntry(entries: seq<MemmapEntry>, hhdm: nat, frames: nat, k: nat, p: nat)
    requires k <= |entries| && forall i: nat :: i < |entries| ==> !Covered(entries, i, p)
    requires forall i :: 0 <= i < |entries| && HhdmFlags(entries[i].kind).Some? ==> entries[i].Aligned()
    ensures HhdmLast(entries, k, p) == None
  {
    if k > 0 {
      NoEntry(entries, hhdm, frames, k - 1, p);
      assert !Covered(entries, k - 1, p);
      if HhdmFlags(entries[k - 1].kind).Some? { EntryStarts(entries[k - 1], p); }
    }
  }

  lemma NoHeader(phdrs: seq<Phdr>, q: nat)
    requires forall i: nat :: i < |phdrs| ==> !Touches(phdrs, i, q)
    ensures ImageFlags(phdrs, q) == None
  {
    forall j | 0 <= j < |phdrs| && phdrs[j].kind != OtherSegment
      ensures q !in SegmentPages(phdrs[j])
    {
      assert !Touches(phdrs, j, q);
    }
    NoneOfKind(phdrs, GnuRelro, |phdrs|, q);
    NoneOfKind(phdrs, Load, |phdrs|, q);
  }

  /** Page `q` of the kernel image: of the headers that touch it, the last PT_GNU_RELRO, or else the last PT_LOAD, gives its rights. */
  lemma ImageRights(b: Boot, s: Space, t: Space, i: nat, q: nat, v: nat)
    requires b.Ok() && Booted(b, s, t) && i < |b.phdrs| && Touches(b.phdrs, i, q) && v == b.virtBase / 0x1000 % VPNS + q
    requires forall j: nat :: i < j < |b.phdrs| && Touches(b.phdrs, j, q) ==> b.phdrs[j].kind != b.phdrs[i].kind
    requires b.phdrs[i].kind == Load ==> forall j: nat :: j < |b.phdrs| && Touches(b.phdrs, j, q) ==> b.phdrs[j].kind != GnuRelro
    ensures t.Walk(v) ==
      Mapped(b.physBase / 0x1000 + q, Rights(b.phdrs[i].flags / 2 % 2 == 1, b.phdrs[i].flags % 2 == 1, false), 0)
  {
    HeaderMaps(b, i, q, v);
    BootWalk(b, s, t, v);
  }

  lemma HeaderMaps(b: Boot, i: nat, q: nat, v: nat)
    requires b.Ok() && i < |b.phdrs| && Touches(b.phdrs, i, q) && v == Vpn(b.virtBase) + q
    requires forall j: nat :: i < j < |b.phdrs| && Touches(b.phdrs, j, q) ==> b.phdrs[j].kind != b.phdrs[i].kind
    requires b.phdrs[i].kind == Load ==> forall j: nat :: j < |b.phdrs| && Touches(b.phdrs, j, q) ==> b.phdrs[j].kind != GnuRelro
    ensures v < VPNS
    ensures b.Map(v) == Mapped(b.physBase / 0x1000 + q, Rights(b.phdrs[i].flags / 2 % 2 == 1, b.phdrs[i].flags % 2 == 1, false), 0)
  {
    HeaderDecides(b.phdrs, i, q);
    ImageMapsTo(b, i, q);
  }

  lemma HeaderDecides(phdrs: seq<Phdr>, i: nat, q: nat)
    requires i < |phdrs| && Touches(phdrs, i, q)
    requires forall j: nat :: i < j < |phdrs| && Touches(phdrs, j, q) ==> phdrs[j].kind != phdrs[i].kind
    requires phdrs[i].kind == Load ==> forall j: nat :: j < |phdrs| && Touches(phdrs, j, q) ==> phdrs[j].kind != GnuRelro
    ensures Decides(phdrs, i, q)
  {
    forall j: nat | j < |phdrs| && phdrs[j].kind != OtherSegment
      ensures q in SegmentPages(phdrs[j]) <==> Touches(phdrs, j, q)
    {
    }
  }
}
