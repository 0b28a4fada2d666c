/** From the boot loader's tables to a running memory manager, and every run from there (`src/main.c`). */
module BringUp {
  import opened Bits
  import opened PhysicalMemory
  import opened Bitmap
  import opened Paging
  import opened KernelSpace
  import opened Mapping
  import opened MapTheorems
  import opened BootInfo
  import opened BootTheorems
  import opened MemoryManager
  import opened Runs

  /** The entry that pmm_init chooses for the bitmap. */
  ghost predicate BitmapHome(b: Boot, i: nat) {
    FirstFit(b.entries, BitmapBytes(TotalPages(b.entries)), i) && b.entries[i].base != 0
  }

  /** The free pages that pmm_init leaves when the bitmap goes to entry `i`. */
  function FreeAtBoot(b: Boot, i: nat): set<nat>
    requires i < |b.entries|
  {
    Claimed(b.entries, Init, |b.entries|) - BitmapFrames(b.entries[i].base, TotalPages(b.entries))
  }

  /** Neither function panics: the bitmap has a home, every request is acceptable, and the tables leave a page for the PML4. */
  ghost predicate CanStart(b: Boot) {
    exists i: nat :: BitmapHome(b, i) && |TouchedAll(b.Requests())| < |FreeAtBoot(b, i)| && forall r :: r in b.Requests() ==> r.Ok()
  }

  /** pmm_init and vmm_init as the kernel's entry calls them. */
  method StartMemory(mm: MemoryManager, b: Boot) returns (ok: bool)
    requires mm.ram.Valid() && WellFormed(b.entries, |mm.ram.contents|)
    requires forall i :: 0 <= i < |b.phdrs| ==> b.phdrs[i].memsz < TWO64
    modifies mm, mm.ram, mm.ram.bytes
    ensures mm.ram.Valid() && mm.hhdm == b.hhdm
    ensures ok <==> CanStart(b)
    ensures ok ==> exists s :: Booted(b, s, mm.Now())
  {
    FirstFitUnique(b.entries, BitmapBytes(TotalPages(b.entries)));
    ok := mm.PmmInit(b.entries, b.hhdm);
    if !ok { return; }
    ghost var home: nat :| FirstFit(b.entries, BitmapBytes(mm.pages), home) && b.entries[home].base != 0;
    assert BitmapHome(b, home);
    ghost var s := mm.Now();
    BitmapInEntry(b.entries, s.bitmap, s.pages);
    ok := mm.VmmInit(b.entries, b.phdrs, b.physBase, b.virtBase);
    StartedExactly(b, home, s.Free(), ok);
    if ok { assert Booted(b, s, mm.Now()); }
  }

  lemma StartedExactly(b: Boot, home: nat, free: set<nat>, ok: bool)
    requires BitmapHome(b, home) && free == FreeAtBoot(b, home)
    requires ok <==> |TouchedAll(b.Requests())| < |free| && forall r :: r in b.Requests() ==> r.Ok()
    ensures ok <==> CanStart(b)
  {
    FirstFitUnique(b.entries, BitmapBytes(TotalPages(b.entries)));
    forall i: nat | BitmapHome(b, i)
      ensures i == home
    {
    }
  }

  lemma BitmapInEntry(entries: seq<MemmapEntry>, bm: nat, n: nat)
    requires exists i: nat :: FirstFit(entries, BitmapBytes(n), i) && bm == entries[i].base
                         && BitmapFrames(bm, n) <= entries[i].Pages()
    ensures exists i: nat :: i < |entries| && entries[i].kind == Usable && BitmapFrames(bm, n) <= entries[i].Pages()
  {
  }

  // ----- The first ledger

  /** Both windows start above page 0, as the upper half does. */
  predicate AbovePageZero(b: Boot) {
    Vpn(b.hhdm) > 0 && Vpn(b.virtBase) > 0
  }

  function FirstLedger(b: Boot, t: Space): Ledger {
    Ledger(t, {}, Claimed(b.entries, Init, |b.entries|))
  }

  lemma {:induction false} AllHardened(v: nat, reqs: seq<Request>)
    requires forall r :: r in reqs ==> r.Ok()
    ensures Hardened(OverlayAll(NotMapped, v, reqs))
  {
    if reqs != [] {
      var last := reqs[|reqs| - 1];
      assert last.Ok();
      AllHardened(v, reqs[..|reqs| - 1]);
      OverlayHardened(OverlayAll(NotMapped, v, reqs[..|reqs| - 1]), v, last.what, last.where, last.flags, last.Pages());
    }
  }

  lemma BootGuarded(b: Boot, empty: Space, t: Space)
    requires b.Ok() && AbovePageZero(b) && Serves(empty, t, b.Requests()) && TablesInside(empty) && TablesInside(t)
    requires forall v: nat :: Lookup(empty.mem, empty.tables, v) == NotMapped
    ensures Guarded(t)
  {
    ServesMeans(empty, t, b.Requests());
    forall v: nat
      ensures Hardened(Lookup(t.mem, t.tables, v))
    {
      AllHardened(v, b.Requests());
      assert Lookup(empty.mem, empty.tables, v) == NotMapped;
    }
    BootOverlay(b.entries, b.hhdm, Vpn(b.hhdm), b.frames, b.phdrs, b.physBase, b.virtBase, Vpn(b.virtBase), b.imagePages, 0);
  }

  lemma BootAccounted(b: Boot, s: Space, empty: Space, t: Space)
    requires Booted(b, s, t) && StartsEmpty(s, empty) && Serves(empty, t, b.Requests())
    ensures Sound(t) && Accounted(t, {}, Claimed(b.entries, Init, |b.entries|))
  {
    ServesMeans(empty, t, b.Requests());
    ClaimedHolds(b.entries, s.bitmap, s.pages);
    EmptyAccounted(s, empty, Claimed(b.entries, Init, |b.entries|));
    GrownAccounts(empty, t, {}, Claimed(b.entries, Init, |b.entries|));
  }

  lemma EmptyAccounted(s: Space, empty: Space, claimed: set<nat>)
    requires s.Placed() && StartsEmpty(s, empty)
    requires s.Free() == claimed - BitmapFrames(s.bitmap, s.pages) && BitmapFrames(s.bitmap, s.pages) <= claimed
    ensures Accounted(empty, {}, claimed)
  {
  }

  lemma ClaimedHolds(entries: seq<MemmapEntry>, bm: nat, n: nat)
    requires exists i: nat :: i < |entries| && entries[i].kind == Usable && BitmapFrames(bm, n) <= entries[i].Pages()
    ensures BitmapFrames(bm, n) <= Claimed(entries, Init, |entries|)
  {
    forall p | p in BitmapFrames(bm, n)
      ensures p in Claimed(entries, Init, |entries|)
    {
      ClaimedHas(entries, Init, |entries|, p);
    }
  }

  /** At the CR3 load the invariant holds, with every usable page accounted for and none held. */
  lemma BootLedger(b: Boot, s: Space, t: Space)
    requires b.Ok() && AbovePageZero(b) && Booted(b, s, t)
    ensures Inv(FirstLedger(b, t))
  {
    var empty :| StartsEmpty(s, empty) && Serves(empty, t, b.Requests());
    BootAccounted(b, s, empty, t);
    BootGuarded(b, empty, t);
  }

  // ----- Every run after boot

  /** Every page that the manager may ever know. */
  function RamPages(b: Boot): set<nat> {
    Claimed(b.entries, Init, |b.entries|) + Claimed(b.entries, Reclaim, |b.entries|)
  }

  /** Reclaiming takes in reclaimable entries only, and no mapping request covers the HHDM address of such memory. */
  ghost predicate Proper(b: Boot, events: seq<Event>) {
    && (forall e :: e in events && e.TakeIn? ==> e.claimed <= Claimed(b.entries, Reclaim, |b.entries|))
    && (forall e, p :: e in events && e.Map? && p in RamPages(b) ==> Misses(e.request, b.HhdmVpn(p)))
  }

  lemma {:induction false} ManagedFrom(b: Boot, ledgers: seq<Ledger>, events: seq<Event>)
    requires Trace(ledgers, events) && Proper(b, events)
    ensures ledgers[|events|].managed <= ledgers[0].managed + Claimed(b.entries, Reclaim, |b.entries|)
    decreases |events|
  {
    if events != [] {
      var n := |events| - 1;
      TraceHead(ledgers, events, n);
      ManagedFrom(b, ledgers[..n + 1], events[..n]);
      assert TraceAt(ledgers, events, n);
      assert events[n] in events;
    }
  }

  lemma RamEntry(b: Boot, f: nat) returns (i: nat)
    requires f in RamPages(b)
    ensures i < |b.entries| && IsRam(b.entries[i].kind) && f in b.entries[i].Pages()
  {
    ClaimedHas(b.entries, Init, |b.entries|, f);
    ClaimedHas(b.entries, Reclaim, |b.entries|, f);
    if f in Claimed(b.entries, Init, |b.entries|) {
      i :| 0 <= i < |b.entries| && Claims(Init, b.entries[i].kind) && f in b.entries[i].Pages();
    } else {
      i :| 0 <= i < |b.entries| && Claims(Reclaim, b.entries[i].kind) && f in b.entries[i].Pages();
    }
  }

  /**
    In every state after boot, every page the manager knows - free, handed out, table or bitmap - is mapped
    writable at its HHDM address. So the kernel always reaches its own tables, and kalloc's pointers work.
   */
  lemma AlwaysReachable(b: Boot, s: Space, t: Space, ledgers: seq<Ledger>, events: seq<Event>, f: nat)
    requires b.Ok() && Booted(b, s, t)
    requires Trace(ledgers, events) && Proper(b, events) && ledgers[0] == FirstLedger(b, t)
    requires f in ledgers[|events|].managed
    ensures ledgers[|events|].space.Walk(b.HhdmVpn(f)) == Mapped(f, Rights(true, false, false), 0)
  {
    ManagedFrom(b, ledgers, events);
    var i := RamEntry(b, f);
    RamMapsTo(b, i, f);
    HhdmIdentity(b, s, t, i, f);
    UntouchedWalk(ledgers, events, b.HhdmVpn(f));
  }

  /** A page that no request of a run covers keeps its translation. */
  lemma UntouchedWalk(ledgers: seq<Ledger>, events: seq<Event>, v: nat)
    requires Trace(ledgers, events) && v < VPNS && forall e :: e in events && e.Map? ==> Misses(e.request, v)
    ensures ledgers[|events|].space.Walk(v) == ledgers[0].space.Walk(v)
  {
    TraceKeeps(ledgers, events);
    WalksAreLookups(ledgers[0].space);
    WalksAreLookups(ledgers[|events|].space);
    AllMiss(ledgers[0].space.Walk(v), v, events);
  }

  // ----- Reclaiming after boot

  /** A run without reclaiming gives the manager no page and takes none from it. */
  lemma {:induction false} ManagedStays(ledgers: seq<Ledger>, events: seq<Event>)
    requires Trace(ledgers, events) && forall e :: e in events ==> !e.TakeIn?
    ensures ledgers[|events|].managed == ledgers[0].managed
    decreases |events|
  {
    if events != [] {
      var n := |events| - 1;
      TraceHead(ledgers, events, n);
      ManagedStays(ledgers[..n + 1], events[..n]);
      assert TraceAt(ledgers, events, n);
      assert events[n] in events;
    }
  }

  /** After any run from boot the reclaimable memory is still unknown to the manager, so pmm_reclaim may take it in. */
  lemma ReclaimAllowed(b: Boot, t: Space, ledgers: seq<Ledger>, events: seq<Event>)
    requires b.Ok() && Trace(ledgers, events) && ledgers[0] == FirstLedger(b, t) && forall e :: e in events ==> !e.TakeIn?
    ensures Claimed(b.entries, Reclaim, |b.entries|) !! ledgers[|events|].managed
  {
    ManagedStays(ledgers, events);
    ReclaimApart(b.entries);
  }

  /**
    Whatever happened since boot, reclaiming frees no page that a caller holds, no table and no part of the
    bitmap, and it changes no translation.
   */
  lemma ReclaimFreesNothingInUse(b: Boot, t: Space, ledgers: seq<Ledger>, events: seq<Event>, stack: set<nat>, k': Ledger)
    requires b.Ok() && Trace(ledgers, events) && ledgers[0] == FirstLedger(b, t) && forall e :: e in events ==> !e.TakeIn?
    requires Sound(ledgers[|events|].space) && Operation(ledgers[|events|], TakeIn(Claimed(b.entries, Reclaim, |b.entries|), stack), k')
    ensures Inv(k') && Translates(ledgers[|events|].space, k'.space, [])
    ensures forall p :: InUse(ledgers[|events|], p) ==> p !in k'.space.Free()
  {
    var k := ledgers[|events|];
    TraceKeeps(ledgers, events);
    OperationKeeps(k, TakeIn(Claimed(b.entries, Reclaim, |b.entries|), stack), k');
    forall p | InUse(k, p)
      ensures p !in k'.space.Free()
    {
      InUseNotFree(k', p);
    }
  }

  lemma InUseNotFree(k: Ledger, p: nat)
    requires Inv(k) && InUse(k, p)
    ensures p !in k.space.Free()
  {
    if p in k.space.Free() { FreeIsNoTable(k.space, p); }
  }

  /** Page `p` is held by a caller, a table or part of the bitmap. */
  ghost predicate InUse(k: Ledger, p: nat) {
    p in k.held || IsTable(k.space.tables, p) || p in BitmapFrames(k.space.bitmap, k.space.pages)
  }

  // ----- Device mappings

  /** The pages that hold bytes a..a+size-1 of physical memory. */
  function DevicePages(a: nat, size: nat): set<nat>
    requires size > 0
  {
    Range(a / PAGE_SIZE, (a + size - 1) / PAGE_SIZE + 1)
  }

  /** Such a request covers the HHDM addresses of exactly the pages of the device. */
  lemma DeviceMisses(hhdm: nat, low: nat, n: nat, a: nat, size: nat, flags: nat, p: nat)
    requires Straight(hhdm, n) && low == Vpn(hhdm) && PAGE_SIZE * n <= 0x10_0000_0000_0000
    requires size > 0 && a + size <= PAGE_SIZE * n && p < n
    ensures Misses(DeviceRequest(hhdm, a, size, flags), low + p) <==> p !in DevicePages(a, size)
  {
    var off, count := a / PAGE_SIZE, (a + size - 1) / PAGE_SIZE + 1 - a / PAGE_SIZE;
    var r := DeviceRequest(hhdm, a, size, flags);
    DeviceCovers(hhdm, n, a, size, flags, off, count);
    SubWindow(hhdm, n, off, count);
    StraightNumbers(r.where, count, low + off);
    if off <= p < off + count {
      assert Vpn(PageAt(r.where, p - off)) == low + p;
    }
  }

  lemma DeviceCovers(hhdm: nat, n: nat, a: nat, size: nat, flags: nat, off: nat, count: nat)
    requires hhdm % PAGE_SIZE == 0 && hhdm + PAGE_SIZE * n <= TWO64 && PAGE_SIZE * n <= 0x10_0000_0000_0000
    requires size > 0 && a + size <= PAGE_SIZE * n
    requires off == a / PAGE_SIZE && off + count == (a + size - 1) / PAGE_SIZE + 1
    ensures var r := DeviceRequest(hhdm, a, size, flags); r.where == hhdm + PAGE_SIZE * off && r.Pages() == count
    ensures off + count <= n && count > 0
  {
    UnalignedCovers(a, hhdm + a, size, flags);
    SamePlace(hhdm, a);
    SamePlace(hhdm, a + size - 1);
  }

  lemma SamePlace(base: nat, x: nat)
    requires base % PAGE_SIZE == 0
    ensures (base + x) / PAGE_SIZE == base / PAGE_SIZE + x / PAGE_SIZE && (base + x) % PAGE_SIZE == x % PAGE_SIZE
    ensures base == PAGE_SIZE * (base / PAGE_SIZE)
  {
  }

  /** A device mapping is proper if and only if none of the device's pages is memory the manager may know. */
  lemma DeviceProper(b: Boot, n: nat, a: nat, size: nat, flags: nat)
    requires b.Ok() && b.frames <= n && Straight(b.hhdm, n) && PAGE_SIZE * n <= 0x10_0000_0000_0000
    requires size > 0 && a + size <= PAGE_SIZE * n
    ensures Proper(b, [Map(DeviceRequest(b.hhdm, a, size, flags))]) <==> DevicePages(a, size) !! RamPages(b)
  {
    var low, r := Vpn(b.hhdm), DeviceRequest(b.hhdm, a, size, flags);
    forall p | p in RamPages(b)
      ensures Misses(r, b.HhdmVpn(p)) <==> p !in DevicePages(a, size)
    {
      var i := RamEntry(b, p);
      RamPage(b, i, p);
      HhdmPage(b.hhdm, low, b.frames, p);
      DeviceMisses(b.hhdm, low, n, a, size, flags, p);
    }
    assert Map(r) in [Map(r)];
  }

  /** A served device request: every byte of the device is reached at its HHDM address, with the rights and cache mode asked for. */
  lemma DeviceReached(s: Space, t: Space, hhdm: nat, a: nat, size: nat, flags: nat, r: Request, k: nat, v: nat, target: Translation)
    requires Sound(s) && r == DeviceRequest(hhdm, a, size, flags) && Remaps(s, t, r.what, r.where, flags, r.Pages())
    requires 0xFFFF_8000_0000_0000 <= hhdm && hhdm % PAGE_SIZE == 0 && hhdm + a + size <= TWO64
    requires k < size && v == Vpn(hhdm + a + k)
    requires target ==
      Mapped((a + k) / PAGE_SIZE, Rights(flags % 2 == 1, flags / 2 % 2 == 1, false), if flags / 8 % 4 == 1 then 2 else if flags / 8 % 4 == 2 then 5 else 0)
    ensures t.Walk(v) == target
  {
    DeviceStraight(hhdm, a, size, flags, r);
    SamePlace(hhdm, a);
    assert ByteIn(hhdm + a, k, v);
    UnalignedMeans(s, t, a, hhdm + a, size, flags, r, k, v);
  }

  lemma DeviceStraight(hhdm: nat, a: nat, size: nat, flags: nat, r: Request)
    requires 0xFFFF_8000_0000_0000 <= hhdm && hhdm % PAGE_SIZE == 0 && size > 0 && hhdm + a + size <= TWO64
    requires r == DeviceRequest(hhdm, a, size, flags)
    ensures r == AlignedRequest(a, hhdm + a, size, flags) && Straight(r.where, r.Pages())
  {
    var n := (a + size - 1) / PAGE_SIZE + 1;
    WindowFits(hhdm, a, size, n);
    CanonicalRangeIsStraight(hhdm, n);
    DeviceCovers(hhdm, n, a, size, flags, a / PAGE_SIZE, n - a / PAGE_SIZE);
    SubWindow(hhdm, n, a / PAGE_SIZE, n - a / PAGE_SIZE);
  }

  lemma WindowFits(hhdm: nat, a: nat, size: nat, n: nat)
    requires 0xFFFF_8000_0000_0000 <= hhdm && hhdm % PAGE_SIZE == 0 && size > 0 && hhdm + a + size <= TWO64
    requires n == (a + size - 1) / PAGE_SIZE + 1
    ensures hhdm + PAGE_SIZE * n <= TWO64 && a + size <= PAGE_SIZE * n && a / PAGE_SIZE <= n
    ensures Canonical(hhdm) && Canonical(hhdm + PAGE_SIZE * n - 1)
  {
    SamePlace(hhdm, a + size - 1);
  }

  lemma ProperTogether(b: Boot, events: seq<Event>, more: seq<Event>)
    requires Proper(b, events) && Proper(b, more)
    ensures Proper(b, events + more)
  {
  }
}
