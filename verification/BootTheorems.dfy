/** The address space that is in place when vmm_init loads CR3. */
module BootTheorems {
  import opened Wrappers
  import opened Bits
  import opened PhysicalMemory
  import opened Bitmap
  import opened Paging
  import opened KernelSpace
  import opened Mapping
  import opened MapTheorems
  import opened BootInfo
  import opened MemoryManager

  // ----- Requests inside a window of addresses

  /** Pages off..off+count-1 of a window are straight and have consecutive page numbers. */
  lemma SubWindow(base: nat, n: nat, off: nat, count: nat)
    requires Straight(base, n) && count > 0 && off + count <= n
    ensures Vpn(base + PAGE_SIZE * off) == Vpn(base) + off && Straight(base + PAGE_SIZE * off, count)
  {
  }

  /** Mapping part of a window, whose first page number is `first`, to the same part of a physical region. */
  lemma SubOverlay(before: Translation, v: nat, region: nat, base: nat, first: nat, n: nat, off: nat, count: nat, flags: nat)
    requires Straight(base, n) && first == Vpn(base) && off + count <= n && region + PAGE_SIZE * n <= TWO64
    ensures Overlay(before, v, region + PAGE_SIZE * off, base + PAGE_SIZE * off, flags, count) ==
            if first + off <= v < first + off + count then Target(region + PAGE_SIZE * (v - first), flags) else before
  {
    if count > 0 {
      SubWindow(base, n, off, count);
      StraightNumbers(base + PAGE_SIZE * off, count, first + off);
      OverlayNumbered(before, v, region + PAGE_SIZE * off, base + PAGE_SIZE * off, flags, count, first + off);
      if first + off <= v < first + off + count {
        PartOfRegion(region, n, off, v - first - off);
      }
    }
  }

  lemma PartOfRegion(region: nat, n: nat, off: nat, j: nat)
    requires region + PAGE_SIZE * n <= TWO64 && off + j < n
    ensures PageAt(region + PAGE_SIZE * off, j) == region + PAGE_SIZE * (off + j)
  {
  }

  lemma {:induction false} OverlayAllAppend(before: Translation, v: nat, reqs: seq<Request>, more: seq<Request>)
    ensures OverlayAll(before, v, reqs + more) == OverlayAll(OverlayAll(before, v, reqs), v, more)
  {
    if more == [] {
      assert reqs + more == reqs;
    } else {
      assert (reqs + more)[..|reqs + more| - 1] == reqs + more[..|more| - 1];
      OverlayAllAppend(before, v, reqs, more[..|more| - 1]);
    }
  }

  lemma OverlayAllParts(before: Translation, v: nat, a: seq<Request>, b: seq<Request>, c: seq<Request>)
    ensures OverlayAll(before, v, a + b + c) == OverlayAll(OverlayAll(before, v, a), v, b + c)
  {
    assert a + b + c == a + (b + c);
    OverlayAllAppend(before, v, a, b + c);
  }

  lemma OverlayAllOne(before: Translation, v: nat, r: Request)
    ensures OverlayAll(before, v, [r]) == Overlay(before, v, r.what, r.where, r.flags, r.Pages())
  {
  }

  /** Mapped to `paddr` if some segment or entry says so. */
  function MappedOr(before: Translation, paddr: nat, flags: Option<nat>): Translation {
    match flags
    case None => before
    case Some(f) => Target(paddr, f)
  }

  // ----- The HHDM

  /** All of physical memory fits in the HHDM window, and mapped entries are page-aligned. */
  predicate HhdmOk(entries: seq<MemmapEntry>, hhdm: nat, frames: nat) {
    && Straight(hhdm, frames) && PAGE_SIZE * frames <= 0x10_0000_0000_0000
    && forall i :: 0 <= i < |entries| && HhdmFlags(entries[i].kind).Some? ==>
         entries[i].Aligned() && entries[i].End() <= PAGE_SIZE * frames
  }

  /** Flags of the last mapped entry among the first `k` that holds page `p`. */
  function HhdmLast(entries: seq<MemmapEntry>, k: nat, p: nat): Option<nat>
    requires k <= |entries|
  {
    if k == 0 then None
    else if HhdmFlags(entries[k - 1].kind).Some? && p in entries[k - 1].Pages() then HhdmFlags(entries[k - 1].kind)
    else HhdmLast(entries, k - 1, p)
  }

  lemma HhdmPartMeans(before: Translation, v: nat, e: MemmapEntry, hhdm: nat, first: nat, frames: nat)
    requires Straight(hhdm, frames) && first == Vpn(hhdm) && PAGE_SIZE * frames <= 0x10_0000_0000_0000
    requires HhdmFlags(e.kind).Some? ==> e.Aligned() && e.End() <= PAGE_SIZE * frames
    ensures OverlayAll(before, v, HhdmPart(e, hhdm)) ==
            if HhdmFlags(e.kind).Some? && v >= first && v - first in e.Pages()
            then Target(PAGE_SIZE * (v - first), HhdmFlags(e.kind).value)
            else before
  {
    if HhdmFlags(e.kind).Some? {
      var off, count := e.base / PAGE_SIZE, e.length / PAGE_SIZE;
      EntryPages(e, off, count);
      OverlayAllOne(before, v, HhdmPart(e, hhdm)[0]);
      HhdmAddress(hhdm, frames, off, count);
      SubOverlay(before, v, 0, hhdm, first, frames, off, count, HhdmFlags(e.kind).value);
    }
  }

  lemma HhdmAddress(hhdm: nat, frames: nat, off: nat, count: nat)
    requires Straight(hhdm, frames) && off + count <= frames
    ensures count > 0 ==> PhyToVirt(hhdm, PAGE_SIZE * off) == hhdm + PAGE_SIZE * off
  {
  }

  lemma EntryPages(e: MemmapEntry, off: nat, count: nat)
    requires e.Aligned() && off == e.base / PAGE_SIZE && count == e.length / PAGE_SIZE
    ensures e.base == PAGE_SIZE * off && e.length == PAGE_SIZE * count && e.Pages() == Range(off, off + count)
  {
  }

  /** The part of one entry has its meaning over any earlier translation of page `v`. */
  ghost predicate HhdmPartOk(e: MemmapEntry, hhdm: nat, first: nat, v: nat) {
    forall b: Translation {:trigger OverlayAll(b, v, HhdmPart(e, hhdm))} ::
      OverlayAll(b, v, HhdmPart(e, hhdm)) ==
        if HhdmFlags(e.kind).Some? && v >= first && v - first in e.Pages()
        then Target(PAGE_SIZE * (v - first), HhdmFlags(e.kind).value)
        else b
  }

  lemma {:induction false} HhdmParts(before: Translation, v: nat, entries: seq<MemmapEntry>, hhdm: nat, first: nat, k: nat)
    requires k <= |entries| && forall i :: 0 <= i < |entries| ==> HhdmPartOk(entries[i], hhdm, first, v)
    ensures OverlayAll(before, v, HhdmRequests(entries, hhdm, k)) ==
            if v < first then before else MappedOr(before, PAGE_SIZE * (v - first), HhdmLast(entries, k, v - first))
  {
    if k > 0 {
      HhdmParts(before, v, entries, hhdm, first, k - 1);
      OverlayAllAppend(before, v, HhdmRequests(entries, hhdm, k - 1), HhdmPart(entries[k - 1], hhdm));
      assert HhdmPartOk(entries[k - 1], hhdm, first, v);
    }
  }

  /** The memory-map loop maps a page with the flags of the last mapped entry that holds it. */
  lemma HhdmMeans(before: Translation, v: nat, entries: seq<MemmapEntry>, hhdm: nat, first: nat, frames: nat, k: nat)
    requires HhdmOk(entries, hhdm, frames) && first == Vpn(hhdm) && k <= |entries|
    ensures OverlayAll(before, v, HhdmRequests(entries, hhdm, k)) ==
            if v < first then before else MappedOr(before, PAGE_SIZE * (v - first), HhdmLast(entries, k, v - first))
  {
    forall i | 0 <= i < |entries|
      ensures HhdmPartOk(entries[i], hhdm, first, v)
    {
      forall b: Translation
        ensures OverlayAll(b, v, HhdmPart(entries[i], hhdm)) ==
          if HhdmFlags(entries[i].kind).Some? && v >= first && v - first in entries[i].Pages()
          then Target(PAGE_SIZE * (v - first), HhdmFlags(entries[i].kind).value)
          else b
      {
        HhdmPartMeans(b, v, entries[i], hhdm, first, frames);
      }
    }
    HhdmParts(before, v, entries, hhdm, first, k);
  }

  // ----- The kernel image

  /** The image has page-aligned bases and `n` pages, and its mapped segments start and end inside. */
  predicate ImageOk(phdrs: seq<Phdr>, physBase: nat, virtBase: nat, n: nat) {
    && Straight(virtBase, n)
    && physBase % PAGE_SIZE == 0 && physBase + PAGE_SIZE * n <= 0x10_0000_0000_0000
    && forall i :: 0 <= i < |phdrs| && phdrs[i].kind != OtherSegment ==>
         phdrs[i].vaddr < PAGE_SIZE * n && phdrs[i].vaddr + phdrs[i].memsz <= PAGE_SIZE * n
  }

  /** The pages of the image that a segment touches. */
  function SegmentPages(p: Phdr): set<nat> {
    Range(p.vaddr / PAGE_SIZE, (p.vaddr + p.memsz + PAGE_SIZE - 1) / PAGE_SIZE)
  }

  /** Flags of the last segment of that kind among the first `k` that touches image page `q`. */
  function SegmentLast(phdrs: seq<Phdr>, kind: SegmentKind, k: nat, q: nat): Option<nat>
    requires k <= |phdrs|
  {
    if k == 0 then None
    else if phdrs[k - 1].kind == kind && q in SegmentPages(phdrs[k - 1]) then Some(SegmentFlags(phdrs[k - 1].flags))
    else SegmentLast(phdrs, kind, k - 1, q)
  }

  /** The request of a segment covers whole pages of the image at both ends. */
  lemma SegmentRequestPages(p: Phdr, physBase: nat, virtBase: nat, n: nat, off: nat, count: nat)
    requires physBase % PAGE_SIZE == 0 && virtBase % PAGE_SIZE == 0
    requires physBase + PAGE_SIZE * n <= 0x10_0000_0000_0000 && virtBase + PAGE_SIZE * n <= TWO64
    requires p.vaddr < PAGE_SIZE * n && p.vaddr + p.memsz <= PAGE_SIZE * n
    requires off == p.vaddr / PAGE_SIZE && off + count == (p.vaddr + p.memsz + PAGE_SIZE - 1) / PAGE_SIZE
    ensures SegmentRequest(p, physBase, virtBase) ==
            Request(physBase + PAGE_SIZE * off, virtBase + PAGE_SIZE * off, PAGE_SIZE * count, SegmentFlags(p.flags))
    ensures off + count <= n
  {
    RoundedDown(physBase, p.vaddr);
    RoundedDown(virtBase, p.vaddr);
    RoundedUp(physBase, p.vaddr + p.memsz);
    AlignedParts(physBase + p.vaddr, virtBase + p.vaddr, p.memsz, SegmentFlags(p.flags),
                 physBase + PAGE_SIZE * off, virtBase + PAGE_SIZE * off, PAGE_SIZE * count);
  }

  lemma AlignedParts(what: nat, where: nat, size: nat, flags: nat, start: nat, place: nat, length: nat)
    requires RoundDown(what, PAGE_SIZE) == start && RoundDown(where, PAGE_SIZE) == place && what + size < TWO64
    requires RoundUp(what + size, PAGE_SIZE) == start + length && start + length < TWO64
    ensures AlignedRequest(what, where, size, flags) == Request(start, place, length, flags)
  {
  }

  lemma RoundedDown(base: nat, x: nat)
    requires base % PAGE_SIZE == 0
    ensures RoundDown(base + x, PAGE_SIZE) == base + PAGE_SIZE * (x / PAGE_SIZE)
  {
  }

  lemma RoundedUp(base: nat, x: nat)
    requires base % PAGE_SIZE == 0 && base + x <= TWO64 - PAGE_SIZE
    ensures RoundUp(base + x, PAGE_SIZE) == base + PAGE_SIZE * ((x + PAGE_SIZE - 1) / PAGE_SIZE)
  {
  }

  lemma SegmentPartMeans(before: Translation, v: nat, p: Phdr, kind: SegmentKind, physBase: nat, virtBase: nat, first: nat, n: nat)
    requires Straight(virtBase, n) && first == Vpn(virtBase)
    requires physBase % PAGE_SIZE == 0 && physBase + PAGE_SIZE * n <= 0x10_0000_0000_0000
    requires p.kind == kind ==> p.vaddr < PAGE_SIZE * n && p.vaddr + p.memsz <= PAGE_SIZE * n
    ensures OverlayAll(before, v, SegmentPart(p, kind, physBase, virtBase)) ==
            if p.kind == kind && v >= first && v - first in SegmentPages(p)
            then Target(physBase + PAGE_SIZE * (v - first), SegmentFlags(p.flags))
            else before
  {
    if p.kind == kind {
      var off, end := p.vaddr / PAGE_SIZE, (p.vaddr + p.memsz + PAGE_SIZE - 1) / PAGE_SIZE;
      SegmentRequestPages(p, physBase, virtBase, n, off, end - off);
      SegmentOverlay(before, v, SegmentRequest(p, physBase, virtBase), physBase, virtBase, first, n, off, end - off);
      assert SegmentPages(p) == Range(off, end);
    }
  }

  lemma SegmentOverlay(before: Translation, v: nat, r: Request, physBase: nat, virtBase: nat, first: nat, n: nat, off: nat, count: nat)
    requires Straight(virtBase, n) && first == Vpn(virtBase) && off + count <= n && physBase + PAGE_SIZE * n <= TWO64
    requires r == Request(physBase + PAGE_SIZE * off, virtBase + PAGE_SIZE * off, PAGE_SIZE * count, r.flags)
    ensures OverlayAll(before, v, [r]) ==
            if first + off <= v < first + off + count then Target(physBase + PAGE_SIZE * (v - first), r.flags) else before
  {
    assert r.Pages() == count;
    OverlayAllOne(before, v, r);
    SubOverlay(before, v, physBase, virtBase, first, n, off, count, r.flags);
  }

  /** The part of one header has its meaning over any earlier translation of page `v`. */
  ghost predicate SegmentPartOk(p: Phdr, kind: SegmentKind, physBase: nat, virtBase: nat, first: nat, v: nat) {
    forall b: Translation {:trigger OverlayAll(b, v, SegmentPart(p, kind, physBase, virtBase))} ::
      OverlayAll(b, v, SegmentPart(p, kind, physBase, virtBase)) ==
        if p.kind == kind && v >= first && v - first in SegmentPages(p)
        then Target(physBase + PAGE_SIZE * (v - first), SegmentFlags(p.flags))
        else b
  }

  lemma {:induction false} SegmentParts(before: Translation, v: nat, phdrs: seq<Phdr>, kind: SegmentKind,
                                        physBase: nat, virtBase: nat, first: nat, k: nat)
    requires k <= |phdrs| && forall i :: 0 <= i < |phdrs| ==> SegmentPartOk(phdrs[i], kind, physBase, virtBase, first, v)
    ensures OverlayAll(before, v, SegmentRequests(phdrs, kind, physBase, virtBase, k)) ==
            if v < first then before
            else MappedOr(before, physBase + PAGE_SIZE * (v - first), SegmentLast(phdrs, kind, k, v - first))
  {
    if k > 0 {
      SegmentParts(before, v, phdrs, kind, physBase, virtBase, first, k - 1);
      OverlayAllAppend(before, v, SegmentRequests(phdrs, kind, physBase, virtBase, k - 1),
                       SegmentPart(phdrs[k - 1], kind, physBase, virtBase));
      assert SegmentPartOk(phdrs[k - 1], kind, physBase, virtBase, first, v);
    }
  }

  /** A program-header loop maps an image page with the flags of the last header of its kind that touches it. */
  lemma SegmentsMean(before: Translation, v: nat, phdrs: seq<Phdr>, kind: SegmentKind,
                     physBase: nat, virtBase: nat, first: nat, n: nat, k: nat)
    requires ImageOk(phdrs, physBase, virtBase, n) && first == Vpn(virtBase) && k <= |phdrs| && kind != OtherSegment
    ensures OverlayAll(before, v, SegmentRequests(phdrs, kind, physBase, virtBase, k)) ==
            if v < first then before
            else MappedOr(before, physBase + PAGE_SIZE * (v - first), SegmentLast(phdrs, kind, k, v - first))
  {
    forall i | 0 <= i < |phdrs|
      ensures SegmentPartOk(phdrs[i], kind, physBase, virtBase, first, v)
    {
      forall b: Translation
        ensures OverlayAll(b, v, SegmentPart(phdrs[i], kind, physBase, virtBase)) ==
          if phdrs[i].kind == kind && v >= first && v - first in SegmentPages(phdrs[i])
          then Target(physBase + PAGE_SIZE * (v - first), SegmentFlags(phdrs[i].flags))
          else b
      {
        SegmentPartMeans(b, v, phdrs[i], kind, physBase, virtBase, first, n);
      }
    }
    SegmentParts(before, v, phdrs, kind, physBase, virtBase, first, k);
  }

  // ----- The whole address space

  /** RELRO rights win over those of PT_LOAD, whatever the order of the headers. */
  function ImageFlags(phdrs: seq<Phdr>, q: nat): Option<nat> {
    match SegmentLast(phdrs, GnuRelro, |phdrs|, q)
    case Some(flags) => Some(flags)
    case None => SegmentLast(phdrs, Load, |phdrs|, q)
  }

  /** What vmm_init builds: the kernel image from page `image` on, the HHDM window from page `low` on, and nothing else. */
  function BootMap(entries: seq<MemmapEntry>, low: nat, phdrs: seq<Phdr>, physBase: nat, image: nat, v: nat): Translation {
    if v >= image && ImageFlags(phdrs, v - image).Some? then
      Target(physBase + PAGE_SIZE * (v - image), ImageFlags(phdrs, v - image).value)
    else if v >= low then
      MappedOr(NotMapped, PAGE_SIZE * (v - low), HhdmLast(entries, |entries|, v - low))
    else NotMapped
  }

  lemma ImageOverlay(before: Translation, phdrs: seq<Phdr>, physBase: nat, virtBase: nat, image: nat, n: nat, v: nat)
    requires ImageOk(phdrs, physBase, virtBase, n) && image == Vpn(virtBase)
    ensures OverlayAll(before, v, SegmentRequests(phdrs, Load, physBase, virtBase, |phdrs|)
                                  + SegmentRequests(phdrs, GnuRelro, physBase, virtBase, |phdrs|)) ==
            if v < image then before else MappedOr(before, physBase + PAGE_SIZE * (v - image), ImageFlags(phdrs, v - image))
  {
    var loads := SegmentRequests(phdrs, Load, physBase, virtBase, |phdrs|);
    OverlayAllAppend(before, v, loads, SegmentRequests(phdrs, GnuRelro, physBase, virtBase, |phdrs|));
    var loaded := OverlayAll(before, v, loads);
    SegmentsMean(before, v, phdrs, Load, physBase, virtBase, image, n, |phdrs|);
    SegmentsMean(loaded, v, phdrs, GnuRelro, physBase, virtBase, image, n, |phdrs|);
  }

  /** The requests of vmm_init produce exactly that map, at every page number. */
  lemma BootOverlay(entries: seq<MemmapEntry>, hhdm: nat, low: nat, frames: nat,
                    phdrs: seq<Phdr>, physBase: nat, virtBase: nat, image: nat, n: nat, v: nat)
    requires HhdmOk(entries, hhdm, frames) && low == Vpn(hhdm)
    requires ImageOk(phdrs, physBase, virtBase, n) && image == Vpn(virtBase)
    ensures OverlayAll(NotMapped, v, InitRequests(entries, hhdm, phdrs, physBase, virtBase)) ==
            BootMap(entries, low, phdrs, physBase, image, v)
  {
    var hs := HhdmRequests(entries, hhdm, |entries|);
    var loads := SegmentRequests(phdrs, Load, physBase, virtBase, |phdrs|);
    var relros := SegmentRequests(phdrs, GnuRelro, physBase, virtBase, |phdrs|);
    HhdmMeans(NotMapped, v, entries, hhdm, low, frames, |entries|);
    ImageOverlay(OverlayAll(NotMapped, v, hs), phdrs, physBase, virtBase, image, n, v);
    BootParts(entries, low, phdrs, physBase, image, v, hs, loads, relros);
  }

  lemma BootParts(entries: seq<MemmapEntry>, low: nat, phdrs: seq<Phdr>, physBase: nat, image: nat, v: nat,
                  hs: seq<Request>, loads: seq<Request>, relros: seq<Request>)
    requires OverlayAll(NotMapped, v, hs) ==
             if v < low then NotMapped else MappedOr(NotMapped, PAGE_SIZE * (v - low), HhdmLast(entries, |entries|, v - low))
    requires OverlayAll(OverlayAll(NotMapped, v, hs), v, loads + relros) ==
             if v < image then OverlayAll(NotMapped, v, hs)
             else MappedOr(OverlayAll(NotMapped, v, hs), physBase + PAGE_SIZE * (v - image), ImageFlags(phdrs, v - image))
    ensures OverlayAll(NotMapped, v, hs + loads + relros) == BootMap(entries, low, phdrs, physBase, image, v)
  {
    OverlayAllParts(NotMapped, v, hs, loads, relros);
  }

  // ----- What the processor sees at the CR3 load

  /** A boot with a memory map of disjoint entries, and a kernel image outside the HHDM window. */
  datatype Boot = Boot(entries: seq<MemmapEntry>, hhdm: nat, frames: nat,
                       phdrs: seq<Phdr>, physBase: nat, virtBase: nat, imagePages: nat)
  {
    predicate Ok() {
      && HhdmOk(entries, hhdm, frames) && Disjoint(entries)
      && ImageOk(phdrs, physBase, virtBase, imagePages)
      && (Vpn(hhdm) + frames <= Vpn(virtBase) || Vpn(virtBase) + imagePages <= Vpn(hhdm))
    }

    function Requests(): seq<Request> {
      InitRequests(entries, hhdm, phdrs, physBase, virtBase)
    }

    function Map(v: nat): Translation {
      BootMap(entries, Vpn(hhdm), phdrs, physBase, Vpn(virtBase), v)
    }

    /** Page `p` of physical memory, seen through the HHDM. */
    function HhdmVpn(p: nat): nat {
      Vpn(PhyToVirt(hhdm, PAGE_SIZE * p))
    }

    /** Page `q` of the kernel image. */
    function ImageVpn(q: nat): nat {
      Vpn(virtBase) + q
    }
  }

  /** From state `s` after pmm_init, vmm_init reached the CR3 load in state `t`. */
  ghost predicate Booted(b: Boot, s: Space, t: Space) {
    && Prepared(s)
    && s.Free() == Claimed(b.entries, Init, |b.entries|) - BitmapFrames(s.bitmap, s.pages)
    && (exists i: nat :: i < |b.entries| && b.entries[i].kind == Usable && BitmapFrames(s.bitmap, s.pages) <= b.entries[i].Pages())
    && exists empty :: StartsEmpty(s, empty) && Serves(empty, t, b.Requests())
  }

  /** The new address space is the boot map, at every page number. */
  lemma BootWalk(b: Boot, s: Space, t: Space, v: nat)
    requires b.Ok() && Booted(b, s, t) && v < VPNS
    ensures t.Walk(v) == b.Map(v)
  {
    var empty :| StartsEmpty(s, empty) && Serves(empty, t, b.Requests());
    ServesMeans(empty, t, b.Requests());
    WalksAreLookups(t);
    assert Lookup(empty.mem, empty.tables, v) == NotMapped;
    var low, image := Vpn(b.hhdm), Vpn(b.virtBase);
    BootOverlay(b.entries, b.hhdm, low, b.frames, b.phdrs, b.physBase, b.virtBase, image, b.imagePages, v);
  }

  lemma ApartPages(d: MemmapEntry, e: MemmapEntry, p: nat)
    requires d.End() <= e.base || e.End() <= d.base
    requires d.Aligned() && p in d.Pages()
    ensures e.Aligned() ==> p !in e.Pages()
  {
  }

  lemma {:induction false} OnlyEntry(entries: seq<MemmapEntry>, hhdm: nat, frames: nat, k: nat, i: nat, p: nat)
    requires HhdmOk(entries, hhdm, frames) && Disjoint(entries) && i < k <= |entries|
    requires HhdmFlags(entries[i].kind).Some? && p in entries[i].Pages()
    ensures HhdmLast(entries, k, p) == HhdmFlags(entries[i].kind)
  {
    if k - 1 != i {
      ApartPages(entries[i], entries[k - 1], p);
      OnlyEntry(entries, hhdm, frames, k - 1, i, p);
    }
  }

  lemma {:induction false} NoSegment(phdrs: seq<Phdr>, kind: SegmentKind, physBase: nat, virtBase: nat, n: nat, k: nat, q: nat)
    requires ImageOk(phdrs, physBase, virtBase, n) && kind != OtherSegment && k <= |phdrs| && q >= n
    ensures SegmentLast(phdrs, kind, k, q) == None
  {
    if k > 0 { NoSegment(phdrs, kind, physBase, virtBase, n, k - 1, q); }
  }

  predicate IsRam(kind: MemmapKind) {
    kind == Usable || kind == AcpiReclaimable || kind == BootloaderReclaimable
  }

  lemma NotInImage(b: Boot, low: nat, image: nat, v: nat)
    requires b.Ok() && low == Vpn(b.hhdm) && image == Vpn(b.virtBase) && low <= v < low + b.frames && v >= image
    ensures ImageFlags(b.phdrs, v - image) == None
  {
    NoSegment(b.phdrs, Load, b.physBase, b.virtBase, b.imagePages, |b.phdrs|, v - image);
    NoSegment(b.phdrs, GnuRelro, b.physBase, b.virtBase, b.imagePages, |b.phdrs|, v - image);
  }

  lemma RamPage(b: Boot, i: nat, p: nat)
    requires b.Ok() && i < |b.entries| && IsRam(b.entries[i].kind) && p in b.entries[i].Pages()
    ensures p < b.frames
  {
  }

  lemma EntryMapped(b: Boot, low: nat, image: nat, i: nat, p: nat)
    requires b.Ok() && low == Vpn(b.hhdm) && image == Vpn(b.virtBase) && i < |b.entries|
    requires HhdmFlags(b.entries[i].kind).Some? && p in b.entries[i].Pages() && p < b.frames
    ensures BootMap(b.entries, low, b.phdrs, b.physBase, image, low + p) == Target(PAGE_SIZE * p, HhdmFlags(b.entries[i].kind).value)
  {
    OnlyEntry(b.entries, b.hhdm, b.frames, |b.entries|, i, p);
    if low + p >= image { NotInImage(b, low, image, low + p); }
  }

  lemma HhdmPage(hhdm: nat, low: nat, frames: nat, p: nat)
    requires Straight(hhdm, frames) && low == Vpn(hhdm) && p < frames
    ensures Vpn(PhyToVirt(hhdm, PAGE_SIZE * p)) == low + p && low + p < VPNS
  {
  }

  lemma RamMapsTo(b: Boot, i: nat, p: nat)
    requires b.Ok() && i < |b.entries| && IsRam(b.entries[i].kind) && p in b.entries[i].Pages()
    ensures b.HhdmVpn(p) < VPNS && b.Map(b.HhdmVpn(p)) == Mapped(p, Rights(true, false, false), 0)
  {
    var low, image := Vpn(b.hhdm), Vpn(b.virtBase);
    RamPage(b, i, p);
    HhdmPage(b.hhdm, low, b.frames, p);
    EntryMapped(b, low, image, i, p);
    PageTarget(p, b.frames);
  }

  /** Every page of usable or reclaimable memory is reached through the HHDM: writable, not executable, supervisor only, cached. */
  lemma HhdmIdentity(b: Boot, s: Space, t: Space, i: nat, p: nat)
    requires b.Ok() && Booted(b, s, t)
    requires i < |b.entries| && IsRam(b.entries[i].kind) && p in b.entries[i].Pages()
    ensures t.Walk(b.HhdmVpn(p)) == Mapped(p, Rights(true, false, false), 0)
  {
    RamMapsTo(b, i, p);
    BootWalk(b, s, t, b.HhdmVpn(p));
  }

  lemma PageTarget(p: nat, frames: nat)
    requires p < frames && PAGE_SIZE * frames <= 0x10_0000_0000_0000
    ensures Target(PAGE_SIZE * p, M_W) == Mapped(p, Rights(true, false, false), 0)
  {
    FrameFits(PAGE_SIZE * p);
  }

  /** The new address space can edit itself: its tables and the bitmap are mapped at their HHDM addresses. */
  lemma SelfMapped(b: Boot, s: Space, t: Space, f: nat)
    requires b.Ok() && Booted(b, s, t)
    requires IsTable(t.tables, f) || f in BitmapFrames(t.bitmap, t.pages)
    ensures t.Walk(b.HhdmVpn(f)) == Mapped(f, Rights(true, false, false), 0)
  {
    TablesFromFree(b, s, t);
    if IsTable(t.tables, f) { ClaimedHas(b.entries, Init, |b.entries|, f); }
    var i: nat :| i < |b.entries| && b.entries[i].kind == Usable && f in b.entries[i].Pages();
    HhdmIdentity(b, s, t, i, f);
  }

  lemma TablesFromFree(b: Boot, s: Space, t: Space)
    requires Booted(b, s, t)
    ensures t.bitmap == s.bitmap && t.pages == s.pages
    ensures forall f: nat :: IsTable(t.tables, f) ==> f in s.Free()
  {
    var empty :| StartsEmpty(s, empty) && Serves(empty, t, b.Requests());
    ServesMeans(empty, t, b.Requests());
    GrownFromRoot(s.Free(), empty.root, empty.Free(), empty.tables, t.Free(), t.tables);
  }

  lemma GrownFromRoot(given: set<nat>, root: nat, free: set<nat>, tabs: map<Node, nat>, free': set<nat>, tabs': map<Node, nat>)
    requires root in given && free <= given && tabs == map[ROOT := root] && Grown(free, tabs, free', tabs')
    ensures forall f :: IsTable(tabs', f) ==> f in given
  {
    RootFrame(tabs, root);
    NewTables(free, tabs, free', tabs');
  }

  lemma RootFrame(tabs: map<Node, nat>, root: nat)
    requires tabs == map[ROOT := root]
    ensures forall f :: IsTable(tabs, f) ==> f == root
  {
  }

  lemma NewTables(free: set<nat>, tabs: map<Node, nat>, free': set<nat>, tabs': map<Node, nat>)
    requires Grown(free, tabs, free', tabs')
    ensures forall f :: IsTable(tabs', f) ==> IsTable(tabs, f) || f in free
  {
  }

  // ----- The kernel image

  /** Header `i` decides the rights of image page `q`: PT_GNU_RELRO before PT_LOAD, later headers before earlier ones. */
  predicate Decides(phdrs: seq<Phdr>, i: nat, q: nat) {
    && i < |phdrs| && phdrs[i].kind != OtherSegment && q in SegmentPages(phdrs[i])
    && (forall j :: i < j < |phdrs| && phdrs[j].kind == phdrs[i].kind ==> q !in SegmentPages(phdrs[j]))
    && (phdrs[i].kind == Load ==>
          forall j :: 0 <= j < |phdrs| && phdrs[j].kind == GnuRelro ==> q !in SegmentPages(phdrs[j]))
  }

  lemma {:induction false} LastOfKind(phdrs: seq<Phdr>, kind: SegmentKind, k: nat, i: nat, q: nat)
    requires i < k <= |phdrs| && phdrs[i].kind == kind && q in SegmentPages(phdrs[i])
    requires forall j :: i < j < k && phdrs[j].kind == kind ==> q !in SegmentPages(phdrs[j])
    ensures SegmentLast(phdrs, kind, k, q) == Some(SegmentFlags(phdrs[i].flags))
  {
    if k - 1 != i { LastOfKind(phdrs, kind, k - 1, i, q); }
  }

  lemma {:induction false} NoneOfKind(phdrs: seq<Phdr>, kind: SegmentKind, k: nat, q: nat)
    requires k <= |phdrs| && forall j :: 0 <= j < k && phdrs[j].kind == kind ==> q !in SegmentPages(phdrs[j])
    ensures SegmentLast(phdrs, kind, k, q) == None
  {
    if k > 0 { NoneOfKind(phdrs, kind, k - 1, q); }
  }

  lemma DecidedFlags(phdrs: seq<Phdr>, i: nat, q: nat)
    requires Decides(phdrs, i, q)
    ensures ImageFlags(phdrs, q) == Some(SegmentFlags(phdrs[i].flags))
  {
    LastOfKind(phdrs, phdrs[i].kind, |phdrs|, i, q);
    if phdrs[i].kind == Load { NoneOfKind(phdrs, GnuRelro, |phdrs|, q); }
  }

  lemma ImageMapsTo(b: Boot, i: nat, q: nat)
    requires b.Ok() && Decides(b.phdrs, i, q)
    ensures b.ImageVpn(q) < VPNS
    ensures b.Map(b.ImageVpn(q)) ==
            Mapped(b.physBase / PAGE_SIZE + q,
                   Rights(b.phdrs[i].flags / 2 % 2 == 1, b.phdrs[i].flags % 2 == 1, false), 0)
  {
    DecidedPage(b, i, q);
    DecidedFlags(b.phdrs, i, q);
    ImageTarget(b.physBase, b.imagePages, q, b.phdrs[i].flags);
  }

  /** Page `q` of the image translates to page `q` of its physical copy, with the rights of the header that decides. */
  lemma ImageMapped(b: Boot, s: Space, t: Space, i: nat, q: nat)
    requires b.Ok() && Booted(b, s, t) && Decides(b.phdrs, i, q)
    ensures t.Walk(b.ImageVpn(q)) ==
            Mapped(b.physBase / PAGE_SIZE + q,
                   Rights(b.phdrs[i].flags / 2 % 2 == 1, b.phdrs[i].flags % 2 == 1, false), 0)
  {
    ImageMapsTo(b, i, q);
    BootWalk(b, s, t, b.ImageVpn(q));
  }

  lemma DecidedPage(b: Boot, i: nat, q: nat)
    requires b.Ok() && Decides(b.phdrs, i, q)
    ensures q < b.imagePages
  {
  }

  lemma ImageTarget(physBase: nat, n: nat, q: nat, elf: nat)
    requires physBase % PAGE_SIZE == 0 && physBase + PAGE_SIZE * n <= 0x10_0000_0000_0000 && q < n
    ensures Target(physBase + PAGE_SIZE * q, SegmentFlags(elf)) ==
            Mapped(physBase / PAGE_SIZE + q, Rights(elf / 2 % 2 == 1, elf % 2 == 1, false), 0)
  {
    FrameFits(physBase + PAGE_SIZE * q);
    SegmentFlagBits(elf);
  }

  lemma SegmentFlagBits(elf: nat)
    ensures SegmentFlags(elf) < 4
    ensures SegmentFlags(elf) % 2 == elf / 2 % 2 && SegmentFlags(elf) / 2 % 2 == elf % 2
  {
  }

  // ----- Reclaiming

  /** No page that pmm_init took in is taken in again by pmm_reclaim. */
  lemma ReclaimApart(entries: seq<MemmapEntry>)
    requires Disjoint(entries)
    requires forall i :: 0 <= i < |entries| && IsRam(entries[i].kind) ==> entries[i].Aligned()
    ensures Claimed(entries, Init, |entries|) !! Claimed(entries, Reclaim, |entries|)
  {
    forall p | p in Claimed(entries, Init, |entries|)
      ensures p !in Claimed(entries, Reclaim, |entries|)
    {
      ClaimedHas(entries, Init, |entries|, p);
      ClaimedHas(entries, Reclaim, |entries|, p);
      var i :| 0 <= i < |entries| && Claims(Init, entries[i].kind) && p in entries[i].Pages();
      forall j | 0 <= j < |entries| && Claims(Reclaim, entries[j].kind)
        ensures p !in entries[j].Pages()
      {
        ApartPages(entries[i], entries[j], p);
      }
    }
  }
}
