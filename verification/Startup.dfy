/** When booting cannot fail: a bound on the tables that the first address space needs. */
module Startup {
  import opened Wrappers
  import opened Bits
  import opened PhysicalMemory
  import opened Bitmap
  import opened Paging
  import opened KernelSpace
  import opened Mapping
  import opened MapTheorems
  import opened BootInfo
  import opened BootTheorems
  import opened BringUp

  lemma {:induction false} TouchedAppend(reqs: seq<Request>, more: seq<Request>)
    ensures TouchedAll(reqs + more) == TouchedAll(reqs) + TouchedAll(more)
  {
    if more == [] {
      assert reqs + more == reqs;
    } else {
      assert (reqs + more)[..|reqs + more| - 1] == reqs + more[..|more| - 1];
      TouchedAppend(reqs, more[..|more| - 1]);
    }
  }

  lemma TouchedSingle(r: Request)
    ensures TouchedAll([r]) == Touched(r.where, r.Pages())
  {
    assert [r][..0] == [] && TouchedAll([]) == {};
  }

  /** The tables that serve a window of `n` pages from page number `first`. */
  function WindowTables(first: nat, n: nat): set<Node> {
    if n == 0 then {} else Tables(first, LastPage(first, n))
  }

  function LastPage(first: nat, n: nat): nat
    requires n > 0
  {
    first + n - 1
  }

  /** `nodes` has all tables below the root on the paths of these pages. */
  ghost predicate Serving(nodes: set<Node>, first: nat, n: nat) {
    forall v: nat {:trigger Path(v)} :: first <= v < first + n ==> Path(v) <= nodes
  }

  lemma WindowServes(first: nat, n: nat)
    ensures Serving(WindowTables(first, n), first, n)
  {
    if n > 0 { TablesServe(first, LastPage(first, n), n, Tables(first, LastPage(first, n))); }
  }

  lemma TablesServe(first: nat, last: nat, n: nat, nodes: set<Node>)
    requires n > 0 && last == first + n - 1 && nodes == Tables(first, last)
    ensures Serving(nodes, first, n)
  {
    forall v: nat | first <= v < first + n
      ensures Path(v) <= nodes
    {
      PathInWindow(v, first, last);
    }
  }

  lemma PathInWindow(v: nat, first: nat, last: nat)
    requires first <= v <= last
    ensures Path(v) <= Tables(first, last)
  {
    HomeInWindow(v, first, last, 2);
    HomeInWindow(v, first, last, 1);
    HomeInWindow(v, first, last, 0);
  }

  lemma HomeInWindow(v: nat, first: nat, last: nat, level: nat)
    requires first <= v <= last && level < 3
    ensures Home(v, level) in Tables(first, last)
  {
    PrefixOrder(first, v, level);
    PrefixOrder(v, last, level);
    assert ServesPages(Home(v, level), first, last);
  }

  lemma {:induction false} TouchedServed(where: nat, start: nat, count: nat, nodes: set<Node>, first: nat, n: nat)
    requires Numbered(where, count, start) && first <= start && start + count <= first + n && Serving(nodes, first, n)
    ensures Touched(where, count) <= nodes
  {
    if count > 0 {
      TouchedServed(where, start, count - 1, nodes, first, n);
      assert Vpn(PageAt(where, count - 1)) == start + (count - 1);
      assert Path(start + (count - 1)) <= nodes;
    }
  }

  lemma TouchedInWindow(base: nat, first: nat, n: nat, off: nat, count: nat, nodes: set<Node>)
    requires Straight(base, n) && first == Vpn(base) && off + count <= n && Serving(nodes, first, n)
    ensures Touched(base + PAGE_SIZE * off, count) <= nodes
  {
    if count > 0 {
      SubWindow(base, n, off, count);
      StraightNumbers(base + PAGE_SIZE * off, count, first + off);
      TouchedServed(base + PAGE_SIZE * off, first + off, count, nodes, first, n);
    }
  }

  lemma HhdmPartTouched(e: MemmapEntry, hhdm: nat, low: nat, frames: nat, nodes: set<Node>)
    requires Straight(hhdm, frames) && low == Vpn(hhdm) && Serving(nodes, low, frames)
    requires HhdmFlags(e.kind).Some? ==> e.Aligned() && e.End() <= PAGE_SIZE * frames
    ensures TouchedAll(HhdmPart(e, hhdm)) <= nodes
  {
    if HhdmFlags(e.kind).Some? {
      var off, count := e.base / PAGE_SIZE, e.length / PAGE_SIZE;
      EntryPages(e, off, count);
      TouchedSingle(HhdmPart(e, hhdm)[0]);
      HhdmAddress(hhdm, frames, off, count);
      if count > 0 {
        RequestTouched(HhdmPart(e, hhdm)[0], hhdm, low, frames, off, count, nodes);
      }
    }
  }

  lemma {:induction false} HhdmTouched(entries: seq<MemmapEntry>, hhdm: nat, low: nat, frames: nat, k: nat, nodes: set<Node>)
    requires HhdmOk(entries, hhdm, frames) && low == Vpn(hhdm) && k <= |entries| && Serving(nodes, low, frames)
    ensures TouchedAll(HhdmRequests(entries, hhdm, k)) <= nodes
  {
    if k > 0 {
      HhdmTouched(entries, hhdm, low, frames, k - 1, nodes);
      TouchedAppend(HhdmRequests(entries, hhdm, k - 1), HhdmPart(entries[k - 1], hhdm));
      HhdmPartTouched(entries[k - 1], hhdm, low, frames, nodes);
      assert HhdmRequests(entries, hhdm, k) == HhdmRequests(entries, hhdm, k - 1) + HhdmPart(entries[k - 1], hhdm);
    }
  }

  lemma SegmentPartTouched(p: Phdr, kind: SegmentKind, physBase: nat, virtBase: nat, image: nat, n: nat, nodes: set<Node>)
    requires Straight(virtBase, n) && image == Vpn(virtBase) && Serving(nodes, image, n)
    requires physBase % PAGE_SIZE == 0 && physBase + PAGE_SIZE * n <= 0x10_0000_0000_0000
    requires p.kind == kind ==> p.vaddr < PAGE_SIZE * n && p.vaddr + p.memsz <= PAGE_SIZE * n
    ensures TouchedAll(SegmentPart(p, kind, physBase, virtBase)) <= nodes
  {
    if p.kind == kind {
      var off, end := p.vaddr / PAGE_SIZE, (p.vaddr + p.memsz + PAGE_SIZE - 1) / PAGE_SIZE;
      SegmentRequestPages(p, physBase, virtBase, n, off, end - off);
      RequestTouched(SegmentRequest(p, physBase, virtBase), virtBase, image, n, off, end - off, nodes);
    }
  }

  lemma RequestTouched(r: Request, base: nat, first: nat, n: nat, off: nat, count: nat, nodes: set<Node>)
    requires Straight(base, n) && first == Vpn(base) && off + count <= n && Serving(nodes, first, n)
    requires r.where == base + PAGE_SIZE * off && r.size == PAGE_SIZE * count
    ensures TouchedAll([r]) <= nodes
  {
    assert r.Pages() == count;
    TouchedSingle(r);
    TouchedInWindow(base, first, n, off, count, nodes);
  }

  predicate PartServed(p: Phdr, kind: SegmentKind, physBase: nat, virtBase: nat, nodes: set<Node>) {
    TouchedAll(SegmentPart(p, kind, physBase, virtBase)) <= nodes
  }

  lemma {:induction false} PartsServed(phdrs: seq<Phdr>, kind: SegmentKind, physBase: nat, virtBase: nat, k: nat, nodes: set<Node>)
    requires k <= |phdrs| && forall i :: 0 <= i < |phdrs| ==> PartServed(phdrs[i], kind, physBase, virtBase, nodes)
    ensures TouchedAll(SegmentRequests(phdrs, kind, physBase, virtBase, k)) <= nodes
  {
    if k > 0 {
      PartsServed(phdrs, kind, physBase, virtBase, k - 1, nodes);
      TouchedAppend(SegmentRequests(phdrs, kind, physBase, virtBase, k - 1), SegmentPart(phdrs[k - 1], kind, physBase, virtBase));
      assert PartServed(phdrs[k - 1], kind, physBase, virtBase, nodes);
    }
  }

  lemma SegmentsTouched(phdrs: seq<Phdr>, kind: SegmentKind, physBase: nat, virtBase: nat, image: nat, n: nat, nodes: set<Node>)
    requires ImageOk(phdrs, physBase, virtBase, n) && image == Vpn(virtBase) && kind != OtherSegment
    requires Serving(nodes, image, n)
    ensures TouchedAll(SegmentRequests(phdrs, kind, physBase, virtBase, |phdrs|)) <= nodes
  {
    forall i | 0 <= i < |phdrs|
      ensures PartServed(phdrs[i], kind, physBase, virtBase, nodes)
    {
      SegmentPartTouched(phdrs[i], kind, physBase, virtBase, image, n, nodes);
    }
    PartsServed(phdrs, kind, physBase, virtBase, |phdrs|, nodes);
  }

  lemma WindowCount(first: nat, n: nat)
    ensures |WindowTables(first, n)| <= MostTables(n)
  {
    if n > 0 {
      TablesCounted(first, LastPage(first, n));
      TableCountBound(first, LastPage(first, n), n);
    }
  }

  /** All tables of a boot serve one of its two windows. */
  lemma BootTables(b: Boot)
    requires b.Ok()
    ensures |TouchedAll(b.Requests())| <= MostTables(b.frames) + MostTables(b.imagePages)
  {
    var low, image := Vpn(b.hhdm), Vpn(b.virtBase);
    var lower, upper := WindowTables(low, b.frames), WindowTables(image, b.imagePages);
    var hs := HhdmRequests(b.entries, b.hhdm, |b.entries|);
    var loads := SegmentRequests(b.phdrs, Load, b.physBase, b.virtBase, |b.phdrs|);
    var relros := SegmentRequests(b.phdrs, GnuRelro, b.physBase, b.virtBase, |b.phdrs|);
    TouchedAppend(hs + loads, relros);
    TouchedAppend(hs, loads);
    WindowServes(low, b.frames);
    WindowServes(image, b.imagePages);
    HhdmTouched(b.entries, b.hhdm, low, b.frames, |b.entries|, lower);
    SegmentsTouched(b.phdrs, Load, b.physBase, b.virtBase, image, b.imagePages, upper);
    SegmentsTouched(b.phdrs, GnuRelro, b.physBase, b.virtBase, image, b.imagePages, upper);
    SubsetCount(TouchedAll(b.Requests()), lower + upper);
    WindowCount(low, b.frames);
    WindowCount(image, b.imagePages);
    UnionCount(lower, upper);
  }

  lemma UnionCount(x: set<Node>, y: set<Node>)
    ensures |x + y| <= |x| + |y|
  {
    assert x + y == x + (y - x);
    SubsetCount(y - x, y);
  }

  /** No mapped segment is writable and executable. */
  predicate SegmentsSafe(phdrs: seq<Phdr>) {
    forall i :: 0 <= i < |phdrs| && phdrs[i].kind != OtherSegment ==>
      !(phdrs[i].flags % 2 == 1 && phdrs[i].flags / 2 % 2 == 1)
  }

  lemma {:induction false} HhdmRequestsOk(entries: seq<MemmapEntry>, hhdm: nat, frames: nat, k: nat)
    requires HhdmOk(entries, hhdm, frames) && hhdm > 0 && k <= |entries|
    ensures forall r :: r in HhdmRequests(entries, hhdm, k) ==> r.Ok()
  {
    if k > 0 {
      HhdmRequestsOk(entries, hhdm, frames, k - 1);
      HhdmPartFine(entries[k - 1], hhdm, frames);
    }
  }

  lemma HhdmPartFine(e: MemmapEntry, hhdm: nat, frames: nat)
    requires hhdm % PAGE_SIZE == 0 && 0 < hhdm && hhdm + PAGE_SIZE * frames <= TWO64
    requires HhdmFlags(e.kind).Some? ==> e.Aligned() && e.End() <= PAGE_SIZE * frames
    ensures forall r :: r in HhdmPart(e, hhdm) ==> r.Ok()
  {
    if HhdmFlags(e.kind).Some? {
      var off, count := e.base / PAGE_SIZE, e.length / PAGE_SIZE;
      EntryPages(e, off, count);
      AlignedSum(hhdm, off);
    }
  }

  lemma AlignedSum(hhdm: nat, off: nat)
    requires hhdm % PAGE_SIZE == 0 && hhdm + PAGE_SIZE * off <= TWO64
    ensures PhyToVirt(hhdm, PAGE_SIZE * off) % PAGE_SIZE == 0
    ensures hhdm + PAGE_SIZE * off < TWO64 ==> PhyToVirt(hhdm, PAGE_SIZE * off) == hhdm + PAGE_SIZE * off
  {
  }

  lemma {:induction false} SegmentRequestsOk(phdrs: seq<Phdr>, kind: SegmentKind, physBase: nat, virtBase: nat, n: nat, k: nat)
    requires ImageOk(phdrs, physBase, virtBase, n) && virtBase > 0 && SegmentsSafe(phdrs) && k <= |phdrs| && kind != OtherSegment
    ensures forall r :: r in SegmentRequests(phdrs, kind, physBase, virtBase, k) ==> r.Ok()
  {
    if k > 0 {
      SegmentRequestsOk(phdrs, kind, physBase, virtBase, n, k - 1);
      SegmentPartFine(phdrs[k - 1], kind, physBase, virtBase, n);
    }
  }

  lemma SegmentPartFine(p: Phdr, kind: SegmentKind, physBase: nat, virtBase: nat, n: nat)
    requires physBase % PAGE_SIZE == 0 && physBase + PAGE_SIZE * n <= 0x10_0000_0000_0000
    requires virtBase % PAGE_SIZE == 0 && 0 < virtBase && virtBase + PAGE_SIZE * n <= TWO64
    requires p.kind == kind ==>
      p.vaddr < PAGE_SIZE * n && p.vaddr + p.memsz <= PAGE_SIZE * n && !(p.flags % 2 == 1 && p.flags / 2 % 2 == 1)
    ensures forall r :: r in SegmentPart(p, kind, physBase, virtBase) ==> r.Ok()
  {
    if p.kind == kind {
      var off, end := p.vaddr / PAGE_SIZE, (p.vaddr + p.memsz + PAGE_SIZE - 1) / PAGE_SIZE;
      SegmentRequestPages(p, physBase, virtBase, n, off, end - off);
      SegmentFlagBits(p.flags);
    }
  }

  lemma BootRequestsOk(b: Boot)
    requires b.Ok() && AbovePageZero(b) && SegmentsSafe(b.phdrs)
    ensures forall r :: r in b.Requests() ==> r.Ok()
  {
    HhdmRequestsOk(b.entries, b.hhdm, b.frames, |b.entries|);
    SegmentRequestsOk(b.phdrs, Load, b.physBase, b.virtBase, b.imagePages, |b.phdrs|);
    SegmentRequestsOk(b.phdrs, GnuRelro, b.physBase, b.virtBase, b.imagePages, |b.phdrs|);
  }

  /** A boot that fits its windows starts whenever the bitmap has a home and the free pages exceed what the windows can need. */
  lemma EnoughToStart(b: Boot, home: nat)
    requires b.Ok() && AbovePageZero(b) && SegmentsSafe(b.phdrs) && BitmapHome(b, home)
    requires MostTables(b.frames) + MostTables(b.imagePages) < |FreeAtBoot(b, home)|
    ensures CanStart(b)
  {
    BootTables(b);
    BootRequestsOk(b);
    Starts(b, home, MostTables(b.frames) + MostTables(b.imagePages));
  }

  lemma Starts(b: Boot, home: nat, tables: int)
    requires BitmapHome(b, home) && |TouchedAll(b.Requests())| <= tables < |FreeAtBoot(b, home)|
    requires forall r :: r in b.Requests() ==> r.Ok()
    ensures CanStart(b)
  {
  }
}
