/**
  Whole runs of the memory manager. A ledger adds to the state which pages the manager was given and which
  of them its callers hold; every operation is a step from one ledger to the next.
 */
module Runs {
  import opened Wrappers
  import opened Bits
  import opened PhysicalMemory
  import opened Bitmap
  import opened Paging
  import opened KernelSpace
  import opened Mapping
  import opened MapTheorems
  import opened BootTheorems
  import opened MemoryManager

  datatype Ledger = Ledger(space: Space, held: set<nat>, managed: set<nat>)

  /** A managed page is free, held by a caller, part of the bitmap, or a table, and a held page is nothing else. */
  ghost predicate Accounted(s: Space, held: set<nat>, managed: set<nat>)
    requires s.Placed()
  {
    && (forall p: nat :: p in managed <==> p in held || p in s.Free() || p in BitmapFrames(s.bitmap, s.pages) || IsTable(s.tables, p))
    && (forall p: nat :: p in held ==> p < s.pages && p !in s.Free() && p !in BitmapFrames(s.bitmap, s.pages) && !IsTable(s.tables, p))
  }

  /** No address is writable and executable or open to user mode, and page 0 is not mapped. */
  ghost predicate Guarded(s: Space)
    requires TablesInside(s)
  {
    && (forall v: nat :: Hardened(Lookup(s.mem, s.tables, v)))
    && Lookup(s.mem, s.tables, 0) == NotMapped
  }

  /** What holds in every reachable state. */
  ghost predicate Inv(k: Ledger) {
    Sound(k.space) && Accounted(k.space, k.held, k.managed) && Guarded(k.space)
  }

  datatype Event =
    | Alloc(first: nat, count: nat)
    | Release(first: nat, count: nat)
    | Map(request: Request)
    | TakeIn(claimed: set<nat>, stack: set<nat>)
    | Zero
    | Write

  /** All pages of the request have canonical addresses. */
  predicate CanonicalRequest(r: Request) {
    forall j: nat :: j < r.Pages() ==> Canonical(PageAt(r.where, j))
  }

  /** Memory changed only in pages that callers hold or that the manager does not know. */
  ghost predicate Written(k: Ledger, m: Memory) {
    && |m| == |k.space.mem|
    && forall p: nat {:trigger SamePage(k.space.mem, m, p)} ::
         PageInside(k.space.mem, p) && p in k.managed && p !in k.held ==> SamePage(k.space.mem, m, p)
  }

  /**
    One operation. Its effect on the state is what its method promises; the conditions on the arguments are
    those a caller must keep: free what it holds, map canonical addresses, reclaim memory unknown so far.
   */
  ghost predicate Operation(k: Ledger, e: Event, k': Ledger)
    requires Sound(k.space)
  {
    var s, t := k.space, k'.space;
    match e
    case Alloc(i, count) =>
      && FirstRun(s.Free(), s.pages, i, count) && t == s.(mem := t.mem)
      && Marked(s.mem, t.mem, s.bitmap, s.pages, i, i + count, false)
      && k'.held == k.held + Range(i, i + count) && k'.managed == k.managed
    case Release(i, count) =>
      && Range(i, i + count) <= k.held && (count == 0 || i + count <= s.pages) && t == s.(mem := t.mem)
      && Marked(s.mem, t.mem, s.bitmap, s.pages, i, i + count, true)
      && k'.held == k.held - Range(i, i + count) && k'.managed == k.managed
    case Map(r) =>
      && r.Ok() && CanonicalRequest(r) && r.where < TWO64
      && Remaps(s, t, r.what, r.where, r.flags, r.Pages())
      && k'.held == k.held && k'.managed == k.managed
    case TakeIn(claimed, stack) =>
      && claimed !! k.managed
      && Reclaimed(s, t, claimed, stack)
      && k'.held == k.held + (s.Free() + claimed) * stack && k'.managed == k.managed + claimed
    case Zero =>
      && Zeroed(s, t, s.pages)
      && k'.held == k.held && k'.managed == k.managed
    case Write =>
      && t == s.(mem := t.mem) && Written(k, t.mem)
      && k'.held == k.held && k'.managed == k.managed
  }

  /** The translation requests among the first events. */
  function Maps(events: seq<Event>): seq<Request> {
    if events == [] then []
    else
      var last := events[|events| - 1];
      Maps(events[..|events| - 1]) + (if last.Map? then [last.request] else [])
  }

  ghost predicate Translates(s: Space, t: Space, reqs: seq<Request>)
    requires TablesInside(s) && TablesInside(t)
  {
    forall v: nat :: Lookup(t.mem, t.tables, v) == OverlayAll(Lookup(s.mem, s.tables, v), v, reqs)
  }

  // ----- Each kind of step keeps the invariant

  lemma SameTranslations(s: Space, t: Space)
    requires TablesInside(s) && TablesInside(t) && Guarded(s)
    requires forall v: nat :: Lookup(t.mem, t.tables, v) == Lookup(s.mem, s.tables, v)
    ensures Guarded(t)
  {
  }

  lemma AllocKeeps(k: Ledger, k': Ledger, i: nat, count: nat)
    requires Inv(k) && Operation(k, Alloc(i, count), k')
    ensures Inv(k') && forall v: nat :: Lookup(k'.space.mem, k'.space.tables, v) == Lookup(k.space.mem, k.space.tables, v)
  {
    var s := k.space;
    AllocInside(s.Free(), s.pages, i, count);
    TakePages(s, k'.space.mem, i, i + count);
    SameTranslations(s, k'.space);
    forall p | p in Range(i, i + count)
      ensures p in s.Free() && !IsTable(s.tables, p)
    {
      FreeIsNoTable(s, p);
    }
  }

  lemma AllocInside(free: set<nat>, n: nat, i: nat, count: nat)
    requires i < n && RunAt(free, i, count) && forall p :: p in free ==> p < n
    ensures count == 0 || i + count <= n
    ensures Range(i, i + count) <= free
  {
    if count > 0 { assert i + count - 1 in free; }
  }

  lemma ReleaseKeeps(k: Ledger, k': Ledger, i: nat, count: nat)
    requires Inv(k) && Operation(k, Release(i, count), k')
    ensures Inv(k') && forall v: nat :: Lookup(k'.space.mem, k'.space.tables, v) == Lookup(k.space.mem, k.space.tables, v)
  {
    var s := k.space;
    MarkedIsFreed(s.mem, k'.space.mem, s.bitmap, s.pages, i, i + count);
    GivePages(s, k'.space.mem, Range(i, i + count));
    SameTranslations(s, k'.space);
  }

  lemma MarkedIsFreed(m: Memory, m': Memory, bm: nat, n: nat, lo: nat, hi: nat)
    requires Placed(m, bm, n) && Marked(m, m', bm, n, lo, hi, true)
    ensures Freed(m, m', bm, n, Range(lo, hi))
  {
  }

  lemma GrownAccounts(s: Space, t: Space, held: set<nat>, managed: set<nat>)
    requires Sound(s) && Sound(t) && SameLayout(s, t) && Accounted(s, held, managed)
    requires Grown(s.Free(), s.tables, t.Free(), t.tables)
    ensures Accounted(t, held, managed)
  {
    forall p: nat | IsTable(t.tables, p)
      ensures IsTable(s.tables, p) || p in s.Free()
    {
      var n :| n in t.tables && t.tables[n] == p;
      if n in s.tables { assert s.tables[n] == p; }
    }
    forall p: nat | IsTable(s.tables, p)
      ensures IsTable(t.tables, p)
    {
      TableStays(s.tables, t.tables, p);
    }
  }

  /** Page 0 is out of reach of acceptable requests for canonical addresses. */
  lemma CanonicalMissesZero(r: Request, j: nat)
    requires r.Ok() && CanonicalRequest(r) && j < r.Pages() && r.where < TWO64
    ensures Vpn(PageAt(r.where, j)) != 0
  {
  }

  lemma MapGuards(s: Space, t: Space, r: Request)
    requires TablesInside(s) && TablesInside(t) && Guarded(s) && r.Ok() && CanonicalRequest(r) && r.where < TWO64
    requires forall v: nat ::
      Lookup(t.mem, t.tables, v) == Overlay(Lookup(s.mem, s.tables, v), v, r.what, r.where, r.flags, r.Pages())
    ensures Guarded(t)
  {
    forall v: nat
      ensures Hardened(Lookup(t.mem, t.tables, v))
    {
      OverlayHardened(Lookup(s.mem, s.tables, v), v, r.what, r.where, r.flags, r.Pages());
    }
    forall j: nat | j < r.Pages()
      ensures Vpn(PageAt(r.where, j)) != 0
    {
      CanonicalMissesZero(r, j);
    }
    OverlayKeepsPageZero(NotMapped, r.what, r.where, r.flags, r.Pages());
  }

  lemma MapKeeps(k: Ledger, k': Ledger, r: Request)
    requires Inv(k) && Operation(k, Map(r), k')
    ensures Inv(k')
  {
    GrownAccounts(k.space, k'.space, k.held, k.managed);
    MapGuards(k.space, k'.space, r);
  }

  lemma ReclaimKeeps(k: Ledger, k': Ledger, claimed: set<nat>, stack: set<nat>)
    requires Inv(k) && Operation(k, TakeIn(claimed, stack), k')
    ensures Inv(k') && forall v: nat :: Lookup(k'.space.mem, k'.space.tables, v) == Lookup(k.space.mem, k.space.tables, v)
  {
    var s, t := k.space, k'.space;
    SameTranslations(s, t);
    forall p | p in s.Free()
      ensures !IsTable(s.tables, p)
    {
      FreeIsNoTable(s, p);
    }
  }

  lemma ZeroKeeps(k: Ledger, k': Ledger)
    requires Inv(k) && Operation(k, Zero, k')
    ensures Inv(k') && forall v: nat :: Lookup(k'.space.mem, k'.space.tables, v) == Lookup(k.space.mem, k.space.tables, v)
  {
  }

  lemma WriteKeeps(k: Ledger, k': Ledger)
    requires Inv(k) && Operation(k, Write, k')
    ensures Inv(k') && forall v: nat :: Lookup(k'.space.mem, k'.space.tables, v) == Lookup(k.space.mem, k.space.tables, v)
  {
    var s, t := k.space, k'.space;
    BitmapWritten(s, t.mem);
    forall n | n in s.tables
      ensures SamePage(s.mem, t.mem, s.tables[n]) && Reserved(t, s.tables[n])
    {
      assert IsTable(s.tables, s.tables[n]) && Reserved(s, s.tables[n]);
    }
    TreeFrame(s.mem, t.mem, s.tables, s.root);
    SameTranslations(s, t);
  }

  lemma WrittenFree(k: Ledger, m: Memory)
    requires Inv(k) && Written(k, m)
    ensures Placed(m, k.space.bitmap, k.space.pages) && Free(m, k.space.bitmap, k.space.pages) == k.space.Free()
  {
    BitmapWritten(k.space, m);
  }

  lemma BitmapWritten(s: Space, m: Memory)
    requires s.Placed() && |m| == |s.mem|
    requires forall f: nat :: f in BitmapFrames(s.bitmap, s.pages) ==> SamePage(s.mem, m, f)
    ensures Placed(m, s.bitmap, s.pages) && Free(m, s.bitmap, s.pages) == s.Free()
    ensures PaddingClear(s.mem, s.bitmap, s.pages) ==> PaddingClear(m, s.bitmap, s.pages)
  {
    forall k | s.bitmap <= k < s.bitmap + BitmapBytes(s.pages)
      ensures m[k] == s.mem[k]
    {
      BitmapByte(s.bitmap, s.pages, k);
      assert SamePage(s.mem, m, k / PAGE_SIZE);
    }
    FreeFrame(s.mem, m, s.bitmap, s.pages);
  }

  lemma OperationKeeps(k: Ledger, e: Event, k': Ledger)
    requires Inv(k) && Operation(k, e, k')
    ensures Inv(k') && Translates(k.space, k'.space, if e.Map? then [e.request] else [])
  {
    match e
    case Alloc(i, count) => AllocKeeps(k, k', i, count);
    case Release(i, count) => ReleaseKeeps(k, k', i, count);
    case Map(r) =>
      MapKeeps(k, k', r);
      OneRequest(k.space, k'.space, r);
    case TakeIn(claimed, stack) => ReclaimKeeps(k, k', claimed, stack);
    case Zero => ZeroKeeps(k, k');
    case Write => WriteKeeps(k, k');
  }

  lemma OneRequest(s: Space, t: Space, r: Request)
    requires TablesInside(s) && TablesInside(t)
    requires forall v: nat ::
      Lookup(t.mem, t.tables, v) == Overlay(Lookup(s.mem, s.tables, v), v, r.what, r.where, r.flags, r.Pages())
    ensures Translates(s, t, [r])
  {
  }

  // ----- Runs

  /** A sequence of operations and the ledgers between them, from a state that satisfies the invariant. */
  ghost predicate Trace(ledgers: seq<Ledger>, events: seq<Event>) {
    && |ledgers| == |events| + 1
    && Inv(ledgers[0])
    && forall i: nat {:trigger TraceAt(ledgers, events, i)} :: i < |events| ==> TraceAt(ledgers, events, i)
  }

  ghost predicate TraceAt(ledgers: seq<Ledger>, events: seq<Event>, i: nat)
    requires |ledgers| == |events| + 1 && i < |events|
  {
    Sound(ledgers[i].space) && Operation(ledgers[i], events[i], ledgers[i + 1])
  }

  /**
    Over every run the invariant is kept, and translations change by the mapping requests alone: allocating,
    freeing, reclaiming, clearing and writing to one's own pages never change what any address means.
   */
  lemma {:induction false} TraceKeeps(ledgers: seq<Ledger>, events: seq<Event>)
    requires Trace(ledgers, events)
    ensures Inv(ledgers[|events|]) && Translates(ledgers[0].space, ledgers[|events|].space, Maps(events))
    decreases |events|
  {
    if events != [] {
      var n := |events| - 1;
      TraceHead(ledgers, events, n);
      TraceKeeps(ledgers[..n + 1], events[..n]);
      assert TraceAt(ledgers, events, n);
      OperationKeeps(ledgers[n], events[n], ledgers[n + 1]);
      TranslatesThen(ledgers[0].space, ledgers[n].space, ledgers[n + 1].space, Maps(events[..n]),
                     if events[n].Map? then [events[n].request] else []);
    }
  }

  /** The first `i` operations of a run are a run. */
  lemma TraceHead(ledgers: seq<Ledger>, events: seq<Event>, i: nat)
    requires Trace(ledgers, events) && i <= |events|
    ensures Trace(ledgers[..i + 1], events[..i])
  {
    var ledgers', events' := ledgers[..i + 1], events[..i];
    forall j: nat | j < i
      ensures TraceAt(ledgers', events', j)
    {
      assert TraceAt(ledgers, events, j);
    }
  }

  lemma TranslatesThen(s: Space, t: Space, u: Space, reqs: seq<Request>, more: seq<Request>)
    requires TablesInside(s) && TablesInside(t) && TablesInside(u)
    requires Translates(s, t, reqs) && Translates(t, u, more)
    ensures Translates(s, u, reqs + more)
  {
    forall v: nat
      ensures Lookup(u.mem, u.tables, v) == OverlayAll(Lookup(s.mem, s.tables, v), v, reqs + more)
    {
      OverlayAllAppend(Lookup(s.mem, s.tables, v), v, reqs, more);
    }
  }

  /** The part of a run after its first `i` operations is a run. */
  lemma TraceTail(ledgers: seq<Ledger>, events: seq<Event>, i: nat)
    requires Trace(ledgers, events) && i <= |events|
    ensures Trace(ledgers[i..], events[i..])
  {
    TraceHead(ledgers, events, i);
    TraceKeeps(ledgers[..i + 1], events[..i]);
    forall j: nat | j < |events[i..]|
      ensures TraceAt(ledgers[i..], events[i..], j)
    {
      assert TraceAt(ledgers, events, i + j);
    }
  }

  // ----- What the invariant means

  /** No address is ever writable and executable, open to user mode, or a fault, and virtual page 0 is never mapped. */
  lemma TraceSafe(ledgers: seq<Ledger>, events: seq<Event>, v: nat)
    requires Trace(ledgers, events) && v < VPNS
    ensures var t := ledgers[|events|].space.Walk(v);
      && !t.Fault?
      && (t.Mapped? ==> !(t.rights.writable && t.rights.executable) && !t.rights.user)
      && (v == 0 ==> t.NotMapped?)
  {
    TraceKeeps(ledgers, events);
    var s := ledgers[|events|].space;
    WalksAreLookups(s);
    assert Hardened(Lookup(s.mem, s.tables, v));
  }

  /** A page that is not free stays so while no event releases it or takes it in, so no allocation returns it. */
  lemma {:induction false} StaysTaken(ledgers: seq<Ledger>, events: seq<Event>, p: nat)
    requires Trace(ledgers, events) && p !in ledgers[0].space.Free()
    requires forall e :: e in events && e.Release? ==> !(e.first <= p < e.first + e.count)
    requires forall e :: e in events && e.TakeIn? ==> p !in e.claimed
    ensures Inv(ledgers[|events|]) && p !in ledgers[|events|].space.Free()
    ensures forall e :: e in events && e.Alloc? ==> !(e.first <= p < e.first + e.count)
    decreases |events|
  {
    if events == [] {
      TraceKeeps(ledgers, events);
    } else {
      var n := |events| - 1;
      TraceHead(ledgers, events, n);
      StaysTaken(ledgers[..n + 1], events[..n], p);
      assert TraceAt(ledgers, events, n);
      assert events[n] in events && events == events[..n] + [events[n]];
      StepTakes(ledgers[n], events[n], ledgers[n + 1], p);
    }
  }

  lemma StepTakes(k: Ledger, e: Event, k': Ledger, p: nat)
    requires Inv(k) && Operation(k, e, k') && p !in k.space.Free()
    requires (e.Release? ==> !(e.first <= p < e.first + e.count)) && (e.TakeIn? ==> p !in e.claimed)
    ensures Inv(k') && p !in k'.space.Free() && (e.Alloc? ==> !(e.first <= p < e.first + e.count))
  {
    var s, t := k.space, k'.space;
    OperationKeeps(k, e, k');
    match e
    case Alloc(i, count) =>
      AllocInside(s.Free(), s.pages, i, count);
      MarkedFree(s.mem, t.mem, s.bitmap, s.pages, i, i + count, false);
    case Release(i, count) => MarkedFree(s.mem, t.mem, s.bitmap, s.pages, i, i + count, true);
    case Map(r) =>
    case TakeIn(claimed, stack) =>
    case Zero =>
    case Write => WrittenFree(k, t.mem);
  }

  /** Pages handed out were free: they are no table, no part of the bitmap and held by no one else. */
  lemma AllocFresh(k: Ledger, k': Ledger, i: nat, count: nat, p: nat)
    requires Inv(k) && Operation(k, Alloc(i, count), k') && i <= p < i + count
    ensures p in k.managed && p in k'.held && p !in k.held
    ensures !IsTable(k.space.tables, p) && p !in BitmapFrames(k.space.bitmap, k.space.pages)
  {
    AllocInside(k.space.Free(), k.space.pages, i, count);
    assert p in Range(i, i + count);
    FreeIsNoTable(k.space, p);
  }

  /**
    Following pointers from the root along any two paths of present non-leaf entries never leads to the same
    table twice, and every table reached is a managed page that is neither free nor held.
   */
  lemma TablesFormTree(k: Ledger, level: nat, prefix: nat, level': nat, prefix': nat)
    requires Inv(k) && level <= 3 && level' <= 3
    requires TableAt(k.space.mem, k.space.root, level, prefix).Some?
    ensures TableAt(k.space.mem, k.space.root, level, prefix) == TableAt(k.space.mem, k.space.root, level', prefix') ==>
      level == level' && prefix == prefix'
    ensures var f := TableAt(k.space.mem, k.space.root, level, prefix).value;
      f in k.managed && f !in k.space.Free() && f !in k.held
  {
    var s := k.space;
    TableAtIsNode(s.mem, s.tables, s.root, level, prefix);
    assert IsTable(s.tables, s.tables[Node(level, prefix)]) && Reserved(s, s.tables[Node(level, prefix)]);
    if TableAt(s.mem, s.root, level, prefix) == TableAt(s.mem, s.root, level', prefix') {
      NoSharedTable(s.mem, s.tables, s.root, level, prefix, level', prefix');
    }
  }

  /** No entry above the last level is a large page. */
  lemma NoLargePages(k: Ledger, level: nat, prefix: nat, i: nat)
    requires Inv(k) && 0 < level <= 3 && i < 512
    requires TableAt(k.space.mem, k.space.root, level, prefix).Some?
    ensures var f := TableAt(k.space.mem, k.space.root, level, prefix).value;
      && PageInside(k.space.mem, f)
      && (Present(Entry(k.space.mem, f, i)) ==> !LargePage(Entry(k.space.mem, f, i)) && !UserMode(Entry(k.space.mem, f, i)))
  {
    var s := k.space;
    TableAtIsNode(s.mem, s.tables, s.root, level, prefix);
    assert Links(Entry(s.mem, s.tables[Node(level, prefix)], i), s.tables, Child(Node(level, prefix), i));
  }

  /** The frames of the tables; no two tables share one. */
  function FramesOf(tabs: map<Node, nat>): set<nat> {
    set n | n in tabs :: tabs[n]
  }

  lemma {:induction false} FrameCount(tabs: map<Node, nat>)
    requires forall n, n' :: n in tabs && n' in tabs && tabs[n] == tabs[n'] ==> n == n'
    ensures |FramesOf(tabs)| == |tabs|
    decreases |tabs|
  {
    if tabs != map[] {
      var n :| n in tabs;
      var rest := tabs - {n};
      assert rest.Keys == tabs.Keys - {n};
      FrameCount(rest);
      OneMoreFrame(tabs, rest, n);
    }
  }

  lemma OneMoreFrame(tabs: map<Node, nat>, rest: map<Node, nat>, n: Node)
    requires n in tabs && rest == tabs - {n}
    ensures FramesOf(tabs) == FramesOf(rest) + {tabs[n]}
  {
    forall f | f in FramesOf(tabs)
      ensures f in FramesOf(rest) + {tabs[n]}
    {
      var k :| k in tabs && tabs[k] == f;
      assert k == n || (k in rest && rest[k] == f);
    }
    forall f | f in FramesOf(rest)
      ensures f in FramesOf(tabs)
    {
      var k :| k in rest && rest[k] == f;
      assert k in tabs && tabs[k] == f;
    }
  }

  lemma {:induction false} RangeCount(lo: nat, hi: nat)
    requires lo <= hi
    ensures |Range(lo, hi)| == hi - lo
    decreases hi - lo
  {
    if lo == hi {
      assert Range(lo, hi) == {};
    } else {
      RangeCount(lo, hi - 1);
      assert Range(lo, hi) == Range(lo, hi - 1) + {hi - 1};
    }
  }

  /** No page is lost: managed pages are free, held, bitmap or table pages, each counted once. */
  lemma Conservation(k: Ledger)
    requires Inv(k)
    ensures |k.managed| == |k.held| + |k.space.Free()| + BitmapPages(k.space.pages) + |k.space.tables|
  {
    var s := k.space;
    var frames := FramesOf(s.tables);
    DistinctFrames(s);
    FrameCount(s.tables);
    BitmapCount(s.bitmap, s.pages);
    forall p | p in frames
      ensures Reserved(s, p) && IsTable(s.tables, p)
    {
      var n :| n in s.tables && s.tables[n] == p;
      assert Reserved(s, s.tables[n]);
    }
    FourParts(k.managed, k.held, s.Free(), BitmapFrames(s.bitmap, s.pages), frames);
  }

  lemma BitmapCount(bm: nat, n: nat)
    ensures |BitmapFrames(bm, n)| == BitmapPages(n)
  {
    RangeCount(bm / PAGE_SIZE, bm / PAGE_SIZE + BitmapPages(n));
  }

  lemma DistinctFrames(s: Space)
    requires Sound(s)
    ensures forall n, n' :: n in s.tables && n' in s.tables && s.tables[n] == s.tables[n'] ==> n == n'
  {
    forall n, n' | n in s.tables && n' in s.tables && s.tables[n] == s.tables[n']
      ensures n == n'
    {
      assert SameFrame(s.tables, n, n');
    }
  }

  lemma FourParts(all: set<nat>, a: set<nat>, b: set<nat>, c: set<nat>, d: set<nat>)
    requires a !! b && a !! c && a !! d && b !! c && b !! d && c !! d
    requires forall p :: p in all <==> p in a || p in b || p in c || p in d
    ensures |all| == |a| + |b| + |c| + |d|
  {
    assert all == a + b + c + d;
  }

  // ----- The last mapping of a page decides

  /** A canonical range that wraps nowhere lies in one half of the address space. */
  lemma CanonicalStraight(r: Request)
    requires r.Ok() && CanonicalRequest(r) && r.Pages() > 0 && r.where < TWO64
    ensures Straight(r.where, r.Pages())
  {
    var n := r.Pages();
    if r.where < 0x8000_0000_0000 && r.where + PAGE_SIZE * n > 0x8000_0000_0000 {
      var j := ReachesMiddle(r.where, n);
      assert false;
    }
    assert PageAt(r.where, 0) == r.where;
    CanonicalRangeIsStraight(r.where, n);
  }

  lemma ReachesMiddle(where: nat, n: nat) returns (j: nat)
    requires where % PAGE_SIZE == 0 && where < 0x8000_0000_0000 < where + PAGE_SIZE * n
    ensures j < n && PageAt(where, j) == 0x8000_0000_0000
  {
    j := 0x8_0000_0000 - where / PAGE_SIZE;
  }

  predicate Misses(r: Request, v: nat) {
    forall j: nat :: j < r.Pages() ==> Vpn(PageAt(r.where, j)) != v
  }

  lemma {:induction false} OverlayMisses(before: Translation, v: nat, r: Request, k: nat)
    requires Misses(r, v) && k <= r.Pages()
    ensures Overlay(before, v, r.what, r.where, r.flags, k) == before
  {
    if k > 0 { OverlayMisses(before, v, r, k - 1); }
  }

  lemma {:induction false} AllMiss(before: Translation, v: nat, events: seq<Event>)
    requires forall e :: e in events && e.Map? ==> Misses(e.request, v)
    ensures OverlayAll(before, v, Maps(events)) == before
  {
    if events != [] {
      var front, last := events[..|events| - 1], events[|events| - 1];
      AllMiss(before, v, front);
      var reqs := if last.Map? then [last.request] else [];
      OverlayAllAppend(before, v, Maps(front), reqs);
      if last.Map? {
        OverlayAllOne(before, v, last.request);
        OverlayMisses(before, v, last.request, last.request.Pages());
      }
    }
  }

  /**
    In every run, a page translates as its last mapping request asked: to the requested page, with exactly the
    requested write and execute rights and cache mode, whatever happened since. User access is always denied.
   */
  lemma LastMappingDecides(ledgers: seq<Ledger>, events: seq<Event>, i: nat, j: nat)
    requires Trace(ledgers, events) && i < |events| && events[i].Map? && j < events[i].request.Pages()
    requires var v := Vpn(PageAt(events[i].request.where, j));
      forall e :: e in events[i + 1..] && e.Map? ==> Misses(e.request, v)
    ensures var r := events[i].request;
      ledgers[|events|].space.Walk(Vpn(PageAt(r.where, j))) ==
        Mapped(FrameOf(PageAt(r.what, j)), Rights(r.flags % 2 == 1, r.flags / 2 % 2 == 1, false),
               if r.flags / 8 % 4 == 1 then 2 else if r.flags / 8 % 4 == 2 then 5 else 0)
  {
    var r, v, n := events[i].request, Vpn(PageAt(events[i].request.where, j)), |events|;
    TraceTail(ledgers, events, i);
    assert TraceAt(ledgers, events, i);
    MappedPage(ledgers[i], ledgers[i + 1], r, j, v);
    TraceTail(ledgers, events, i + 1);
    TraceKeeps(ledgers[i + 1..], events[i + 1..]);
    AllMiss(Target(PageAt(r.what, j), r.flags), v, events[i + 1..]);
    WalksAreLookups(ledgers[n].space);
  }

  lemma MappedPage(k: Ledger, k': Ledger, r: Request, j: nat, v: nat)
    requires Inv(k) && Operation(k, Map(r), k') && j < r.Pages() && v == Vpn(PageAt(r.where, j))
    ensures TablesInside(k'.space) && Lookup(k'.space.mem, k'.space.tables, v) == Target(PageAt(r.what, j), r.flags)
  {
    CanonicalStraight(r);
    OverlayAt(Lookup(k.space.mem, k.space.tables, v), v, r.what, r.where, r.flags, r.Pages(), j);
  }
}
