/** What a mapping request means: its rights, its effect on the translation, and the tables it needs. */
module Mapping {
  import opened Bits
  import opened PhysicalMemory
  import opened Paging
  import opened KernelSpace
  import opened Bitmap

  // ----- enum memory_flags

  const M_NONE: nat := 0x0
  const M_W: nat := 0x1
  const M_X: nat := 0x2
  const M_U: nat := 0x4
  const M_CACHE_UC: nat := 0x8
  const M_CACHE_WC: nat := 0x10

  /** `flags & M_W` and its likes, as the code tests them. */
  predicate IsW(flags: nat) { flags / M_W % 2 == 1 }
  predicate IsX(flags: nat) { flags / M_X % 2 == 1 }
  predicate IsU(flags: nat) { flags / M_U % 2 == 1 }

  datatype CacheMode = WB | UC | WC | Unknown

  /** `flags & M_CACHE_MASK` */
  function Cache(flags: nat): CacheMode {
    match flags / 8 % 4
    case 0 => WB
    case 1 => UC
    case 2 => WC
    case _ => Unknown
  }

  /** Not both writable and executable, and a known cache mode. */
  predicate FlagsOk(flags: nat) {
    !(flags % 2 == 1 && flags / 2 % 2 == 1) && flags / 8 % 4 != 3
  }

  /** The three bits PAT, PCD, PWT that the flags ask for. */
  function PatOf(flags: nat): nat {
    if flags / 8 % 4 == 1 then 2 else if flags / 8 % 4 == 2 then 5 else 0
  }

  /** The three bits PAT, PCD, PWT chosen for a cache mode. */
  function PatBits(c: CacheMode): nat {
    match c
    case UC => 2
    case WC => 5
    case _ => 0
  }

  // ----- The page attribute table

  const PAT_UC: nat := 0
  const PAT_WC: nat := 1
  const PAT_WT: nat := 4
  const PAT_WP: nat := 5
  const PAT_WB: nat := 6
  const PAT_UCM: nat := 7

  /** The eight PAT entries of IA32_PAT, lowest byte first. */
  function PatMsr(): seq<nat> {
    [PAT_WB, PAT_WT, PAT_UCM, PAT_UC, PAT_WP, PAT_WC, 0, 0]
  }

  // ----- Entries

  /** The page frame number a 40-bit address field keeps of a physical address. */
  function FrameOf(what: nat): nat {
    NatOf(BitsOf(what / PAGE_SIZE, 40))
  }

  /** What a page mapped to `what` with `flags` translates to. M_U is requested in the leaf but denied by every table above it. */
  function Target(what: nat, flags: nat): Translation {
    Mapped(FrameOf(what), Rights(flags % 2 == 1, flags / 2 % 2 == 1, false), PatOf(flags))
  }

  /** A page below 2^52 fits the address field. */
  lemma FrameFits(what: nat)
    requires what < 0x10_0000_0000_0000
    ensures FrameOf(what) == what / PAGE_SIZE
  {
    Pow2Of40();
    NatOfBitsOf(what / PAGE_SIZE, 40);
  }

  /**
    The field assignments of vmm_ensure_present to a missing entry. The processor reads them as: a present,
    writable, executable, supervisor-only reference to the table in `page`. Available bits keep their value.
   */
  method FillTableEntry(e: Word, page: nat) returns (r: Word)
    ensures Present(r) && Writable(r) && !UserMode(r) && !LargePage(r) && !ExecuteDisable(r)
    ensures Address(r) == FrameOf(page)
    ensures !r[3] && !r[4] && !r[5] && r[6] == e[6]
    ensures forall k :: 8 <= k < 12 || 52 <= k < 63 ==> r[k] == e[k]
  {
    r := e[63 := false]; // xd
    r := SetField(r, 12, 40, page / 4096); // addr
    ghost var addressed := r;
    r := r[7 := false]; // ps
    r := r[5 := false]; // a
    r := r[4 := false]; // pcd
    r := r[3 := false]; // pwt
    r := r[2 := false]; // us
    r := r[1 := true]; // rw
    r := r[0 := true]; // p
    assert r[12..52] == addressed[12..52];
  }

  /**
    The field assignments of vmm_map_page to a page-table entry. The processor reads them as a mapping to
    `what` with the rights and the cache mode that `flags` ask for. Available bits keep their value.
   */
  method FillLeafEntry(e: Word, what: nat, flags: nat) returns (r: Word)
    ensures LeafTranslation(r) == Target(what, flags)
    ensures r[0] && r[1] == (flags % 2 == 1) && r[2] == (flags / 4 % 2 == 1) && r[63] == (flags / 2 % 2 == 0)
    ensures !r[5] && !r[6] && !r[8]
    ensures forall k :: 9 <= k < 12 || 52 <= k < 59 ==> r[k] == e[k]
  {
    r := e[63 := !IsX(flags)]; // xd
    r := SetField(r, 59, 4, 0); // pk
    r := SetField(r, 12, 40, what / 4096); // addr
    ghost var addressed := r;
    r := FillLeafControl(r, flags);
    assert r[12..52] == addressed[12..52];
  }

  /** The assignments to the bits below the address. */
  method FillLeafControl(e: Word, flags: nat) returns (r: Word)
    ensures forall k :: 9 <= k < 64 ==> r[k] == e[k]
    ensures r[0] && r[1] == (flags % 2 == 1) && r[2] == (flags / 4 % 2 == 1) && !r[5] && !r[6] && !r[8]
    ensures PatIndex(r, 7) == PatOf(flags)
  {
    var pat := PatBits(Cache(flags));
    r := e[8 := false]; // g
    r := r[7 := pat / 4 % 2 == 1]; // pat
    r := r[5 := false]; // a
    r := r[6 := false]; // d
    r := r[4 := pat / 2 % 2 == 1]; // pcd
    r := r[3 := pat % 2 == 1]; // pwt
    r := r[2 := IsU(flags)]; // us
    r := r[1 := IsW(flags)]; // rw
    r := r[0 := true]; // p
    PatRebuilt(Cache(flags));
  }

  lemma PatRebuilt(c: CacheMode)
    ensures var pat := PatBits(c);
      4 * Bit(pat / 4 % 2 == 1) + 2 * Bit(pat / 2 % 2 == 1) + Bit(pat % 2 == 1) == pat
  {
  }

  /** `entry->addr << 12` is the address of the table. */
  lemma EntryAddress(e: Word, f: nat)
    requires Address(e) == f && f < 0x100_0000_0000
    ensures U64(NatOf(e[12..52]) * 4096) == PAGE_SIZE * f
  {
  }

  /** The PAT entry that the leaf bits select holds the memory type the flags ask for (section 13.12 of Intel SDM Vol. 3A). */
  lemma PatSelectsRequestedType(what: nat, flags: nat)
    requires FlagsOk(flags)
    ensures PatMsr()[Target(what, flags).pat] == [6, 7, 1][flags / 8 % 4]
  {
  }

  // ----- A whole range

  /** The page number the processor extracts from an address. */
  function Vpn(where: nat): nat {
    where / PAGE_SIZE % VPNS
  }

  /** Address of the `k`-th page of a range, in 64-bit arithmetic. */
  function PageAt(base: nat, k: nat): nat {
    U64(base + PAGE_SIZE * k)
  }

  /** Translation of `v` after the first `k` pages of the range were mapped in order over `old`. */
  function Overlay(before: Translation, v: nat, what: nat, where: nat, flags: nat, k: nat): Translation {
    if k == 0 then before
    else if Vpn(PageAt(where, k - 1)) == v then Target(PageAt(what, k - 1), flags)
    else Overlay(before, v, what, where, flags, k - 1)
  }

  /** The tables below the root on the path of `v`. */
  function Path(v: nat): set<Node> {
    {Home(v, 2), Home(v, 1), Home(v, 0)}
  }

  /** All tables below the root that the first `k` pages of a range pass through. */
  function Touched(where: nat, k: nat): set<Node> {
    if k == 0 then {} else Touched(where, k - 1) + Path(Vpn(PageAt(where, k - 1)))
  }

  /** The indices the kernel takes from an address are those the processor uses. */
  lemma IndexBits(where: nat)
    ensures where / 0x80_0000_0000 % 512 == Index(Vpn(where), 3)
    ensures where / 0x4000_0000 % 512 == Index(Vpn(where), 2)
    ensures where / 0x20_0000 % 512 == Index(Vpn(where), 1)
    ensures where / 0x1000 % 512 == Index(Vpn(where), 0)
  {
    var p := where / PAGE_SIZE;
    var v := p % VPNS;
    var q := p / VPNS;
    assert p == v + VPNS * q;
    assert p / 512 == v / 512 + 0x800_0000 * q;
    assert p / 512 / 512 == v / 512 / 512 + 0x4_0000 * q;
    assert p / 512 / 512 / 512 == v / 512 / 512 / 512 + 512 * q;
    assert Prefix(v, 0) == v / 512 && Prefix(v, 1) == v / 512 / 512 && Prefix(v, 2) == v / 512 / 512 / 512;
    assert where / 0x20_0000 == p / 512;
    assert where / 0x4000_0000 == p / 512 / 512;
    assert where / 0x80_0000_0000 == p / 512 / 512 / 512;
  }

  /** What vmm_map_page demands of one page; anything else panics. Page 0 and writable executable pages are refused. */
  predicate PageOk(what: nat, where: nat, flags: nat) {
    what % PAGE_SIZE == 0 && where % PAGE_SIZE == 0 && where != 0 && FlagsOk(flags)
  }

  /**
    `t` is `s` with the first `k` pages of the range remapped in order: the translation is the overlay, the
    tables on their paths exist, those that were missing sit on pages that were free, and no other page changed.
   */
  ghost predicate Remaps(s: Space, t: Space, what: nat, where: nat, flags: nat, k: nat)
    requires Sound(s)
  {
    && Grows(s, t, Touched(where, k))
    && forall v: nat :: Lookup(t.mem, t.tables, v) == Overlay(Lookup(s.mem, s.tables, v), v, what, where, flags, k)
  }

  lemma RemapsNothing(s: Space, what: nat, where: nat, flags: nat)
    requires Sound(s)
    ensures Remaps(s, s, what, where, flags, 0)
  {
  }

  /** The tables of a page exist and its entry is stored: one page is remapped. */
  lemma RemapsOne(s: Space, t: Space, u: Space, what: nat, where: nat, flags: nat, w: Word)
    requires Sound(s) && Extends(s, t, Path(Vpn(where))) && what < TWO64 && where < TWO64
    requires Home(Vpn(where), 0) in t.tables && LeafTranslation(w) == Target(what, flags)
    requires u == t.(mem := StoreWord(t.mem, Slot(t.tables[Home(Vpn(where), 0)], Index(Vpn(where), 0)), w))
    ensures Remaps(s, u, what, where, flags, 1)
  {
    var v := Vpn(where);
    RetargetPage(t, u, v, w);
    StoredInTable(s, t, u, t.tables[Home(v, 0)], Index(v, 0), w);
    TouchedOne(where);
    OverlayOfOne(s, t, u, what, where, flags);
  }

  lemma OverlayOfOne(s: Space, t: Space, u: Space, what: nat, where: nat, flags: nat)
    requires TablesInside(s) && TablesInside(t) && TablesInside(u) && what < TWO64 && where < TWO64
    requires forall v: nat :: Lookup(t.mem, t.tables, v) == Lookup(s.mem, s.tables, v)
    requires forall v: nat :: Lookup(u.mem, u.tables, v) ==
                              if v == Vpn(where) then Target(what, flags) else Lookup(t.mem, t.tables, v)
    ensures forall v: nat :: Lookup(u.mem, u.tables, v) == Overlay(Lookup(s.mem, s.tables, v), v, what, where, flags, 1)
  {
  }

  ghost predicate TablesInside(s: Space) {
    forall n :: n in s.tables ==> PageInside(s.mem, s.tables[n])
  }

  /** Remapping one more page after `k` pages is remapping k+1 pages. */
  lemma OverlayStep(before: Translation, v: nat, what: nat, where: nat, flags: nat, k: nat)
    ensures Overlay(Overlay(before, v, what, where, flags, k), v, PageAt(what, k), PageAt(where, k), flags, 1) ==
            Overlay(before, v, what, where, flags, k + 1)
  {
  }

  lemma OverlaysThen(s: Space, t: Space, u: Space, what: nat, where: nat, flags: nat, k: nat)
    requires TablesInside(s) && TablesInside(t) && TablesInside(u)
    requires forall v: nat :: Lookup(t.mem, t.tables, v) == Overlay(Lookup(s.mem, s.tables, v), v, what, where, flags, k)
    requires forall v: nat :: Lookup(u.mem, u.tables, v) ==
                              Overlay(Lookup(t.mem, t.tables, v), v, PageAt(what, k), PageAt(where, k), flags, 1)
    ensures forall v: nat :: Lookup(u.mem, u.tables, v) == Overlay(Lookup(s.mem, s.tables, v), v, what, where, flags, k + 1)
  {
    forall v: nat
      ensures Lookup(u.mem, u.tables, v) == Overlay(Lookup(s.mem, s.tables, v), v, what, where, flags, k + 1)
    {
      OverlayStep(Lookup(s.mem, s.tables, v), v, what, where, flags, k);
    }
  }

  lemma StoredInTable(s: Space, t: Space, u: Space, pt: nat, i: nat, w: Word)
    requires DataKept(s, t) && |t.mem| == |s.mem| && IsTable(t.tables, pt) && i < 512 && PageInside(t.mem, pt)
    requires u == t.(mem := StoreWord(t.mem, Slot(pt, i), w))
    ensures DataKept(s, u)
  {
    forall g: nat | PageInside(s.mem, g) && g !in BitmapFrames(s.bitmap, s.pages) && !IsTable(u.tables, g)
      ensures SamePage(s.mem, u.mem, g)
    {
      assert SamePage(s.mem, t.mem, g);
      StoreInPage(t.mem, pt, i, w);
      OtherPageKept(t.mem, u.mem, pt, g);
    }
  }

  lemma RemapsThen(s: Space, t: Space, u: Space, what: nat, where: nat, flags: nat, k: nat)
    requires Sound(s) && Sound(t)
    requires Remaps(s, t, what, where, flags, k) && Remaps(t, u, PageAt(what, k), PageAt(where, k), flags, 1)
    ensures Remaps(s, u, what, where, flags, k + 1)
  {
    TouchedOne(PageAt(where, k));
    GrowsThen(s, t, u, Touched(where, k), Path(Vpn(PageAt(where, k))));
    OverlaysThen(s, t, u, what, where, flags, k);
  }

  lemma TouchedOne(where: nat)
    requires where < TWO64
    ensures Touched(where, 1) == Path(Vpn(where))
  {
    FirstPage(where);
    assert Touched(where, 0) == {};
  }

  lemma FirstPage(base: nat)
    requires base < TWO64
    ensures PageAt(base, 0) == base
  {
  }

  /** The free pages fall by exactly the number of tables that were missing. */
  lemma RemapsAffords(s: Space, t: Space, what: nat, where: nat, flags: nat, k: nat)
    requires Sound(s) && Remaps(s, t, what, where, flags, k)
    ensures |t.Free()| + |Missing(s.tables, Touched(where, k))| == |s.Free()|
  {
    EnoughPages(s.Free(), s.tables, t.Free(), t.tables, Touched(where, k));
  }

  /** What vmm_map demands of its arguments; anything else panics. */
  predicate MapOk(what: nat, where: nat, size: nat, flags: nat) {
    && what % PAGE_SIZE == 0 && where % PAGE_SIZE == 0 && size % PAGE_SIZE == 0
    && (size == 0 || (where != 0 && where + size <= TWO64 && FlagsOk(flags)))
  }

  /** None of the first `k` pages of the range was refused. */
  predicate Reached(where: nat, flags: nat, k: nat) {
    k > 0 ==> where != 0 && FlagsOk(flags) && where + PAGE_SIZE * k <= TWO64
  }

  /** The `k`-th page of a range that stays inside 64 bits is acceptable exactly when the range is. */
  lemma PageOfRange(what: nat, where: nat, size: nat, flags: nat, k: nat)
    requires what % PAGE_SIZE == 0 && where % PAGE_SIZE == 0 && size % PAGE_SIZE == 0
    requires where < TWO64 && PAGE_SIZE * k < size
    requires Reached(where, flags, k)
    ensures PageOk(PageAt(what, k), PageAt(where, k), flags) <==> Reached(where, flags, k + 1)
    ensures MapOk(what, where, size, flags) ==> PageOk(PageAt(what, k), PageAt(where, k), flags)
  {
    AlignedPage(what, k);
    AlignedPage(where, k);
  }

  lemma AlignedPage(base: nat, k: nat)
    requires base % PAGE_SIZE == 0
    ensures PageAt(base, k) % PAGE_SIZE == 0
    ensures base + PAGE_SIZE * k == TWO64 ==> PageAt(base, k) == 0
  {
    var p := base / PAGE_SIZE + k;
    assert PageAt(base, k) == PAGE_SIZE * (p - 0x10_0000_0000_0000 * ((base + PAGE_SIZE * k) / TWO64));
  }

  lemma {:induction false} TouchedGrows(where: nat, k: nat, n: nat)
    requires k <= n
    ensures Touched(where, k) <= Touched(where, n)
    decreases n - k
  {
    if k < n { TouchedGrows(where, k + 1, n); }
  }

  // ----- Requests, as vmm_map receives them

  datatype Request = Request(what: nat, where: nat, size: nat, flags: nat)
  {
    function Pages(): nat {
      size / PAGE_SIZE
    }

    predicate Ok() {
      MapOk(what, where, size, flags)
    }
  }

  /** vmm_map serves the request from this state: its arguments are acceptable and the free pages pay for the missing tables. */
  ghost predicate CanMap(s: Space, r: Request)
    requires s.Placed()
  {
    r.Ok() && |Missing(s.tables, Touched(r.where, r.Pages()))| <= |s.Free()|
  }

  /** The aligned request into which vmm_map_unaligned turns its arguments. */
  function AlignedRequest(what: nat, where: nat, size: nat, flags: nat): Request {
    var start := RoundDown(what, PAGE_SIZE);
    Request(start, RoundDown(where, PAGE_SIZE), U64(RoundUp(U64(what + size), PAGE_SIZE) - start), flags)
  }

  /** Translation of `v` after all requests were served in order. */
  function OverlayAll(before: Translation, v: nat, reqs: seq<Request>): Translation {
    if reqs == [] then before
    else
      var last := reqs[|reqs| - 1];
      Overlay(OverlayAll(before, v, reqs[..|reqs| - 1]), v, last.what, last.where, last.flags, last.Pages())
  }

  function TouchedAll(reqs: seq<Request>): set<Node> {
    if reqs == [] then {}
    else TouchedAll(reqs[..|reqs| - 1]) + Touched(reqs[|reqs| - 1].where, reqs[|reqs| - 1].Pages())
  }

  /** A run that serves the requests in order. */
  ghost predicate Run(states: seq<Space>, reqs: seq<Request>) {
    && |states| == |reqs| + 1
    && Sound(states[0])
    && forall i: nat {:trigger StepAt(states, reqs, i)} :: i < |reqs| ==> StepAt(states, reqs, i)
  }

  ghost predicate StepAt(states: seq<Space>, reqs: seq<Request>, i: nat)
    requires |states| == |reqs| + 1 && i < |reqs|
  {
    Step(states[i], reqs[i], states[i + 1])
  }

  /** One acceptable request is served. */
  ghost predicate Step(s: Space, r: Request, t: Space) {
    Sound(s) && Sound(t) && r.Ok() && Remaps(s, t, r.what, r.where, r.flags, r.Pages())
  }

  /** Some run that serves the requests leads from `s` to `t`. */
  ghost predicate Serves(s: Space, t: Space, reqs: seq<Request>) {
    exists states :: Run(states, reqs) && states[0] == s && states[|reqs|] == t
  }

  lemma ServesNothing(s: Space)
    requires Sound(s)
    ensures Serves(s, s, [])
  {
    assert Run([s], []);
  }

  lemma ServesThen(s: Space, t: Space, u: Space, reqs: seq<Request>, r: Request)
    requires Serves(s, t, reqs) && Step(t, r, u)
    ensures Serves(s, u, reqs + [r])
  {
    var states :| Run(states, reqs) && states[0] == s && states[|reqs|] == t;
    RunThen(states, reqs, r, u);
    var states' := states + [u];
    assert states'[0] == s && states'[|reqs + [r]|] == u;
  }

  lemma RunThen(states: seq<Space>, reqs: seq<Request>, r: Request, u: Space)
    requires Run(states, reqs) && Step(states[|reqs|], r, u)
    ensures Run(states + [u], reqs + [r])
  {
    forall i: nat | i < |reqs| + 1
      ensures StepAt(states + [u], reqs + [r], i)
    {
      if i < |reqs| { assert StepAt(states, reqs, i); }
    }
  }

  lemma ServesSound(s: Space, t: Space, reqs: seq<Request>)
    requires Serves(s, t, reqs)
    ensures Sound(s) && Sound(t)
  {
    var states :| Run(states, reqs) && states[0] == s && states[|reqs|] == t;
    if reqs != [] { assert StepAt(states, reqs, |reqs| - 1); }
  }

  /** What a run amounts to: the tables all requests touch, and their overlays applied in order. */
  lemma {:induction false} RunMeans(states: seq<Space>, reqs: seq<Request>)
    requires Run(states, reqs)
    ensures Sound(states[|reqs|])
    ensures Grows(states[0], states[|reqs|], TouchedAll(reqs))
    ensures OverlaidAll(states[0], states[|reqs|], reqs)
    decreases |reqs|
  {
    if reqs == [] {
      AlreadyThere(states[0], {});
    } else {
      var n := |reqs| - 1;
      RunFront(states, reqs);
      RunMeans(states[..|reqs|], reqs[..n]);
      assert StepAt(states, reqs, n);
      assert reqs[..n] + [reqs[n]] == reqs;
      GrowsThen(states[0], states[n], states[n + 1], TouchedAll(reqs[..n]), Touched(reqs[n].where, reqs[n].Pages()));
      OverlayAllThen(states[0], states[n], states[n + 1], reqs[..n], reqs[n]);
    }
  }

  lemma RunFront(states: seq<Space>, reqs: seq<Request>)
    requires Run(states, reqs) && reqs != []
    ensures Run(states[..|reqs|], reqs[..|reqs| - 1])
  {
    var states', reqs' := states[..|reqs|], reqs[..|reqs| - 1];
    forall i: nat | i < |reqs'|
      ensures StepAt(states', reqs', i)
    {
      assert StepAt(states, reqs, i);
    }
  }

  ghost predicate OverlaidAll(s: Space, t: Space, reqs: seq<Request>)
    requires TablesInside(s) && TablesInside(t)
  {
    forall v: nat :: Lookup(t.mem, t.tables, v) == OverlayAll(Lookup(s.mem, s.tables, v), v, reqs)
  }

  lemma ServesMeans(s: Space, t: Space, reqs: seq<Request>)
    requires Serves(s, t, reqs)
    ensures Sound(s) && Sound(t) && Grows(s, t, TouchedAll(reqs)) && OverlaidAll(s, t, reqs)
    ensures forall r :: r in reqs ==> r.Ok()
  {
    var states :| Run(states, reqs) && states[0] == s && states[|reqs|] == t;
    RunMeans(states, reqs);
    forall r | r in reqs
      ensures r.Ok()
    {
      var i :| 0 <= i < |reqs| && reqs[i] == r;
      assert StepAt(states, reqs, i);
    }
  }

  lemma OverlayAllThen(s: Space, t: Space, u: Space, reqs: seq<Request>, r: Request)
    requires TablesInside(s) && TablesInside(t) && TablesInside(u)
    requires OverlaidAll(s, t, reqs)
    requires forall v: nat :: Lookup(u.mem, u.tables, v) ==
                              Overlay(Lookup(t.mem, t.tables, v), v, r.what, r.where, r.flags, r.Pages())
    ensures OverlaidAll(s, u, reqs + [r])
  {
  }

  /** The free pages pay for the missing tables of all requests, one each. */
  lemma ServesAffords(s: Space, t: Space, reqs: seq<Request>)
    requires Serves(s, t, reqs)
    ensures Sound(s) && Sound(t) && |t.Free()| + |Missing(s.tables, TouchedAll(reqs))| == |s.Free()|
  {
    ServesMeans(s, t, reqs);
    EnoughPages(s.Free(), s.tables, t.Free(), t.tables, TouchedAll(reqs));
  }

  /** Serving all of `reqs` from state `s` must panic: some request is unacceptable, or the tables outnumber the free pages. */
  ghost predicate Hopeless(s: Space, reqs: seq<Request>) {
    s.Placed() ==>
    (exists r :: r in reqs && !r.Ok()) || |Missing(s.tables, TouchedAll(reqs))| > |s.Free()|
  }

  /** A request that panics after `done` were served dooms every list that begins with both. */
  lemma ServesRanDry(s: Space, t: Space, done: seq<Request>, r: Request, all: seq<Request>)
    requires Serves(s, t, done) && done + [r] <= all && Sound(s) && Sound(t)
    requires !r.Ok() || |Missing(t.tables, Touched(r.where, r.Pages()))| > |t.Free()|
    ensures Hopeless(s, all)
  {
    assert (done + [r])[..|done|] == done;
    assert all[|done|] == (done + [r])[|done|] == r;
    if r.Ok() {
      ServesMeans(s, t, done);
      TouchedAllGrows(done + [r], all);
      RanDry(s.Free(), s.tables, t.Free(), t.tables, TouchedAll(done), Touched(r.where, r.Pages()), TouchedAll(all));
    }
  }

  lemma NotHopeless(s: Space, t: Space, reqs: seq<Request>)
    requires Serves(s, t, reqs) && Sound(s)
    ensures !Hopeless(s, reqs)
  {
    ServesMeans(s, t, reqs);
    ServesAffords(s, t, reqs);
  }

  lemma {:induction false} TouchedBelowRoot(where: nat, k: nat)
    ensures ROOT !in Touched(where, k)
  {
    if k > 0 { TouchedBelowRoot(where, k - 1); }
  }

  lemma {:induction false} AllBelowRoot(reqs: seq<Request>)
    ensures ROOT !in TouchedAll(reqs)
  {
    if reqs != [] {
      AllBelowRoot(reqs[..|reqs| - 1]);
      TouchedBelowRoot(reqs[|reqs| - 1].where, reqs[|reqs| - 1].Pages());
    }
  }

  lemma {:induction false} TouchedAllGrows(reqs: seq<Request>, all: seq<Request>)
    requires reqs <= all
    ensures TouchedAll(reqs) <= TouchedAll(all)
  {
    if |reqs| < |all| {
      TouchedAllGrows(reqs, all[..|all| - 1]);
    } else {
      assert reqs == all;
    }
  }

  /** Canonical: bits 63:48 repeat bit 47. */
  predicate Canonical(a: nat) {
    a < 0x8000_0000_0000 || 0xFFFF_8000_0000_0000 <= a < TWO64
  }
}
