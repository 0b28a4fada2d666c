/** What a vmm_map call means for the address space, and what it costs. */
module MapTheorems {
  import opened Bits
  import opened PhysicalMemory
  import opened Paging
  import opened KernelSpace
  import opened Mapping

  // ----- The overlay of a range of addresses

  /** The range neither wraps 64 bits nor leaves the 48-bit page numbers. */
  predicate Straight(where: nat, n: nat) {
    && where % PAGE_SIZE == 0
    && where + PAGE_SIZE * n <= TWO64
    && Vpn(where) + n <= VPNS
  }

  predicate Covers(where: nat, n: nat, v: nat) {
    Vpn(where) <= v < Vpn(where) + n
  }

  lemma StraightVpn(where: nat, n: nat, k: nat)
    requires Straight(where, n) && k < n
    ensures Vpn(PageAt(where, k)) == Vpn(where) + k
  {
  }

  /** The pages of the range have consecutive page numbers. */
  ghost predicate Numbered(where: nat, n: nat, first: nat) {
    forall k: nat {:trigger PageAt(where, k)} :: k < n ==> Vpn(PageAt(where, k)) == first + k
  }

  lemma StraightNumbers(where: nat, n: nat, first: nat)
    requires Straight(where, n) && first == Vpn(where)
    ensures Numbered(where, n, first)
  {
    forall k: nat | k < n
      ensures Vpn(PageAt(where, k)) == first + k
    {
      StraightVpn(where, n, k);
    }
  }

  lemma {:induction false} OverlayNumbered(before: Translation, v: nat, what: nat, where: nat, flags: nat, n: nat, first: nat)
    requires Numbered(where, n, first)
    ensures Overlay(before, v, what, where, flags, n) ==
            if first <= v < first + n then Target(PageAt(what, v - first), flags) else before
  {
    if n > 0 {
      assert Vpn(PageAt(where, n - 1)) == first + (n - 1);
      OverlayNumbered(before, v, what, where, flags, n - 1, first);
    }
  }

  /** vmm_map sends page where+i to what+i and leaves every other page as it was. */
  lemma OverlayStraight(before: Translation, v: nat, what: nat, where: nat, flags: nat, n: nat)
    requires Straight(where, n)
    ensures Overlay(before, v, what, where, flags, n) ==
            if Covers(where, n, v) then Target(PageAt(what, v - Vpn(where)), flags) else before
  {
    StraightNumbers(where, n, Vpn(where));
    OverlayNumbered(before, v, what, where, flags, n, Vpn(where));
  }

  lemma OverlayAt(before: Translation, v: nat, what: nat, where: nat, flags: nat, n: nat, j: nat)
    requires Straight(where, n) && j < n && v == Vpn(PageAt(where, j))
    ensures Overlay(before, v, what, where, flags, n) == Target(PageAt(what, j), flags)
  {
    StraightVpn(where, n, j);
    OverlayStraight(before, v, what, where, flags, n);
  }

  /** A range inside one canonical half is straight. */
  lemma CanonicalRangeIsStraight(where: nat, n: nat)
    requires where % PAGE_SIZE == 0 && n > 0 && where + PAGE_SIZE * n <= TWO64
    requires Canonical(where) && Canonical(where + PAGE_SIZE * n - 1)
    requires where < 0x8000_0000_0000 <==> where + PAGE_SIZE * n - 1 < 0x8000_0000_0000
    ensures Straight(where, n)
  {
  }

  /** Canonical pages are told apart by the page number the processor extracts. */
  lemma CanonicalVpnInjective(a: nat, b: nat)
    requires a % PAGE_SIZE == 0 && b % PAGE_SIZE == 0 && Canonical(a) && Canonical(b)
    ensures Vpn(a) == Vpn(b) <==> a == b
  {
    CanonicalVpn(a);
    CanonicalVpn(b);
  }

  lemma CanonicalVpn(a: nat)
    requires a % PAGE_SIZE == 0 && Canonical(a)
    ensures a == if Vpn(a) < 0x8_0000_0000 then PAGE_SIZE * Vpn(a) else PAGE_SIZE * Vpn(a) + 0xFFFF_0000_0000_0000
  {
    var p := a / PAGE_SIZE;
    if a < 0x8000_0000_0000 {
      assert p < 0x8_0000_0000;
    } else {
      assert 0xF_FFF8_0000_0000 <= p < 0x10_0000_0000_0000;
      assert p / VPNS == 0xFFFF;
    }
  }

  // ----- Rights

  /** No address is both writable and executable, and none is accessible from user mode. */
  predicate Hardened(t: Translation) {
    t.Mapped? ==> !(t.rights.writable && t.rights.executable) && !t.rights.user
  }

  lemma {:induction false} OverlayHardened(before: Translation, v: nat, what: nat, where: nat, flags: nat, k: nat)
    requires Hardened(before) && (k > 0 ==> FlagsOk(flags))
    ensures Hardened(Overlay(before, v, what, where, flags, k))
  {
    if k > 0 { OverlayHardened(before, v, what, where, flags, k - 1); }
  }

  lemma {:induction false} OverlayKeepsPageZero(before: Translation, what: nat, where: nat, flags: nat, k: nat)
    requires forall j: nat :: j < k ==> Vpn(PageAt(where, j)) != 0
    ensures Overlay(before, 0, what, where, flags, k) == before
  {
    if k > 0 { OverlayKeepsPageZero(before, what, where, flags, k - 1); }
  }

  /**
    vmm_map_page refuses the null pointer only. The page it maps is virtual page 0 anyway exactly when the
    address is a multiple of 2^48 other than 0, which no canonical address is.
   */
  lemma PageZeroGuard(where: nat)
    requires where % PAGE_SIZE == 0 && where < TWO64
    ensures Vpn(where) == 0 <==> where % 0x1_0000_0000_0000 == 0
    ensures Canonical(where) ==> (Vpn(where) == 0 <==> where == 0)
  {
  }

  /** A non-canonical address that maps virtual page 0. */
  lemma PageZeroGuardEvaded(before: Translation)
    ensures PageOk(0, 0x1_0000_0000_0000, M_W)
    ensures Overlay(before, 0, 0, 0x1_0000_0000_0000, M_W, 1) == Target(0, M_W)
  {
  }

  // ----- Cost

  /** The tables of one level with prefixes lo..hi. */
  function Level(level: nat, lo: nat, hi: nat): (nodes: set<Node>)
    ensures forall n :: n in nodes <==> n.level == level && lo <= n.prefix <= hi
    ensures lo <= hi ==> |nodes| == hi - lo + 1
    decreases hi
  {
    if lo > hi then {}
    else if lo == hi then {Node(level, lo)}
    else Level(level, lo, hi - 1) + {Node(level, hi)}
  }

  /** `n` is a table below the root that serves some page in first..last. */
  predicate ServesPages(n: Node, first: nat, last: nat) {
    n.level < 3 && Prefix(first, n.level) <= n.prefix <= Prefix(last, n.level)
  }

  /** All of them. */
  function Tables(first: nat, last: nat): (nodes: set<Node>)
    ensures forall n :: n in nodes <==> ServesPages(n, first, last)
  {
    Level(2, Prefix(first, 2), Prefix(last, 2))
    + Level(1, Prefix(first, 1), Prefix(last, 1))
    + Level(0, Prefix(first, 0), Prefix(last, 0))
  }

  lemma ServesNext(n: Node, first: nat, last: nat)
    requires first <= last
    ensures ServesPages(n, first, last + 1) <==>
            ServesPages(n, first, last) || (n.level < 3 && n.prefix == Prefix(last + 1, n.level))
  {
    PrefixStep(first, last, n.level);
  }

  /** A table is touched by a run of `k` pages exactly when it serves one of them. */
  lemma {:induction false} TouchedServes(where: nat, n: nat, first: nat, k: nat, t: Node)
    requires Numbered(where, n, first) && 0 < k <= n
    ensures t in Touched(where, k) <==> ServesPages(t, first, first + k - 1)
  {
    var last: nat := first + k - 1;
    TouchedLast(where, k, last, t);
    if k > 1 {
      TouchedServes(where, n, first, k - 1, t);
      ServesNext(t, first, last - 1);
      assert last - 1 + 1 == last;
    } else {
      NothingTouched(where, t);
      ServesOne(t, first);
    }
  }

  lemma NothingTouched(where: nat, t: Node)
    ensures t !in Touched(where, 0)
  {
  }

  lemma ServesOne(n: Node, page: nat)
    ensures ServesPages(n, page, page) <==> n.level < 3 && n.prefix == Prefix(page, n.level)
  {
  }

  lemma TouchedLast(where: nat, k: nat, v: nat, t: Node)
    requires k > 0 && Vpn(PageAt(where, k - 1)) == v
    ensures t in Touched(where, k) <==> t in Touched(where, k - 1) || (t.level < 3 && t.prefix == Prefix(v, t.level))
  {
  }

  lemma TouchedStraight(where: nat, n: nat, first: nat, last: nat)
    requires Straight(where, n) && n > 0 && first == Vpn(where) && last == first + n - 1
    ensures Touched(where, n) == Tables(first, last)
  {
    StraightNumbers(where, n, first);
    forall t
      ensures t in Touched(where, n) <==> ServesPages(t, first, last)
    {
      TouchedServes(where, n, first, n, t);
    }
    SameNodes(Touched(where, n), first, last);
  }

  lemma SameNodes(nodes: set<Node>, first: nat, last: nat)
    requires forall t :: t in nodes <==> ServesPages(t, first, last)
    ensures nodes == Tables(first, last)
  {
  }

  lemma {:induction false} PrefixStep(first: nat, last: nat, level: nat)
    requires first <= last
    ensures Prefix(first, level) <= Prefix(last, level) <= Prefix(last + 1, level) <= Prefix(last, level) + 1
  {
    if level > 0 { PrefixStep(first, last, level - 1); }
  }

  /** One table per touched 2-MByte, 1-GByte and 512-GByte slot. */
  function TableCount(first: nat, last: nat): int {
    (Prefix(last, 2) - Prefix(first, 2) + 1) + (Prefix(last, 1) - Prefix(first, 1) + 1)
    + (Prefix(last, 0) - Prefix(first, 0) + 1)
  }

  lemma TablesCounted(first: nat, last: nat)
    requires first <= last
    ensures |Tables(first, last)| == TableCount(first, last)
  {
    PrefixOrder(first, last, 0);
    PrefixOrder(first, last, 1);
    PrefixOrder(first, last, 2);
    ThreeLevels(Prefix(first, 2), Prefix(last, 2), Prefix(first, 1), Prefix(last, 1), Prefix(first, 0), Prefix(last, 0));
  }

  lemma ThreeLevels(lo2: nat, hi2: nat, lo1: nat, hi1: nat, lo0: nat, hi0: nat)
    requires lo2 <= hi2 && lo1 <= hi1 && lo0 <= hi0
    ensures |Level(2, lo2, hi2) + Level(1, lo1, hi1) + Level(0, lo0, hi0)| ==
            (hi2 - lo2 + 1) + (hi1 - lo1 + 1) + (hi0 - lo0 + 1)
  {
  }

  /** The number of tables is bounded by the length of the range alone. */
  lemma TableCountBound(first: nat, last: nat, n: nat)
    requires n > 0 && last == first + n - 1
    ensures TableCount(first, last) <= MostTables(n)
  {
    PrefixSpread(first, last, n);
  }

  /** Most tables that `n` consecutive pages can need. */
  function MostTables(n: nat): nat {
    if n == 0 then 0 else Slots(n, 512) + Slots(n, 0x4_0000) + Slots(n, 0x800_0000)
  }

  /** Most slots of `size` pages that `n` consecutive pages can touch. */
  function Slots(n: nat, size: nat): nat
    requires n > 0 && size > 0
  {
    (n - 1 + size - 1) / size + 1
  }

  lemma {:induction false} PrefixOrder(first: nat, last: nat, level: nat)
    requires first <= last
    ensures Prefix(first, level) <= Prefix(last, level)
  {
    if level > 0 { PrefixOrder(first, last, level - 1); }
  }

  lemma PrefixSpread(first: nat, last: nat, n: nat)
    requires n > 0 && last == first + n - 1
    ensures Prefix(last, 0) - Prefix(first, 0) + 1 <= Slots(n, 512)
    ensures Prefix(last, 1) - Prefix(first, 1) + 1 <= Slots(n, 0x4_0000)
    ensures Prefix(last, 2) - Prefix(first, 2) + 1 <= Slots(n, 0x800_0000)
  {
    assert Prefix(first, 1) == first / 0x4_0000 && Prefix(last, 1) == last / 0x4_0000;
    assert Prefix(first, 2) == first / 0x800_0000 && Prefix(last, 2) == last / 0x800_0000;
  }

  lemma MissingTables(tabs: map<Node, nat>, where: nat, n: nat, first: nat, last: nat)
    requires Straight(where, n) && n > 0 && first == Vpn(where) && last == first + n - 1
    ensures Missing(tabs, Touched(where, n)) == Missing(tabs, Tables(first, last))
    ensures |Missing(tabs, Touched(where, n))| <= TableCount(first, last)
  {
    TouchedStraight(where, n, first, last);
    TablesCounted(first, last);
    MissingCount(tabs, Touched(where, n));
  }

  lemma MissingCount(tabs: map<Node, nat>, nodes: set<Node>)
    ensures |Missing(tabs, nodes)| <= |nodes|
  {
    SubsetCount(Missing(tabs, nodes), nodes);
  }

  /** The pages a mapping takes are exactly the tables it touches that were missing. */
  lemma MapCost(s: Space, t: Space, what: nat, where: nat, flags: nat, n: nat, first: nat, last: nat)
    requires Sound(s) && Remaps(s, t, what, where, flags, n) && Straight(where, n) && n > 0
    requires first == Vpn(where) && last == first + n - 1
    ensures |s.Free()| - |t.Free()| == |Missing(s.tables, Tables(first, last))|
    ensures |s.Free()| - |t.Free()| <= TableCount(first, last) <= MostTables(n)
  {
    RemapsAffords(s, t, what, where, flags, n);
    MissingTables(s.tables, where, n, first, last);
    TableCountBound(first, last, n);
  }

  /**
    What the processor sees after a mapping: the range is retargeted with write access from bit 0 of the flags, execute
    access from bit 1, the cache mode from bits 4:3 and no user access; nothing else changes.
   */
  lemma MapMeans(s: Space, t: Space, what: nat, where: nat, flags: nat, n: nat, v: nat)
    requires Sound(s) && Remaps(s, t, what, where, flags, n) && Straight(where, n) && v < VPNS
    ensures t.Walk(v) ==
            if Covers(where, n, v) then
              Mapped(FrameOf(PageAt(what, v - Vpn(where))), Rights(flags % 2 == 1, flags / 2 % 2 == 1, false),
                     if flags / 8 % 4 == 1 then 2 else if flags / 8 % 4 == 2 then 5 else 0)
            else s.Walk(v)
  {
    WalksAreLookups(s);
    WalksAreLookups(t);
    OverlayStraight(s.Walk(v), v, what, where, flags, n);
  }

  // ----- vmm_map_unaligned

  /** When both addresses have the same offset in their page, the request covers whole pages at both ends. */
  lemma UnalignedCovers(what: nat, where: nat, size: nat, flags: nat)
    requires what % PAGE_SIZE == where % PAGE_SIZE && size > 0
    requires what + size <= TWO64 - PAGE_SIZE && where + size <= TWO64
    ensures var r := AlignedRequest(what, where, size, flags);
      && r.what == PAGE_SIZE * (what / PAGE_SIZE) && r.where == PAGE_SIZE * (where / PAGE_SIZE)
      && r.size == PAGE_SIZE * r.Pages()
      && r.Pages() == (where + size - 1) / PAGE_SIZE - where / PAGE_SIZE + 1
  {
    PageRounding(what);
    PageRounding(where);
    PageRounding(what + size);
    UnalignedPages(what, where, size);
  }

  lemma UnalignedPages(what: nat, where: nat, size: nat)
    requires what % PAGE_SIZE == where % PAGE_SIZE && size > 0
    ensures (what + size + PAGE_SIZE - 1) / PAGE_SIZE - what / PAGE_SIZE == (where + size - 1) / PAGE_SIZE - where / PAGE_SIZE + 1
  {
  }

  /** Byte where+k lies in page `j` of the request, as does byte what+k on the other side. */
  lemma UnalignedByte(what: nat, where: nat, size: nat, k: nat, j: nat)
    requires what % PAGE_SIZE == where % PAGE_SIZE && k < size && where + size <= TWO64 && what + size <= TWO64
    requires j == (where + k) / PAGE_SIZE - where / PAGE_SIZE
    ensures j <= (where + size - 1) / PAGE_SIZE - where / PAGE_SIZE
    ensures Vpn(PageAt(PAGE_SIZE * (where / PAGE_SIZE), j)) == Vpn(where + k)
    ensures PageAt(PAGE_SIZE * (what / PAGE_SIZE), j) == PAGE_SIZE * ((what + k) / PAGE_SIZE)
  {
  }

  /** Page `j` of the request holds a byte of the range. */
  lemma ByteInPage(where: nat, size: nat, j: nat) returns (k: nat)
    requires size > 0 && j <= (where + size - 1) / PAGE_SIZE - where / PAGE_SIZE
    ensures k < size && (where + k) / PAGE_SIZE == where / PAGE_SIZE + j
  {
    var o := where % PAGE_SIZE;
    k := if j == 0 then 0 else PAGE_SIZE * j - o;
    assert where == PAGE_SIZE * (where / PAGE_SIZE) + o;
  }

  /** Byte `k` of the range lies in page `v`. */
  predicate ByteIn(where: nat, k: nat, v: nat) {
    Vpn(where + k) == v
  }

  /** vmm_map_unaligned sends byte where+k to byte what+k when both addresses have the same offset in their page. */
  lemma UnalignedMeans(s: Space, t: Space, what: nat, where: nat, size: nat, flags: nat, r: Request, k: nat, v: nat)
    requires Sound(s) && what % PAGE_SIZE == where % PAGE_SIZE && k < size
    requires what + size <= 0x10_0000_0000_0000 && where + size <= TWO64
    requires r == AlignedRequest(what, where, size, flags) && Straight(r.where, r.Pages())
    requires Remaps(s, t, r.what, r.where, flags, r.Pages()) && ByteIn(where, k, v)
    ensures t.Walk(v) == Mapped((what + k) / PAGE_SIZE, Rights(flags % 2 == 1, flags / 2 % 2 == 1, false), if flags / 8 % 4 == 1 then 2 else if flags / 8 % 4 == 2 then 5 else 0)
  {
    var j := (where + k) / PAGE_SIZE - where / PAGE_SIZE;
    UnalignedCovers(what, where, size, flags);
    UnalignedByte(what, where, size, k, j);
    MappedAt(s, t, r, flags, j, v);
    ByteTarget(what + k, flags);
  }

  /** It changes no page that holds no byte of the range. */
  lemma UnalignedElsewhere(s: Space, t: Space, what: nat, where: nat, size: nat, flags: nat, r: Request, v: nat)
    requires Sound(s) && what % PAGE_SIZE == where % PAGE_SIZE && size > 0
    requires what + size <= 0x10_0000_0000_0000 && where + size <= TWO64
    requires r == AlignedRequest(what, where, size, flags) && Straight(r.where, r.Pages())
    requires Remaps(s, t, r.what, r.where, flags, r.Pages())
    requires v < VPNS && forall k: nat :: k < size ==> !ByteIn(where, k, v)
    ensures t.Walk(v) == s.Walk(v)
  {
    UnalignedCovers(what, where, size, flags);
    UnalignedMisses(what, where, size, r, v);
    MapMeans(s, t, r.what, r.where, flags, r.Pages(), v);
  }

  /** The first byte goes where it was asked to go if and only if the two addresses have the same offset in their page. */
  lemma UnalignedOffsets(s: Space, t: Space, what: nat, where: nat, size: nat, flags: nat, r: Request)
    requires Sound(s) && what < 0x10_0000_0000_0000 && where < TWO64
    requires r == AlignedRequest(what, where, size, flags) && Straight(r.where, r.Pages()) && r.Pages() > 0
    requires Remaps(s, t, r.what, r.where, flags, r.Pages())
    ensures var found := t.Walk(Vpn(where));
      found.Mapped? && (PAGE_SIZE * found.frame + where % PAGE_SIZE == what <==> what % PAGE_SIZE == where % PAGE_SIZE)
  {
    var v := Vpn(where);
    FirstPageOf(what);
    FirstPageOf(where);
    MappedAt(s, t, r, flags, 0, v);
    ByteTarget(what, flags);
    OffsetsAgree(what, where);
  }

  lemma FirstPageOf(a: nat)
    requires a < TWO64
    ensures PageAt(RoundDown(a, PAGE_SIZE), 0) == PAGE_SIZE * (a / PAGE_SIZE)
    ensures Vpn(PageAt(RoundDown(a, PAGE_SIZE), 0)) == Vpn(a)
  {
  }

  lemma OffsetsAgree(what: nat, where: nat)
    ensures PAGE_SIZE * (what / PAGE_SIZE) + where % PAGE_SIZE == what <==> what % PAGE_SIZE == where % PAGE_SIZE
  {
  }

  lemma MappedAt(s: Space, t: Space, r: Request, flags: nat, j: nat, v: nat)
    requires Sound(s) && Straight(r.where, r.Pages()) && Remaps(s, t, r.what, r.where, flags, r.Pages())
    requires j < r.Pages() && v == Vpn(PageAt(r.where, j))
    ensures t.Walk(v) == Target(PageAt(r.what, j), flags)
  {
    WalksAreLookups(t);
    OverlayAt(Lookup(s.mem, s.tables, v), v, r.what, r.where, flags, r.Pages(), j);
  }

  lemma ByteTarget(a: nat, flags: nat)
    requires a < 0x10_0000_0000_0000
    ensures Target(PAGE_SIZE * (a / PAGE_SIZE), flags) ==
            Mapped(a / PAGE_SIZE, Rights(flags % 2 == 1, flags / 2 % 2 == 1, false), if flags / 8 % 4 == 1 then 2 else if flags / 8 % 4 == 2 then 5 else 0)
  {
    FrameFits(PAGE_SIZE * (a / PAGE_SIZE));
  }

  lemma UnalignedMisses(what: nat, where: nat, size: nat, r: Request, v: nat)
    requires what % PAGE_SIZE == where % PAGE_SIZE && size > 0 && what + size <= TWO64 && where + size <= TWO64
    requires r.where == PAGE_SIZE * (where / PAGE_SIZE) && Straight(r.where, r.Pages())
    requires r.Pages() == (where + size - 1) / PAGE_SIZE - where / PAGE_SIZE + 1
    requires forall k: nat :: k < size ==> !ByteIn(where, k, v)
    ensures !Covers(r.where, r.Pages(), v)
  {
    var first := Vpn(r.where);
    if first <= v < first + r.Pages() {
      var k := ByteInPage(where, size, v - first);
      UnalignedByte(what, where, size, k, v - first);
      StraightVpn(r.where, r.Pages(), v - first);
      assert ByteIn(where, k, v);
    }
  }
}
