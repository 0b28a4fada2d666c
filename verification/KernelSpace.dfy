/**
  The state shared by both layers of the memory manager: physical memory, which holds the bitmap and the
  page tables, and the tree of tables. Lemmas here say what each store of the kernel does to that state.
 */
module KernelSpace {
  import opened Bits
  import opened PhysicalMemory
  import opened Bitmap
  import opened Paging

  datatype Space = Space(mem: Memory, bitmap: nat, pages: nat, root: nat, tables: map<Node, nat>)
  {
    ghost predicate Placed() {
      Bitmap.Placed(mem, bitmap, pages)
    }

    ghost function Free(): set<nat>
      requires Placed()
    {
      Bitmap.Free(mem, bitmap, pages)
    }

    function Walk(v: nat): Translation {
      Paging.Walk(mem, root, v)
    }
  }

  /**
    Memory holds exactly the tree of tables. Table frames are managed pages; neither they nor the bitmap's
    own frames are ever free, and no table lies in the bitmap.
   */
  ghost predicate Sound(s: Space) {
    && s.Placed()
    && PaddingClear(s.mem, s.bitmap, s.pages)
    && s.Free() !! BitmapFrames(s.bitmap, s.pages)
    && Tree(s.mem, s.tables, s.root)
    && forall k {:trigger Reserved(s, s.tables[k])} :: k in s.tables ==> Reserved(s, s.tables[k])
  }

  /** A managed page that is neither free nor part of the bitmap. */
  ghost predicate Reserved(s: Space, f: nat)
    requires s.Placed()
  {
    f < s.pages && f !in s.Free() && f !in BitmapFrames(s.bitmap, s.pages)
  }

  /** From one free set and tree to another, free pages were turned into table pages and nothing else happened. */
  ghost predicate Grown(free: set<nat>, tabs: map<Node, nat>, free': set<nat>, tabs': map<Node, nat>) {
    && (forall k :: k in tabs ==> k in tabs' && tabs'[k] == tabs[k])
    && (forall k :: k in tabs' && k !in tabs ==> tabs'[k] in free)
    && free' <= free
    && (forall p {:trigger IsTable(tabs', p)} :: p in free && p !in free' ==> IsTable(tabs', p))
    && |free'| + |tabs'| == |free| + |tabs|
  }

  /** Exactly the nodes `added` were added to the tree, if they were not there. */
  ghost predicate Adds(tabs: map<Node, nat>, tabs': map<Node, nat>, added: set<Node>) {
    forall k :: k in tabs' <==> k in tabs || k in added
  }

  /** The layout of memory, which no operation changes once the bitmap is placed. */
  predicate SameLayout(s: Space, t: Space) {
    |t.mem| == |s.mem| && t.bitmap == s.bitmap && t.pages == s.pages && t.root == s.root
  }

  /** No page outside the bitmap and the tables of `t` changed. */
  ghost predicate DataKept(s: Space, t: Space) {
    forall f: nat {:trigger SamePage(s.mem, t.mem, f)} ::
      PageInside(s.mem, f) && f !in BitmapFrames(s.bitmap, s.pages) && !IsTable(t.tables, f)
      ==> SamePage(s.mem, t.mem, f)
  }

  /** The nodes `added` joined the tree, each on a page that was free; no other page changed. */
  ghost predicate Grows(s: Space, t: Space, added: set<Node>)
    requires Sound(s)
  {
    && Sound(t) && SameLayout(s, t)
    && Adds(s.tables, t.tables, added)
    && Grown(s.Free(), s.tables, t.Free(), t.tables)
    && DataKept(s, t)
  }

  /** The tree grew, and no translation changed. */
  ghost predicate Extends(s: Space, t: Space, added: set<Node>)
    requires Sound(s)
  {
    && Sound(t) && SameLayout(s, t)
    && Adds(s.tables, t.tables, added)
    && Grown(s.Free(), s.tables, t.Free(), t.tables)
    && DataKept(s, t)
    && forall v: nat :: Lookup(t.mem, t.tables, v) == Lookup(s.mem, s.tables, v)
  }

  /** No page outside the bitmap's own frames changed. */
  ghost predicate BitmapOnly(m: Memory, m': Memory, bm: nat, n: nat) {
    forall f: nat {:trigger SamePage(m, m', f)} ::
      PageInside(m, f) && f !in BitmapFrames(bm, n) ==> SamePage(m, m', f)
  }

  lemma OnlyBitmapBytes(m: Memory, m': Memory, bm: nat, n: nat)
    requires bm % PAGE_SIZE == 0 && |m'| == |m|
    requires forall k :: 0 <= k < |m| && !(bm <= k < bm + BitmapBytes(n)) ==> m'[k] == m[k]
    ensures BitmapOnly(m, m', bm, n)
  {
  }

  lemma BitmapByte(bm: nat, n: nat, k: nat)
    requires bm % PAGE_SIZE == 0
    requires bm <= k < bm + BitmapBytes(n)
    ensures k / PAGE_SIZE in BitmapFrames(bm, n)
  {
  }

  /** Marking bits leaves every page outside the bitmap's frames alone. */
  lemma MarkedPage(m: Memory, m': Memory, bm: nat, n: nat, lo: nat, hi: nat, v: bool, f: nat)
    requires Placed(m, bm, n) && Marked(m, m', bm, n, lo, hi, v)
    requires PageInside(m, f) && f !in BitmapFrames(bm, n)
    ensures SamePage(m, m', f)
  {
  }

  lemma FreedPage(m: Memory, m': Memory, bm: nat, n: nat, pages: set<nat>, f: nat)
    requires Placed(m, bm, n) && Freed(m, m', bm, n, pages)
    requires PageInside(m, f) && f !in BitmapFrames(bm, n)
    ensures SamePage(m, m', f)
  {
  }

  /** A store inside one page leaves the bitmap alone when that page is not one of its frames. */
  lemma PageStoreKeepsFree(m: Memory, m': Memory, bm: nat, n: nat, f: nat)
    requires Placed(m, bm, n) && |m'| == |m| && f !in BitmapFrames(bm, n)
    requires forall k :: 0 <= k < |m| && k / PAGE_SIZE != f ==> m'[k] == m[k]
    ensures Placed(m', bm, n) && Free(m', bm, n) == Free(m, bm, n)
    ensures PaddingClear(m, bm, n) ==> PaddingClear(m', bm, n)
  {
    forall k | bm <= k < bm + BitmapBytes(n)
      ensures m'[k] == m[k]
    {
      BitmapByte(bm, n, k);
    }
    FreeFrame(m, m', bm, n);
  }

  lemma OtherPageKept(m: Memory, m': Memory, f: nat, g: nat)
    requires |m'| == |m| && PageInside(m, g) && g != f
    requires forall k :: 0 <= k < |m| && k / PAGE_SIZE != f ==> m'[k] == m[k]
    ensures SamePage(m, m', g)
  {
  }

  lemma StoreInPage(m: Memory, f: nat, i: nat, w: Word)
    requires PageInside(m, f) && i < 512
    ensures forall k :: 0 <= k < |m| && k / PAGE_SIZE != f ==> StoreWord(m, Slot(f, i), w)[k] == m[k]
  {
  }

  lemma ZeroInPage(m: Memory, f: nat)
    requires PageInside(m, f)
    ensures forall k :: 0 <= k < |m| && k / PAGE_SIZE != f ==> ZeroRange(m, PAGE_SIZE * f, PAGE_SIZE)[k] == m[k]
  {
  }

  /** The state after a page was taken from the bitmap: same tables, same walks, one free page less. */
  lemma TakePages(s: Space, m: Memory, lo: nat, hi: nat)
    requires Sound(s) && lo <= hi && (hi <= s.pages || lo == hi)
    requires Marked(s.mem, m, s.bitmap, s.pages, lo, hi, false)
    ensures Sound(s.(mem := m))
    ensures s.(mem := m).Free() == s.Free() - Range(lo, hi)
    ensures forall v: nat :: Lookup(m, s.tables, v) == Lookup(s.mem, s.tables, v)
  {
    MarkedFree(s.mem, m, s.bitmap, s.pages, lo, hi, false);
    forall k | k in s.tables
      ensures SamePage(s.mem, m, s.tables[k]) && Reserved(s.(mem := m), s.tables[k])
    {
      assert Reserved(s, s.tables[k]);
      MarkedPage(s.mem, m, s.bitmap, s.pages, lo, hi, false, s.tables[k]);
    }
    TreeFrame(s.mem, m, s.tables, s.root);
  }

  /** Giving pages back is safe when none of them is a table or bitmap page. */
  lemma GivePages(s: Space, m: Memory, pages: set<nat>)
    requires Sound(s) && forall p :: p in pages ==> p < s.pages
    requires Freed(s.mem, m, s.bitmap, s.pages, pages)
    requires pages !! BitmapFrames(s.bitmap, s.pages) && (forall p :: p in pages ==> !IsTable(s.tables, p))
    ensures Sound(s.(mem := m))
    ensures s.(mem := m).Free() == s.Free() + pages
    ensures forall v: nat :: Lookup(m, s.tables, v) == Lookup(s.mem, s.tables, v)
  {
    FreedFree(s.mem, m, s.bitmap, s.pages, pages);
    forall k | k in s.tables
      ensures SamePage(s.mem, m, s.tables[k]) && Reserved(s.(mem := m), s.tables[k])
    {
      assert Reserved(s, s.tables[k]) && IsTable(s.tables, s.tables[k]);
      FreedPage(s.mem, m, s.bitmap, s.pages, pages, s.tables[k]);
    }
    TreeFrame(s.mem, m, s.tables, s.root);
  }

  /** Clearing a page that is neither table nor bitmap keeps the state and every walk. */
  lemma ClearPage(s: Space, m: Memory, f: nat)
    requires Sound(s) && PageInside(s.mem, f)
    requires !IsTable(s.tables, f) && f !in BitmapFrames(s.bitmap, s.pages)
    requires m == ZeroRange(s.mem, PAGE_SIZE * f, PAGE_SIZE)
    ensures Sound(s.(mem := m))
    ensures s.(mem := m).Free() == s.Free()
    ensures forall v: nat :: Lookup(m, s.tables, v) == Lookup(s.mem, s.tables, v)
  {
    ZeroInPage(s.mem, f);
    PageStoreKeepsFree(s.mem, m, s.bitmap, s.pages, f);
    forall k | k in s.tables
      ensures SamePage(s.mem, m, s.tables[k]) && Reserved(s.(mem := m), s.tables[k])
    {
      assert Reserved(s, s.tables[k]) && IsTable(s.tables, s.tables[k]);
      OtherPageKept(s.mem, m, f, s.tables[k]);
    }
    TreeFrame(s.mem, m, s.tables, s.root);
  }

  /** Linking the cleared page `f`, already taken from the bitmap, under an absent child. */
  lemma LinkPage(s: Space, t: Space, n: Node, i: nat, f: nat, w: Word)
    requires Sound(s) && n in s.tables && n.level > 0 && i < 512 && Child(n, i) !in s.tables
    requires f < s.pages && f !in s.Free() && !IsTable(s.tables, f) && f !in BitmapFrames(s.bitmap, s.pages)
    requires PageInside(s.mem, f) && forall j: nat :: j < 512 ==> !Present(Entry(s.mem, f, j))
    requires Links(w, s.tables[Child(n, i) := f], Child(n, i))
    requires t == s.(mem := StoreWord(s.mem, Slot(s.tables[n], i), w), tables := s.tables[Child(n, i) := f])
    ensures Sound(t) && t.Free() == s.Free()
    ensures forall v: nat :: Lookup(t.mem, t.tables, v) == Lookup(s.mem, s.tables, v)
  {
    assert Reserved(s, s.tables[n]);
    StoreInPage(s.mem, s.tables[n], i, w);
    PageStoreKeepsFree(s.mem, t.mem, s.bitmap, s.pages, s.tables[n]);
    LinkTable(s.mem, s.tables, s.root, n, i, f, w);
    ReservedWith(s, t, Child(n, i), f);
  }

  lemma ReservedWith(s: Space, t: Space, c: Node, f: nat)
    requires s.Placed() && t.Placed() && t.bitmap == s.bitmap && t.pages == s.pages && t.Free() == s.Free()
    requires forall k {:trigger Reserved(s, s.tables[k])} :: k in s.tables ==> Reserved(s, s.tables[k])
    requires Reserved(s, f) && t.tables == s.tables[c := f]
    ensures forall k {:trigger Reserved(t, t.tables[k])} :: k in t.tables ==> Reserved(t, t.tables[k])
  {
    forall k | k in t.tables
      ensures Reserved(t, t.tables[k])
    {
      if k != c { assert Reserved(s, s.tables[k]); }
    }
  }

  /** Storing a page-table entry retargets one page. */
  lemma RetargetPage(s: Space, t: Space, v: nat, w: Word)
    requires Sound(s) && Home(v, 0) in s.tables
    requires t == s.(mem := StoreWord(s.mem, Slot(s.tables[Home(v, 0)], Index(v, 0)), w))
    ensures Sound(t) && t.Free() == s.Free()
    ensures forall u: nat :: Lookup(t.mem, t.tables, u) ==
                             if u == v then LeafTranslation(w) else Lookup(s.mem, s.tables, u)
  {
    var pt := s.tables[Home(v, 0)];
    assert Reserved(s, pt);
    StoreInPage(s.mem, pt, Index(v, 0), w);
    PageStoreKeepsFree(s.mem, t.mem, s.bitmap, s.pages, pt);
    SetLeaf(s.mem, s.tables, s.root, v, w);
    forall k | k in t.tables
      ensures Reserved(t, t.tables[k])
    {
      assert Reserved(s, s.tables[k]);
    }
  }

  lemma WalksAreLookups(s: Space)
    requires Sound(s)
    ensures forall v: nat :: v < VPNS ==> s.Walk(v) == Lookup(s.mem, s.tables, v)
  {
    forall v: nat | v < VPNS
      ensures s.Walk(v) == Lookup(s.mem, s.tables, v)
    {
      WalkIsLookup(s.mem, s.tables, s.root, v);
    }
  }

  lemma FreeIsNoTable(s: Space, f: nat)
    requires Sound(s) && f in s.Free()
    ensures !IsTable(s.tables, f)
  {
    forall n | n in s.tables
      ensures s.tables[n] != f
    {
      assert Reserved(s, s.tables[n]);
    }
  }

  /** A page taken from the bitmap and cleared is ready to be linked. */
  lemma TakeAndClear(s: Space, m1: Memory, f: nat)
    requires Sound(s) && f in s.Free()
    requires Marked(s.mem, m1, s.bitmap, s.pages, f, f + 1, false)
    ensures !IsTable(s.tables, f) && f !in BitmapFrames(s.bitmap, s.pages) && PageInside(m1, f)
    ensures var s2 := s.(mem := ZeroRange(m1, PAGE_SIZE * f, PAGE_SIZE));
      && Sound(s2)
      && s2.Free() == s.Free() - Range(f, f + 1)
      && (forall j: nat :: j < 512 ==> !Present(Entry(s2.mem, f, j)))
      && (forall v: nat :: Lookup(s2.mem, s.tables, v) == Lookup(s.mem, s.tables, v))
  {
    TakePages(s, m1, f, f + 1);
    FreeIsNoTable(s, f);
    ClearPage(s.(mem := m1), ZeroRange(m1, PAGE_SIZE * f, PAGE_SIZE), f);
    forall j: nat | j < 512
      ensures !Present(Entry(ZeroRange(m1, PAGE_SIZE * f, PAGE_SIZE), f, j))
    {
      ZeroedEntry(m1, f, j);
    }
  }

  /** Taking page `f`, clearing it and linking it keeps the state valid and every translation. */
  lemma GrownByTable(s: Space, m1: Memory, t: Space, n: Node, i: nat, f: nat, w: Word)
    requires Sound(s) && n in s.tables && n.level > 0 && i < 512 && Child(n, i) !in s.tables
    requires f in s.Free() && Links(w, s.tables[Child(n, i) := f], Child(n, i))
    requires Marked(s.mem, m1, s.bitmap, s.pages, f, f + 1, false)
    requires t == s.(mem := StoreWord(ZeroRange(m1, PAGE_SIZE * f, PAGE_SIZE), Slot(s.tables[n], i), w),
                     tables := s.tables[Child(n, i) := f])
    ensures Sound(t) && t.Free() == s.Free() - Range(f, f + 1)
    ensures forall v: nat :: Lookup(t.mem, t.tables, v) == Lookup(s.mem, s.tables, v)
  {
    TakeAndClear(s, m1, f);
    LinkPage(s.(mem := ZeroRange(m1, PAGE_SIZE * f, PAGE_SIZE)), t, n, i, f, w);
  }

  /** Taking page `f`, clearing it and linking it is one growth step. */
  lemma TableAdded(s: Space, m1: Memory, t: Space, n: Node, i: nat, f: nat, w: Word)
    requires Sound(s) && n in s.tables && n.level > 0 && i < 512 && Child(n, i) !in s.tables
    requires f in s.Free() && Links(w, s.tables[Child(n, i) := f], Child(n, i))
    requires Marked(s.mem, m1, s.bitmap, s.pages, f, f + 1, false)
    requires t == s.(mem := StoreWord(ZeroRange(m1, PAGE_SIZE * f, PAGE_SIZE), Slot(s.tables[n], i), w),
                     tables := s.tables[Child(n, i) := f])
    ensures Extends(s, t, {Child(n, i)})
  {
    TablesKept(s.tables, n, Child(n, i), f);
    GrownData(s, m1, t, n, i, f, w);
    GrownByTable(s, m1, t, n, i, f, w);
    GrownByRange(s.Free(), s.tables, Child(n, i), f);
  }

  lemma GrownByRange(free: set<nat>, tabs: map<Node, nat>, c: Node, f: nat)
    requires c !in tabs && f in free
    ensures Grown(free, tabs, free - Range(f, f + 1), tabs[c := f])
  {
    assert Range(f, f + 1) == {f};
    assert tabs[c := f][c] == f;
    OneMoreKey(tabs, c, f);
  }

  lemma OneMoreKey(tabs: map<Node, nat>, c: Node, f: nat)
    requires c !in tabs
    ensures |tabs[c := f]| == |tabs| + 1
  {
  }

  lemma TablesKept(tabs: map<Node, nat>, n: Node, c: Node, f: nat)
    requires n in tabs && c != n
    ensures IsTable(tabs[c := f], f) && IsTable(tabs[c := f], tabs[n])
  {
    assert tabs[c := f][c] == f && tabs[c := f][n] == tabs[n];
  }

  lemma GrownData(s: Space, m1: Memory, t: Space, n: Node, i: nat, f: nat, w: Word)
    requires s.Placed() && |m1| == |s.mem| && n in s.tables && i < 512 && PageInside(m1, f)
    requires PageInside(m1, s.tables[n])
    requires Marked(s.mem, m1, s.bitmap, s.pages, f, f + 1, false)
    requires t.mem == StoreWord(ZeroRange(m1, PAGE_SIZE * f, PAGE_SIZE), Slot(s.tables[n], i), w)
    requires IsTable(t.tables, f) && IsTable(t.tables, s.tables[n])
    ensures DataKept(s, t)
  {
  }

  lemma GrowsThen(s: Space, t: Space, u: Space, nodes: set<Node>, nodes': set<Node>)
    requires Sound(s) && Sound(t) && Grows(s, t, nodes) && Grows(t, u, nodes')
    ensures Grows(s, u, nodes + nodes')
  {
    AddsTrans(s.tables, t.tables, u.tables, nodes, nodes');
    GrownTrans(s.Free(), s.tables, t.Free(), t.tables, u.Free(), u.tables);
    DataKeptTrans(s, t, u);
  }

  lemma ExtendsThen(s: Space, t: Space, u: Space, nodes: set<Node>, nodes': set<Node>)
    requires Sound(s) && Sound(t) && Extends(s, t, nodes) && Extends(t, u, nodes')
    ensures Extends(s, u, nodes + nodes')
  {
    GrowsThen(s, t, u, nodes, nodes');
  }

  /** Nothing to add: the state extends itself by nodes that are there already. */
  lemma AlreadyThere(s: Space, nodes: set<Node>)
    requires Sound(s) && forall n :: n in nodes ==> n in s.tables
    ensures Extends(s, s, nodes)
  {
  }

  lemma GrownTrans(free: set<nat>, tabs: map<Node, nat>, free': set<nat>, tabs': map<Node, nat>, free'': set<nat>, tabs'': map<Node, nat>)
    requires Grown(free, tabs, free', tabs') && Grown(free', tabs', free'', tabs'')
    ensures Grown(free, tabs, free'', tabs'')
  {
    forall p | p in free && p !in free''
      ensures IsTable(tabs'', p)
    {
      if p !in free' {
        assert IsTable(tabs', p);
        TableStays(tabs', tabs'', p);
      }
    }
  }

  lemma TableStays(tabs: map<Node, nat>, tabs': map<Node, nat>, f: nat)
    requires forall k :: k in tabs ==> k in tabs' && tabs'[k] == tabs[k]
    requires IsTable(tabs, f)
    ensures IsTable(tabs', f)
  {
  }

  lemma DataKeptTrans(s: Space, t: Space, u: Space)
    requires t.bitmap == s.bitmap && t.pages == s.pages && |t.mem| == |s.mem|
    requires forall k :: k in t.tables ==> k in u.tables && u.tables[k] == t.tables[k]
    requires DataKept(s, t) && DataKept(t, u)
    ensures DataKept(s, u)
  {
    forall f: nat | PageInside(s.mem, f) && f !in BitmapFrames(s.bitmap, s.pages) && !IsTable(u.tables, f)
      ensures SamePage(s.mem, u.mem, f)
    {
      if IsTable(t.tables, f) { TableStays(t.tables, u.tables, f); }
      assert SamePage(s.mem, t.mem, f);
      assert SamePage(t.mem, u.mem, f);
    }
  }

  // ----- The first table

  /** The bitmap is in place and no table exists yet. */
  ghost predicate Prepared(s: Space) {
    && s.Placed()
    && PaddingClear(s.mem, s.bitmap, s.pages)
    && s.Free() !! BitmapFrames(s.bitmap, s.pages)
  }

  /** A cleared root is a tree that maps nothing. */
  lemma RootTree(m: Memory, f: nat)
    requires PageInside(m, f) && forall i: nat :: i < 512 ==> !Present(Entry(m, f, i))
    ensures Tree(m, map[ROOT := f], f) && forall v: nat :: Lookup(m, map[ROOT := f], v) == NotMapped
  {
    assert forall n :: n in map[ROOT := f] ==> n == ROOT;
  }

  /** Page `f`, taken and cleared, is a sound tree that maps nothing. */
  lemma RootAlone(s: Space, m1: Memory, t: Space, f: nat)
    requires Prepared(s) && f in s.Free()
    requires Marked(s.mem, m1, s.bitmap, s.pages, f, f + 1, false)
    requires t == s.(mem := ZeroRange(m1, PAGE_SIZE * f, PAGE_SIZE), root := f, tables := map[ROOT := f])
    ensures Sound(t) && t.Free() == s.Free() - Range(f, f + 1)
    ensures DataKept(s, t)
    ensures forall v: nat :: Lookup(t.mem, t.tables, v) == NotMapped
  {
    MarkedFree(s.mem, m1, s.bitmap, s.pages, f, f + 1, false);
    ZeroInPage(m1, f);
    PageStoreKeepsFree(m1, t.mem, s.bitmap, s.pages, f);
    forall i: nat | i < 512
      ensures !Present(Entry(t.mem, f, i))
    {
      ZeroedEntry(m1, f, i);
    }
    RootTree(t.mem, f);
    assert Reserved(t, f);
    forall g: nat | PageInside(s.mem, g) && g !in BitmapFrames(s.bitmap, s.pages) && !IsTable(t.tables, g)
      ensures SamePage(s.mem, t.mem, g)
    {
      assert t.tables[ROOT] == f;
      MarkedPage(s.mem, m1, s.bitmap, s.pages, f, f + 1, false, g);
      OtherPageKept(m1, t.mem, f, g);
    }
  }

  // ----- Counting the tables a request still needs

  function Missing(tabs: map<Node, nat>, nodes: set<Node>): set<Node> {
    set n | n in nodes && n !in tabs
  }

  lemma AddsCount(tabs: map<Node, nat>, tabs': map<Node, nat>, nodes: set<Node>)
    requires Adds(tabs, tabs', nodes)
    ensures |tabs'| == |tabs| + |Missing(tabs, nodes)|
  {
    assert tabs'.Keys == tabs.Keys + Missing(tabs, nodes);
  }

  lemma AddsTrans(tabs: map<Node, nat>, tabs': map<Node, nat>, tabs'': map<Node, nat>, nodes: set<Node>, nodes': set<Node>)
    requires Adds(tabs, tabs', nodes) && Adds(tabs', tabs'', nodes')
    ensures Adds(tabs, tabs'', nodes + nodes')
  {
  }

  lemma SubsetCount<T>(x: set<T>, y: set<T>)
    requires x <= y
    ensures |x| <= |y|
  {
    assert y == x + (y - x);
  }

  /** A request that went through needed no more tables than there were free pages. */
  lemma EnoughPages(free: set<nat>, tabs: map<Node, nat>, free': set<nat>, tabs': map<Node, nat>, nodes: set<Node>)
    requires Grown(free, tabs, free', tabs') && Adds(tabs, tabs', nodes)
    ensures |Missing(tabs, nodes)| + |free'| == |free|
  {
    AddsCount(tabs, tabs', nodes);
  }

  /** A request that runs dry after `done`, with more tables still to come, needed more than there were free pages. */
  lemma RanDry(free: set<nat>, tabs: map<Node, nat>, free': set<nat>, tabs': map<Node, nat>, done: set<Node>, more: set<Node>, nodes: set<Node>)
    requires Grown(free, tabs, free', tabs') && Adds(tabs, tabs', done)
    requires |Missing(tabs', more)| > |free'| && done + more <= nodes
    ensures |Missing(tabs, nodes)| > |free|
  {
    EnoughPages(free, tabs, free', tabs', done);
    assert Missing(tabs, done) !! Missing(tabs', more);
    SubsetCount(Missing(tabs, done) + Missing(tabs', more), Missing(tabs, nodes));
  }

  lemma OneMissing(tabs: map<Node, nat>, n: Node)
    ensures |Missing(tabs, {n})| == if n in tabs then 0 else 1
  {
    assert Missing(tabs, {n}) == if n in tabs then {} else {n};
  }
}
