/**
  Four-level x86-64 paging. The processor's walk over memory is the meaning of the tables;
  the map from nodes to frames is the tree the kernel believes it has built.
 */
module Paging {
  import opened Bits
  import opened PhysicalMemory
  import opened Wrappers

  // ----- Entries, as the processor reads them (section 5.5 of Intel SDM Vol. 3A)

  predicate Present(w: Word) { w[0] }
  predicate Writable(w: Word) { w[1] }
  predicate UserMode(w: Word) { w[2] }
  predicate LargePage(w: Word) { w[7] }
  predicate ExecuteDisable(w: Word) { w[63] }

  /** Bits 51:12, a page frame number. */
  function Address(w: Word): nat {
    NatOf(w[12..52])
  }

  /** Index into the page attribute table: PAT, PCD and PWT. PAT is bit 7 of a page-table entry, bit 12 of a large page. */
  function PatIndex(w: Word, patBit: nat): nat
    requires patBit < 64
  {
    4 * Bit(w[patBit]) + 2 * Bit(w[4]) + Bit(w[3])
  }

  /** Writes the low `width` bits of `n` into bits lo+width-1..lo: an assignment to a C bit-field. */
  function SetField(w: Word, lo: nat, width: nat, n: nat): (r: Word)
    requires lo + width <= 64
    ensures forall k :: 0 <= k < 64 && !(lo <= k < lo + width) ==> r[k] == w[k]
    ensures r[lo .. lo + width] == BitsOf(n, width)
  {
    w[..lo] + BitsOf(n, width) + w[lo + width..]
  }

  // ----- The processor's walk

  datatype Rights = Rights(writable: bool, executable: bool, user: bool)

  datatype Translation =
    | NotMapped
    | Mapped(frame: nat, rights: Rights, pat: nat)
    | Fault // a reserved bit, or a table outside physical memory

  const VPNS: nat := 0x10_0000_0000 // 48-bit addresses of 4-KByte pages

  /** The part of page number `v` that selects the table of `level` on its path (0: page table .. 3: PML4). */
  function Prefix(v: nat, level: nat): nat {
    if level == 0 then v / 512 else Prefix(v, level - 1) / 512
  }

  /** The index of `v` in that table. */
  function Index(v: nat, level: nat): (i: nat)
    ensures i < 512
  {
    if level == 0 then v % 512 else Prefix(v, level - 1) % 512
  }

  function Span(level: nat): (s: nat)
    ensures s > 0
  {
    if level == 0 then 1 else 512 * Span(level - 1)
  }

  /** Rights narrow along the walk: every entry must grant write, user and execute (section 5.6). */
  function Narrow(r: Rights, e: Word): Rights {
    Rights(r.writable && Writable(e), r.executable && !ExecuteDisable(e), r.user && UserMode(e))
  }

  /** The frame of page `v` inside a large page: the offset within the span replaces the low bits of the address. */
  function LargeFrame(address: nat, span: nat, v: nat): nat
    requires span > 0
  {
    address - address % span + v % span
  }

  function WalkFrom(m: Memory, frame: nat, level: nat, v: nat, r: Rights): Translation
    decreases level
  {
    if !PageInside(m, frame) then Fault
    else
      var e := Entry(m, frame, Index(v, level));
      if !Present(e) then NotMapped
      else if level == 0 then Mapped(Address(e), Narrow(r, e), PatIndex(e, 7))
      else if LargePage(e) then
        if level >= 3 then Fault
        else Mapped(LargeFrame(Address(e), Span(level), v), Narrow(r, e), PatIndex(e, 12))
      else WalkFrom(m, Address(e), level - 1, v, Narrow(r, e))
  }

  /** What the processor makes of page number `v` when CR3 holds frame `root`. */
  function Walk(m: Memory, root: nat, v: nat): Translation {
    WalkFrom(m, root, 3, v, Rights(true, true, true))
  }

  // ----- The tree

  /** The table of `level` that serves the pages with that prefix. */
  datatype Node = Node(level: nat, prefix: nat)

  const ROOT: Node := Node(3, 0)

  function Home(v: nat, level: nat): Node {
    Node(level, Prefix(v, level))
  }

  function Child(n: Node, i: nat): Node
    requires n.level > 0
  {
    Node(n.level - 1, 512 * n.prefix + i)
  }

  function Parent(n: Node): Node {
    Node(n.level + 1, n.prefix / 512)
  }

  /** The nodes that own a frame are closed under Parent, and no two of them share a frame. */
  ghost predicate Shape(m: Memory, tabs: map<Node, nat>, root: nat) {
    && ROOT in tabs && tabs[ROOT] == root
    && (forall n :: n in tabs ==> n.level < 3 || n == ROOT)
    && (forall n {:trigger Parent(n)} :: n in tabs && n.level < 3 ==> Parent(n) in tabs)
    && (forall n :: n in tabs ==> PageInside(m, tabs[n]))
    && (forall n, n' {:trigger SameFrame(tabs, n, n')} :: n in tabs && n' in tabs && SameFrame(tabs, n, n') ==> n == n')
  }

  /** Some node of the tree owns frame `f`. */
  ghost predicate IsTable(tabs: map<Node, nat>, f: nat) {
    exists n :: n in tabs && tabs[n] == f
  }

  predicate SameFrame(tabs: map<Node, nat>, n: Node, n': Node)
    requires n in tabs && n' in tabs
  {
    tabs[n] == tabs[n']
  }

  /** `e` is what the tree demands of the entry that leads to `child`. */
  ghost predicate Links(e: Word, tabs: map<Node, nat>, child: Node) {
    if child in tabs then
      Present(e) && !LargePage(e) && Writable(e) && !UserMode(e) && !ExecuteDisable(e) && Address(e) == tabs[child]
    else
      !Present(e)
  }

  /** Memory holds exactly the tree `tabs`: every non-leaf entry is present if and only if its child owns a frame. */
  ghost predicate Tree(m: Memory, tabs: map<Node, nat>, root: nat) {
    && Shape(m, tabs, root)
    && forall n, i: nat :: n in tabs && n.level > 0 && i < 512 ==> Links(Entry(m, tabs[n], i), tabs, Child(n, i))
  }

  function LeafTranslation(e: Word): Translation {
    if Present(e) then Mapped(Address(e), Rights(Writable(e), !ExecuteDisable(e), false), PatIndex(e, 7)) else NotMapped
  }

  /** Translation read off the tree instead of walked. */
  ghost function Lookup(m: Memory, tabs: map<Node, nat>, v: nat): Translation
    requires forall n :: n in tabs ==> PageInside(m, tabs[n])
  {
    if Home(v, 0) in tabs then LeafTranslation(Entry(m, tabs[Home(v, 0)], Index(v, 0))) else NotMapped
  }

  lemma PathStep(v: nat, level: nat)
    requires level > 0
    ensures Child(Home(v, level), Index(v, level)) == Home(v, level - 1)
    ensures level <= 3 ==> Parent(Home(v, level - 1)) == Home(v, level)
  {
  }

  lemma RootPrefix(v: nat)
    requires v < VPNS
    ensures Home(v, 3) == ROOT
  {
    assert Prefix(v, 0) < 0x800_0000;
    assert Prefix(v, 1) < 0x4_0000;
    assert Prefix(v, 2) < 512;
  }

  lemma {:induction false} WalkFromNode(m: Memory, tabs: map<Node, nat>, root: nat, level: nat, v: nat, r: Rights)
    requires Tree(m, tabs, root) && level <= 3 && Home(v, level) in tabs
    requires r.writable && r.executable && (level == 3 || !r.user)
    ensures WalkFrom(m, tabs[Home(v, level)], level, v, r) ==
            if level > 0 then Lookup(m, tabs, v)
            else var e := Entry(m, tabs[Home(v, 0)], Index(v, 0));
              if Present(e) then Mapped(Address(e), Narrow(r, e), PatIndex(e, 7)) else NotMapped
  {
    if level > 0 {
      PathStep(v, level);
      var e := Entry(m, tabs[Home(v, level)], Index(v, level));
      assert Links(e, tabs, Home(v, level - 1));
      if Home(v, level - 1) in tabs {
        WalkFromNode(m, tabs, root, level - 1, v, Narrow(r, e));
      } else {
        AbsentBelow(m, tabs, root, level - 1, v);
      }
    }
  }

  lemma {:induction false} AbsentBelow(m: Memory, tabs: map<Node, nat>, root: nat, level: nat, v: nat)
    requires Shape(m, tabs, root) && level < 3 && Home(v, level) !in tabs
    ensures Home(v, 0) !in tabs
  {
    if level > 0 {
      PathStep(v, level);
      AbsentBelow(m, tabs, root, level - 1, v);
    }
  }

  /** The tree tells exactly what the processor will see; user access is always denied. */
  lemma WalkIsLookup(m: Memory, tabs: map<Node, nat>, root: nat, v: nat)
    requires Tree(m, tabs, root) && v < VPNS
    ensures Walk(m, root, v) == Lookup(m, tabs, v)
  {
    RootPrefix(v);
    WalkFromNode(m, tabs, root, 3, v, Rights(true, true, true));
  }

  // ----- How the kernel's stores act on the tree

  /** Stores that leave every table page alone leave the tree and all translations alone. */
  lemma TreeFrame(m: Memory, m': Memory, tabs: map<Node, nat>, root: nat)
    requires Tree(m, tabs, root)
    requires forall n :: n in tabs ==> SamePage(m, m', tabs[n])
    ensures Tree(m', tabs, root)
    ensures forall v: nat :: Lookup(m', tabs, v) == Lookup(m, tabs, v)
  {
    forall n, i: nat | n in tabs && i < 512
      ensures Entry(m', tabs[n], i) == Entry(m, tabs[n], i)
    {
      SamePageEntry(m, m', tabs[n], i);
    }
  }

  /** Linking a cleared page under an absent child extends the tree by that child and translates nothing new. */
  lemma LinkTable(m: Memory, tabs: map<Node, nat>, root: nat, n: Node, i: nat, f: nat, w: Word)
    requires Tree(m, tabs, root) && n in tabs && n.level > 0 && i < 512
    requires Child(n, i) !in tabs && !IsTable(tabs, f) && PageInside(m, f)
    requires forall j: nat :: j < 512 ==> !Present(Entry(m, f, j))
    requires Links(w, tabs[Child(n, i) := f], Child(n, i))
    ensures Tree(StoreWord(m, Slot(tabs[n], i), w), tabs[Child(n, i) := f], root)
    ensures forall v: nat :: Lookup(StoreWord(m, Slot(tabs[n], i), w), tabs[Child(n, i) := f], v) == Lookup(m, tabs, v)
  {
    var m' := StoreWord(m, Slot(tabs[n], i), w);
    LinkShape(m, m', tabs, root, n, i, f);
    LinkEntries(m, tabs, root, n, i, f, w);
    LinkLinks(m, m', tabs, root, n, i, f, w);
    LinkLookup(m, m', tabs, n, i, f);
  }

  lemma LinkEntries(m: Memory, tabs: map<Node, nat>, root: nat, n: Node, i: nat, f: nat, w: Word)
    requires Shape(m, tabs, root) && n in tabs && n.level > 0 && i < 512
    requires Child(n, i) !in tabs && !IsTable(tabs, f) && PageInside(m, f)
    ensures forall k, j: nat :: k in tabs && j < 512 ==>
      Entry(StoreWord(m, Slot(tabs[n], i), w), tabs[k], j) == if k == n && j == i then w else Entry(m, tabs[k], j)
    ensures forall j: nat :: j < 512 ==> Entry(StoreWord(m, Slot(tabs[n], i), w), f, j) == Entry(m, f, j)
  {
    forall k, j: nat | k in tabs && j < 512
      ensures Entry(StoreWord(m, Slot(tabs[n], i), w), tabs[k], j) == if k == n && j == i then w else Entry(m, tabs[k], j)
    {
      EntryAfterStore(m, tabs[n], i, w, tabs[k], j);
      assert SameFrame(tabs, k, n) <==> tabs[k] == tabs[n];
    }
    forall j: nat | j < 512
      ensures Entry(StoreWord(m, Slot(tabs[n], i), w), f, j) == Entry(m, f, j)
    {
      EntryAfterStore(m, tabs[n], i, w, f, j);
    }
  }

  lemma LinkLinks(m: Memory, m': Memory, tabs: map<Node, nat>, root: nat, n: Node, i: nat, f: nat, w: Word)
    requires Tree(m, tabs, root) && n in tabs && n.level > 0 && i < 512 && Child(n, i) !in tabs
    requires forall k :: k in tabs ==> PageInside(m', tabs[k])
    requires PageInside(m', f)
    requires forall k, j: nat :: k in tabs && j < 512 ==>
      Entry(m', tabs[k], j) == if k == n && j == i then w else Entry(m, tabs[k], j)
    requires forall j: nat :: j < 512 ==> !Present(Entry(m', f, j))
    requires Links(w, tabs[Child(n, i) := f], Child(n, i))
    ensures forall k, j: nat :: k in tabs[Child(n, i) := f] && k.level > 0 && j < 512 ==>
      Links(Entry(m', tabs[Child(n, i) := f][k], j), tabs[Child(n, i) := f], Child(k, j))
  {
    var c := Child(n, i);
    forall k, j: nat | k in tabs[c := f] && k.level > 0 && j < 512
      ensures Links(Entry(m', tabs[c := f][k], j), tabs[c := f], Child(k, j))
    {
      if k == c {
        NoGrandchild(tabs, m, root, c, j);
      } else {
        ChildOnce(k, j, n, i);
        assert Links(Entry(m, tabs[k], j), tabs, Child(k, j));
      }
    }
  }

  /** Different entries lead to different children. */
  lemma ChildOnce(k: Node, j: nat, n: Node, i: nat)
    requires k.level > 0 && n.level > 0 && j < 512 && i < 512
    ensures Child(k, j) == Child(n, i) <==> k == n && j == i
  {
  }

  lemma NoGrandchild(tabs: map<Node, nat>, m: Memory, root: nat, c: Node, j: nat)
    requires Shape(m, tabs, root) && c !in tabs && 0 < c.level < 3 && j < 512
    ensures Child(c, j) !in tabs && Child(c, j) != c
  {
    assert Parent(Child(c, j)) == c;
  }

  lemma LinkLookup(m: Memory, m': Memory, tabs: map<Node, nat>, n: Node, i: nat, f: nat)
    requires |m'| == |m| && n in tabs && n.level > 0 && Child(n, i) !in tabs && PageInside(m, f)
    requires forall k :: k in tabs ==> PageInside(m, tabs[k]) && PageInside(m', tabs[k])
    requires PageInside(m', f)
    requires forall k, j: nat :: k in tabs && k != n && j < 512 ==> Entry(m', tabs[k], j) == Entry(m, tabs[k], j)
    requires forall j: nat :: j < 512 ==> !Present(Entry(m', f, j))
    ensures forall v: nat :: Lookup(m', tabs[Child(n, i) := f], v) == Lookup(m, tabs, v)
  {
  }

  lemma LinkShape(m: Memory, m': Memory, tabs: map<Node, nat>, root: nat, n: Node, i: nat, f: nat)
    requires Shape(m, tabs, root) && n in tabs && n.level > 0 && i < 512 && |m'| == |m|
    requires Child(n, i) !in tabs && !IsTable(tabs, f) && PageInside(m, f)
    ensures Shape(m', tabs[Child(n, i) := f], root) && PageInside(m', f)
  {
    assert Parent(Child(n, i)) == n;
    var tabs' := tabs[Child(n, i) := f];
    forall k, k' | k in tabs' && k' in tabs' && SameFrame(tabs', k, k')
      ensures k == k'
    {
      if k in tabs && k' in tabs { assert SameFrame(tabs, k, k'); }
    }
  }

  /** Storing a page-table entry changes the translation of its own page and of no other. */
  lemma SetLeaf(m: Memory, tabs: map<Node, nat>, root: nat, v: nat, w: Word)
    requires Tree(m, tabs, root) && Home(v, 0) in tabs
    ensures Tree(StoreWord(m, Slot(tabs[Home(v, 0)], Index(v, 0)), w), tabs, root)
    ensures forall u: nat :: Lookup(StoreWord(m, Slot(tabs[Home(v, 0)], Index(v, 0)), w), tabs, u) ==
                             if u == v then LeafTranslation(w) else Lookup(m, tabs, u)
  {
    var pt := tabs[Home(v, 0)];
    var m' := StoreWord(m, Slot(pt, Index(v, 0)), w);
    forall k, j: nat | k in tabs && j < 512
      ensures Entry(m', tabs[k], j) == if k == Home(v, 0) && j == Index(v, 0) then w else Entry(m, tabs[k], j)
    {
      EntryAfterStore(m, pt, Index(v, 0), w, tabs[k], j);
      assert SameFrame(tabs, k, Home(v, 0)) <==> tabs[k] == pt;
    }
  }

  // ----- The same tree seen by following pointers from the root, with no record of what was built

  /** Frame of the table reached from the root by the indices that spell `prefix`. */
  function TableAt(m: Memory, root: nat, level: nat, prefix: nat): Option<nat>
    requires level <= 3
    decreases 3 - level
  {
    if level == 3 then (if prefix == 0 then Some(root) else None)
    else
      var up := TableAt(m, root, level + 1, prefix / 512);
      if up == None || !PageInside(m, up.value) then None
      else
        var e := Entry(m, up.value, prefix % 512);
        if Present(e) && !LargePage(e) then Some(Address(e)) else None
  }

  lemma {:induction false} TableAtIsNode(m: Memory, tabs: map<Node, nat>, root: nat, level: nat, prefix: nat)
    requires Tree(m, tabs, root) && level <= 3
    ensures TableAt(m, root, level, prefix) == if Node(level, prefix) in tabs then Some(tabs[Node(level, prefix)]) else None
    decreases 3 - level
  {
    if level < 3 {
      var n := Node(level, prefix);
      TableAtIsNode(m, tabs, root, level + 1, prefix / 512);
      if Parent(n) in tabs {
        assert Child(Parent(n), prefix % 512) == n;
        assert Links(Entry(m, tabs[Parent(n)], prefix % 512), tabs, n);
      }
    }
  }

  /** No table page is reached by two different paths. */
  lemma NoSharedTable(m: Memory, tabs: map<Node, nat>, root: nat, level: nat, prefix: nat, level': nat, prefix': nat)
    requires Tree(m, tabs, root) && level <= 3 && level' <= 3
    requires TableAt(m, root, level, prefix).Some?
    requires TableAt(m, root, level, prefix) == TableAt(m, root, level', prefix')
    ensures level == level' && prefix == prefix'
  {
    TableAtIsNode(m, tabs, root, level, prefix);
    TableAtIsNode(m, tabs, root, level', prefix');
    assert SameFrame(tabs, Node(level, prefix), Node(level', prefix'));
  }
}
