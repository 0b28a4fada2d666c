/** Byte-addressed physical memory, seen as a value. */
module PhysicalMemory {
  import opened Bits

  type Memory = seq<Byte>

  /** The little-endian 64-bit word at physical address `a`. */
  function LoadWord(m: Memory, a: nat): (w: Word)
    requires a + 8 <= |m|
    ensures forall k :: 0 <= k < 64 ==> w[k] == m[a + k / 8][k % 8]
  {
    seq(64, k requires 0 <= k < 64 => m[a + k / 8][k % 8])
  }

  function ByteOf(w: Word, j: nat): Byte
    requires j < 8
  {
    w[8 * j .. 8 * j + 8]
  }

  function StoreWord(m: Memory, a: nat, w: Word): (r: Memory)
    requires a + 8 <= |m|
    ensures |r| == |m|
    ensures forall k :: 0 <= k < |m| ==> r[k] == if a <= k < a + 8 then ByteOf(w, k - a) else m[k]
  {
    m[..a] + [ByteOf(w, 0), ByteOf(w, 1), ByteOf(w, 2), ByteOf(w, 3),
              ByteOf(w, 4), ByteOf(w, 5), ByteOf(w, 6), ByteOf(w, 7)] + m[a + 8..]
  }

  /** Clears the `n` bytes from `a` on. */
  function ZeroRange(m: Memory, a: nat, n: nat): (r: Memory)
    requires a + n <= |m|
    ensures |r| == |m|
    ensures forall k :: 0 <= k < |m| ==> r[k] == if a <= k < a + n then ZERO_BYTE else m[k]
  {
    m[..a] + seq(n, _ => ZERO_BYTE) + m[a + n..]
  }

  predicate PageInside(m: Memory, f: nat) {
    PAGE_SIZE * f + PAGE_SIZE <= |m|
  }

  /** Physical address of entry `i` of the 512-entry table held in page frame `f`. */
  function Slot(f: nat, i: nat): nat {
    PAGE_SIZE * f + 8 * i
  }

  /** That entry. */
  function Entry(m: Memory, f: nat, i: nat): Word
    requires i < 512 && PageInside(m, f)
  {
    LoadWord(m, Slot(f, i))
  }

  /** Both memories hold the same bytes in page frame `f`. */
  ghost predicate SamePage(m: Memory, m': Memory, f: nat) {
    && |m'| == |m|
    && PageInside(m, f)
    && forall k :: PAGE_SIZE * f <= k < PAGE_SIZE * f + PAGE_SIZE ==> m'[k] == m[k]
  }

  lemma SamePageEntry(m: Memory, m': Memory, f: nat, i: nat)
    requires SamePage(m, m', f) && i < 512
    ensures Entry(m', f, i) == Entry(m, f, i)
  {
  }

  /** A stored word is read back, and every word that does not overlap it keeps its value. */
  lemma LoadAfterStore(m: Memory, a: nat, w: Word, b: nat)
    requires a + 8 <= |m| && b + 8 <= |m|
    ensures b == a ==> LoadWord(StoreWord(m, a, w), b) == w
    ensures b + 8 <= a || a + 8 <= b ==> LoadWord(StoreWord(m, a, w), b) == LoadWord(m, b)
  {
  }

  /** Storing one entry of a table changes that entry alone among all table entries. */
  lemma EntryAfterStore(m: Memory, f: nat, i: nat, w: Word, f': nat, i': nat)
    requires i < 512 && i' < 512
    requires PageInside(m, f) && PageInside(m, f')
    ensures Entry(StoreWord(m, Slot(f, i), w), f', i') == if f' == f && i' == i then w else Entry(m, f', i')
  {
    LoadAfterStore(m, Slot(f, i), w, Slot(f', i'));
  }

  lemma ZeroedEntry(m: Memory, f: nat, i: nat)
    requires PageInside(m, f) && i < 512
    ensures forall k :: 0 <= k < 64 ==> !Entry(ZeroRange(m, PAGE_SIZE * f, PAGE_SIZE), f, i)[k]
  {
  }
}
