/**
  The packed page bitmap of the physical page manager: one bit per page frame,
  stored in the very memory whose frames it describes. A set bit means the page is free.
 */
module Bitmap {
  import opened Bits
  import opened PhysicalMemory

  /** Number of bytes that hold one bit for each of `n` pages. */
  function BitmapBytes(n: nat): nat {
    (n + 7) / 8
  }

  /** Number of page frames those bytes occupy. */
  function BitmapPages(n: nat): nat {
    (BitmapBytes(n) + PAGE_SIZE - 1) / PAGE_SIZE
  }

  /** The page frames occupied by the bitmap at physical address `bm`. */
  function BitmapFrames(bm: nat, n: nat): set<nat> {
    Range(bm / PAGE_SIZE, bm / PAGE_SIZE + BitmapPages(n))
  }

  function Range(lo: nat, hi: nat): (r: set<nat>)
    ensures forall p: nat :: p in r <==> lo <= p < hi
  {
    set p: nat | p < hi && Within(p, lo, hi)
  }

  predicate Within(p: nat, lo: nat, hi: nat) {
    lo <= p < hi
  }

  /** The bitmap for pages 0..n-1 sits at page-aligned `bm`, inside the pages it describes. */
  ghost predicate Placed(m: Memory, bm: nat, n: nat) {
    && PAGE_SIZE * n <= |m| <= 0x10_0000_0000_0000
    && bm % PAGE_SIZE == 0
    && bm + PAGE_SIZE * BitmapPages(n) <= PAGE_SIZE * n
  }

  predicate BitAt(m: Memory, bm: nat, q: nat)
    requires bm + q / 8 < |m|
  {
    m[bm + q / 8][q % 8]
  }

  /** The abstract value of the bitmap: the set of free page frames. */
  ghost function Free(m: Memory, bm: nat, n: nat): (free: set<nat>)
    requires Placed(m, bm, n)
    ensures forall p: nat :: p in free <==> p < n && BitAt(m, bm, p)
  {
    set p: nat | p < n && BitAt(m, bm, p)
  }

  /** The spare bits of the last byte stay clear. */
  ghost predicate PaddingClear(m: Memory, bm: nat, n: nat)
    requires Placed(m, bm, n)
  {
    forall q: nat :: n <= q < 8 * BitmapBytes(n) ==> !BitAt(m, bm, q)
  }

  /** From `m` to `m'` the bits lo..hi-1 were all set to `v`, and not a single other bit of memory changed. */
  ghost predicate Marked(m: Memory, m': Memory, bm: nat, n: nat, lo: nat, hi: nat, v: bool)
    requires Placed(m, bm, n)
  {
    && |m'| == |m|
    && (forall k :: 0 <= k < |m| && !(bm <= k < bm + BitmapBytes(n)) ==> m'[k] == m[k])
    && (forall q: nat :: q < 8 * BitmapBytes(n) ==>
          BitAt(m', bm, q) == if lo <= q < hi then v else BitAt(m, bm, q))
  }

  /** The byte operation that marks page `p`: `|= mask` or `&= ~mask`. */
  function MarkByte(b: Byte, i: nat, usable: bool): Byte
    requires i < CHAR_BIT
  {
    if usable then Or(b, Mask(i)) else And(b, Not(Mask(i)))
  }

  lemma MarkOne(m: Memory, bm: nat, n: nat, p: nat, v: bool)
    requires Placed(m, bm, n) && p < n
    ensures Marked(m, m[bm + p / 8 := MarkByte(m[bm + p / 8], p % 8, v)], bm, n, p, p + 1, v)
  {
  }

  lemma MarkedThen(m0: Memory, m1: Memory, m2: Memory, bm: nat, n: nat, lo: nat, mid: nat, hi: nat, v: bool)
    requires Placed(m0, bm, n) && lo <= mid <= hi
    requires Marked(m0, m1, bm, n, lo, mid, v) && Marked(m1, m2, bm, n, mid, hi, v)
    ensures Marked(m0, m2, bm, n, lo, hi, v)
  {
  }

  /** Marking adds the range to the free set or removes it, and changes nothing else of the set. */
  lemma MarkedFree(m: Memory, m': Memory, bm: nat, n: nat, lo: nat, hi: nat, v: bool)
    requires Placed(m, bm, n) && lo <= hi && (hi <= n || lo == hi)
    requires Marked(m, m', bm, n, lo, hi, v)
    ensures Placed(m', bm, n)
    ensures Free(m', bm, n) == if v then Free(m, bm, n) + Range(lo, hi) else Free(m, bm, n) - Range(lo, hi)
    ensures PaddingClear(m, bm, n) ==> PaddingClear(m', bm, n)
  {
  }

  /** Two memories that agree outside the bitmap and on every bit of it are the same memory. */
  lemma BitmapExtensional(m: Memory, m': Memory, bm: nat, n: nat)
    requires Placed(m, bm, n) && |m'| == |m|
    requires forall k :: 0 <= k < |m| && !(bm <= k < bm + BitmapBytes(n)) ==> m'[k] == m[k]
    requires forall q: nat :: q < 8 * BitmapBytes(n) ==> BitAt(m', bm, q) == BitAt(m, bm, q)
    ensures m' == m
  {
    forall k | bm <= k < bm + BitmapBytes(n)
      ensures m'[k] == m[k]
    {
      forall j | 0 <= j < 8
        ensures m'[k][j] == m[k][j]
      {
        var q := 8 * (k - bm) + j;
        assert q / 8 == k - bm && q % 8 == j;
        assert BitAt(m', bm, q) == BitAt(m, bm, q);
      }
    }
  }

  /** Taking a free range and giving it back restores every byte. */
  lemma MarkedUndone(m0: Memory, m1: Memory, m2: Memory, bm: nat, n: nat, lo: nat, hi: nat)
    requires Placed(m0, bm, n) && lo <= hi <= n
    requires forall p :: lo <= p < hi ==> p in Free(m0, bm, n)
    requires Marked(m0, m1, bm, n, lo, hi, false) && Marked(m1, m2, bm, n, lo, hi, true)
    ensures m2 == m0
  {
    forall q: nat | q < 8 * BitmapBytes(n)
      ensures BitAt(m2, bm, q) == BitAt(m0, bm, q)
    {
      if lo <= q < hi { assert q in Free(m0, bm, n); }
    }
    BitmapExtensional(m0, m2, bm, n);
  }

  /** The free set depends on the bitmap's own bytes only. */
  lemma FreeFrame(m: Memory, m': Memory, bm: nat, n: nat)
    requires Placed(m, bm, n) && |m'| == |m|
    requires forall k :: bm <= k < bm + BitmapBytes(n) ==> m'[k] == m[k]
    ensures Placed(m', bm, n) && Free(m', bm, n) == Free(m, bm, n)
    ensures PaddingClear(m, bm, n) ==> PaddingClear(m', bm, n)
  {
    assert forall q: nat :: q < 8 * BitmapBytes(n) ==> BitAt(m', bm, q) == BitAt(m, bm, q);
    assert forall p: nat :: p in Free(m', bm, n) <==> p in Free(m, bm, n);
  }

  /** From `m` to `m'` the bits of `pages` were set and not a single other bit of memory changed. */
  ghost predicate Freed(m: Memory, m': Memory, bm: nat, n: nat, pages: set<nat>)
    requires Placed(m, bm, n)
  {
    && |m'| == |m|
    && (forall k :: 0 <= k < |m| && !(bm <= k < bm + BitmapBytes(n)) ==> m'[k] == m[k])
    && (forall q: nat :: q < 8 * BitmapBytes(n) ==> (BitAt(m', bm, q) <==> q in pages || BitAt(m, bm, q)))
  }

  lemma FreedThen(m0: Memory, m1: Memory, m2: Memory, bm: nat, n: nat, pages: set<nat>, lo: nat, hi: nat)
    requires Placed(m0, bm, n)
    requires Freed(m0, m1, bm, n, pages) && Marked(m1, m2, bm, n, lo, hi, true)
    ensures Freed(m0, m2, bm, n, pages + Range(lo, hi))
  {
  }

  lemma FreedFree(m: Memory, m': Memory, bm: nat, n: nat, pages: set<nat>)
    requires Placed(m, bm, n) && Freed(m, m', bm, n, pages)
    requires forall p :: p in pages ==> p < n
    ensures Placed(m', bm, n)
    ensures Free(m', bm, n) == Free(m, bm, n) + pages
    ensures PaddingClear(m, bm, n) ==> PaddingClear(m', bm, n)
  {
  }

  /** A cleared bitmap describes the empty set. */
  lemma ClearedFree(m: Memory, bm: nat, n: nat)
    requires Placed(m, bm, n)
    requires forall k :: bm <= k < bm + BitmapBytes(n) ==> m[k] == ZERO_BYTE
    ensures Free(m, bm, n) == {} && PaddingClear(m, bm, n)
  {
  }

  /** `count` consecutive free pages start at page `i`. */
  ghost predicate RunAt(free: set<nat>, i: nat, count: nat) {
    forall p :: i <= p < i + count ==> p in free
  }

  /** `i` starts the lowest such run. */
  ghost predicate FirstRun(free: set<nat>, n: nat, i: nat, count: nat) {
    && i < n
    && RunAt(free, i, count)
    && forall k: nat :: k < i ==> !RunAt(free, k, count)
  }
}
