/** Bytes and 64-bit words as vectors of bits (bit 0 first), the C operators on them, and unsigned 64-bit arithmetic. */
module Bits {

  type Byte = b: seq<bool> | |b| == 8 witness [false, false, false, false, false, false, false, false]
  type Word = w: seq<bool> | |w| == 64 witness seq(64, _ => false)

  /** A 32-bit device register. */
  type Reg = r: seq<bool> | |r| == 32 witness seq(32, _ => false)

  const TWO64: nat := 0x1_0000_0000_0000_0000
  const PAGE_SIZE: nat := 0x1000
  const CHAR_BIT: nat := 8

  const ZERO_BYTE: Byte := [false, false, false, false, false, false, false, false]

  /** `1 << i` stored in a byte */
  function Mask(i: nat): Byte
    requires i < CHAR_BIT
  {
    ZERO_BYTE[i := true]
  }

  /** `x | y` */
  function Or(x: Byte, y: Byte): Byte {
    seq(8, i requires 0 <= i < 8 => x[i] || y[i])
  }

  /** `x & y` */
  function And(x: Byte, y: Byte): Byte {
    seq(8, i requires 0 <= i < 8 => x[i] && y[i])
  }

  /** `~x` truncated to a byte */
  function Not(x: Byte): Byte {
    seq(8, i requires 0 <= i < 8 => !x[i])
  }

  function Bit(b: bool): nat {
    if b then 1 else 0
  }

  function Pow2(n: nat): (p: nat)
    ensures p > 0
  {
    if n == 0 then 1 else 2 * Pow2(n - 1)
  }

  /** The number a bit vector stands for. */
  function NatOf(bits: seq<bool>): nat {
    if bits == [] then 0 else Bit(bits[0]) + 2 * NatOf(bits[1..])
  }

  /** The low `width` bits of `n`: what storing `n` in a bit-field of that width keeps. */
  function BitsOf(n: nat, width: nat): (bits: seq<bool>)
    ensures |bits| == width
  {
    if width == 0 then [] else [n % 2 == 1] + BitsOf(n / 2, width - 1)
  }

  /** A value that fits survives the store in a bit-field. */
  lemma {:induction false} NatOfBitsOf(n: nat, width: nat)
    requires n < Pow2(width)
    ensures NatOf(BitsOf(n, width)) == n
  {
    if width > 0 {
      NatOfBitsOf(n / 2, width - 1);
      assert BitsOf(n, width)[1..] == BitsOf(n / 2, width - 1);
    }
  }

  lemma {:induction false} NatOfBound(bits: seq<bool>)
    ensures NatOf(bits) < Pow2(|bits|)
  {
    if bits != [] { NatOfBound(bits[1..]); }
  }

  lemma Pow2Of40()
    ensures Pow2(40) == 0x100_0000_0000
  {
    assert Pow2(10) == 0x400;
    assert Pow2(20) == 0x10_0000;
    assert Pow2(30) == 0x4000_0000;
  }

  lemma Pow2Of64()
    ensures Pow2(64) == TWO64
  {
    Pow2Of40();
    assert Pow2(48) == 0x1_0000_0000_0000;
    assert Pow2(56) == 0x100_0000_0000_0000;
  }

  /** The word of a 64-bit number. */
  function WordOf(n: nat): Word {
    seq(64, k requires 0 <= k < 64 => n / Pow2(k) % 2 == 1)
  }

  lemma {:induction false} BitAtIndex(n: nat, width: nat, k: nat)
    requires k < width
    ensures BitsOf(n, width)[k] == (n / Pow2(k) % 2 == 1)
  {
    if k > 0 {
      BitAtIndex(n / 2, width - 1, k - 1);
      HalfThen(n, Pow2(k - 1));
    }
  }

  lemma HalfThen(n: nat, p: nat)
    requires p > 0
    ensures n / 2 / p == n / (2 * p)
  {
    var q := n / (2 * p);
    assert n == 2 * p * q + n % (2 * p);
    var rest := n % (2 * p);
    assert n / 2 == p * q + rest / 2;
    assert 0 <= rest / 2 < p;
    QuotientOf(n / 2, p, q, rest / 2);
  }

  lemma QuotientOf(x: nat, p: nat, q: nat, r: nat)
    requires p > 0 && x == p * q + r && r < p
    ensures x / p == q
  {
    var d := x / p - q;
    assert x == p * (x / p) + x % p;
    assert p * d == r - x % p;
    Multiple(p, d);
  }

  lemma Multiple(p: nat, d: int)
    ensures d >= 1 ==> p * d >= p
    ensures d <= -1 ==> p * d + p <= 0
  {
  }

  /** A 64-bit number survives being stored as a word. */
  lemma AddressWord(n: nat)
    requires n < TWO64
    ensures NatOf(WordOf(n)) == n
  {
    Pow2Of64();
    NatOfBitsOf(n, 64);
    WordIsBits(n, BitsOf(n, 64));
  }

  lemma WordIsBits(n: nat, bits: Word)
    requires bits == BitsOf(n, 64)
    ensures WordOf(n) == bits
  {
    forall k | 0 <= k < 64
      ensures WordOf(n)[k] == bits[k]
    {
      BitAtIndex(n, 64, k);
    }
  }

  /** Reduction of an unsigned 64-bit result. */
  function U64(x: int): (r: nat)
    ensures r < TWO64
    ensures 0 <= x < TWO64 ==> r == x
  {
    x % TWO64
  }

  function RoundDown(value: nat, multiple: nat): nat
    requires multiple > 0
  {
    if value % multiple != 0 then value - value % multiple else value
  }

  /** 64-bit: the addition wraps when the next multiple does not fit. */
  function RoundUp(value: nat, multiple: nat): nat
    requires multiple > 0
  {
    if value % multiple != 0 then U64(RoundDown(value, multiple) + multiple) else value
  }

  /** Rounding to pages yields the enclosing page bounds, except that rounding up wraps to 0 past the last page. */
  lemma PageRounding(value: nat)
    requires value < TWO64
    ensures RoundDown(value, PAGE_SIZE) == value / PAGE_SIZE * PAGE_SIZE
    ensures value <= TWO64 - PAGE_SIZE ==>
      RoundUp(value, PAGE_SIZE) == (value + PAGE_SIZE - 1) / PAGE_SIZE * PAGE_SIZE
    ensures value > TWO64 - PAGE_SIZE ==> RoundUp(value, PAGE_SIZE) == 0
  {
  }
}
