/** Physical memory as the kernel updates it: an array of bytes, in place. */
module Ram {
  import opened Bits
  import opened PhysicalMemory

  class Ram {
    const bytes: array<Byte>
    ghost var contents: Memory

    ghost predicate Valid()
      reads this, bytes
    {
      contents == bytes[..]
    }

    constructor (bytes: array<Byte>)
      ensures Valid() && this.bytes == bytes && contents == bytes[..]
    {
      this.bytes := bytes;
      contents := bytes[..];
    }

    method Read(a: nat) returns (b: Byte)
      requires Valid() && a < |contents|
      ensures b == contents[a]
    {
      b := bytes[a];
    }

    method Write(a: nat, b: Byte)
      requires Valid() && a < |contents|
      modifies this, bytes
      ensures Valid() && contents == old(contents)[a := b]
    {
      bytes[a] := b;
      contents := contents[a := b];
    }

    method ReadWord(a: nat) returns (w: Word)
      requires Valid() && a + 8 <= |contents|
      ensures w == LoadWord(contents, a)
    {
      w := LoadWord(bytes[..], a);
    }

    method WriteWord(a: nat, w: Word)
      requires Valid() && a + 8 <= |contents|
      modifies this, bytes
      ensures Valid() && contents == StoreWord(old(contents), a, w)
    {
      var j := 0;
      while j < 8
        invariant 0 <= j <= 8 && Valid() && |contents| == |old(contents)|
        invariant forall k :: 0 <= k < |contents| ==>
          contents[k] == if a <= k < a + j then ByteOf(w, k - a) else old(contents)[k]
      {
        Write(a + j, ByteOf(w, j));
        j := j + 1;
      }
    }

    /** `memzero`: clears bytes one by one. */
    method Zero(a: nat, n: nat)
      requires Valid() && a + n <= |contents|
      modifies this, bytes
      ensures Valid() && contents == ZeroRange(old(contents), a, n)
    {
      var i := 0;
      while i < n
        invariant 0 <= i <= n && Valid()
        invariant contents == ZeroRange(old(contents), a, i)
      {
        Write(a + i, ZERO_BYTE);
        i := i + 1;
      }
    }
  }
}
