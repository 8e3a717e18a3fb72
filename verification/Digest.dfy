/** 32-byte digests, their bits, and the table that finds the first bit in which two bytes differ
    (bin/varnishd/hash_critbit.c). */
module Digests {

  const DIGEST_LEN: nat := 32

  type Digest = d: seq<bv8> | |d| == DIGEST_LEN witness seq(DIGEST_LEN, i => 0)

  /** A digest as a key of the trie: its 256 bits, most significant bit of the first byte first. */
  type Key = seq<bool>

  /** `0x80 >> r`: the mask of the bit that has `r` more significant bits in its byte. */
  function Mask(r: nat): bv8
    requires r < 8
  {
    (0x80 as bv8) >> r
  }

  predicate TestBit(d: Digest, ptr: nat, bitmask: bv8)
    requires ptr < DIGEST_LEN
  {
    d[ptr] & bitmask != 0
  }

  function Bits(d: Digest): (k: Key)
    ensures |k| == 256
  {
    seq(256, i requires 0 <= i < 256 => TestBit(d, i / 8, Mask(i % 8)))
  }

  /** What the table of common leading bits holds for `y`. */
  function LeadingZeros(y: nat): (r: nat)
    ensures r <= 8
  {
    if y < 1 then 8
    else if y < 2 then 7
    else if y < 4 then 6
    else if y < 8 then 5
    else if y < 16 then 4
    else if y < 32 then 3
    else if y < 64 then 2
    else if y < 128 then 1
    else 0
  }

  lemma MaskTable()
    ensures Mask(0) == 0x80 && Mask(1) == 0x40 && Mask(2) == 0x20 && Mask(3) == 0x10
    ensures Mask(4) == 0x08 && Mask(5) == 0x04 && Mask(6) == 0x02 && Mask(7) == 0x01
  {
  }

  lemma BvOrder(z: bv8)
    ensures z as int < 1 <==> z < 1
    ensures z as int < 2 <==> z < 2
    ensures z as int < 4 <==> z < 4
    ensures z as int < 8 <==> z < 8
    ensures z as int < 16 <==> z < 16
    ensures z as int < 32 <==> z < 32
    ensures z as int < 64 <==> z < 64
    ensures z as int < 128 <==> z < 128
  {
  }

  lemma XorBit(x: bv8, y: bv8, j: nat)
    requires j < 8
    ensures ((x ^ y) & Mask(j) == 0) <==> ((x & Mask(j) != 0) == (y & Mask(j) != 0))
  {
    MaskTable();
    if j == 0 {} else if j == 1 {} else if j == 2 {} else if j == 3 {}
    else if j == 4 {} else if j == 5 {} else if j == 6 {} else {}
  }

  /** `LeadingZeros(z)` is the position of the first one bit of `z`. */
  lemma FirstOne(z: bv8)
    ensures var r := LeadingZeros(z as int);
            && (r == 8 <==> z == 0)
            && (r < 8 ==> z & Mask(r) != 0)
            && forall j :: 0 <= j < r ==> z & Mask(j) == 0
  {
    BvOrder(z);
    MaskTable();
  }

  /** The table entry of `x ^ y` is the position of the first bit in which two bytes differ. */
  lemma BytesDifferAt(x: bv8, y: bv8)
    ensures var r := LeadingZeros((x ^ y) as int);
            && (r == 8 <==> x == y)
            && (r < 8 ==> (x & Mask(r) != 0) != (y & Mask(r) != 0))
            && forall j :: 0 <= j < r ==> (x & Mask(j) != 0) == (y & Mask(j) != 0)
  {
    var z := x ^ y;
    FirstOne(z);
    assert z == 0 <==> x == y;
    var r := LeadingZeros(z as int);
    if r < 8 {
      XorBit(x, y, r);
    }
    forall j | 0 <= j < r
      ensures (x & Mask(j) != 0) == (y & Mask(j) != 0)
    {
      XorBit(x, y, j);
    }
  }

  /** The bits of a digest go from the most significant one of its first byte to the least significant one of its
      last. */
  lemma BitAt(d: Digest, ptr: nat, r: nat)
    requires ptr < DIGEST_LEN && r < 8
    ensures 8 * ptr + r < 256
    ensures Bits(d)[8 * ptr + r] == TestBit(d, ptr, Mask(r)) == (d[ptr] & Mask(r) != 0)
  {
    assert (8 * ptr + r) / 8 == ptr && (8 * ptr + r) % 8 == r;
  }

  /** Bytes that agree in all bits are equal. */
  lemma SameBits(x: bv8, y: bv8)
    requires forall r :: 0 <= r < 8 ==> ((x & Mask(r) != 0) <==> (y & Mask(r) != 0))
    ensures x == y
  {
    MaskTable();
    assert (x & Mask(0) != 0) <==> (y & Mask(0) != 0);
    assert (x & Mask(1) != 0) <==> (y & Mask(1) != 0);
    assert (x & Mask(2) != 0) <==> (y & Mask(2) != 0);
    assert (x & Mask(3) != 0) <==> (y & Mask(3) != 0);
    assert (x & Mask(4) != 0) <==> (y & Mask(4) != 0);
    assert (x & Mask(5) != 0) <==> (y & Mask(5) != 0);
    assert (x & Mask(6) != 0) <==> (y & Mask(6) != 0);
    assert (x & Mask(7) != 0) <==> (y & Mask(7) != 0);
  }

  /** Digests with the same bits are the same digest. */
  lemma BitsInjective(d: Digest, e: Digest)
    requires Bits(d) == Bits(e)
    ensures d == e
  {
    hide Bits;
    forall i | 0 <= i < DIGEST_LEN
      ensures d[i] == e[i]
    {
      forall r | 0 <= r < 8
        ensures (d[i] & Mask(r) != 0) <==> (e[i] & Mask(r) != 0)
      {
        BitAt(d, i, r);
        BitAt(e, i, r);
      }
      SameBits(d[i], e[i]);
    }
  }
}
