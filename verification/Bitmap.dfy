/** One bitmap block of the space manager: btrees/btree.c, `bm_balloc` and `bm_bfree`. */
module Bitmaps {
  import opened Common

  const BLKSZ: nat := 1024
  const BM_HEADER: nat := 8
  const BM_BYTES: nat := BLKSZ - BM_HEADER
  const BLKS_PER_BM: nat := BM_BYTES * 8

  /** The mask of a bit within its byte, highest bit first. */
  function Mask(off: nat): bv8
    requires off < 8
  {
    if off == 0 then 0x80 else Mask(off - 1) >> 1
  }

  lemma MaskValues()
    ensures Mask(0) == 0x80 && Mask(1) == 0x40 && Mask(2) == 0x20 && Mask(3) == 0x10
    ensures Mask(4) == 0x08 && Mask(5) == 0x04 && Mask(6) == 0x02 && Mask(7) == 0x01
  {
    assert Mask(1) == 0x40;
    assert Mask(2) == 0x20;
    assert Mask(3) == 0x10;
    assert Mask(4) == 0x08;
    assert Mask(5) == 0x04;
    assert Mask(6) == 0x02;
  }

  /** The scan moves its mask one bit to the right per block; the mask is exhausted after the last bit of
      a byte. Indexing shifts a one into place. Both name the same bit. */
  lemma MasksAgree(off: nat)
    requires off < 8
    ensures Mask(off) != 0
    ensures Mask(off) >> 1 == if off < 7 then Mask(off + 1) else 0
    ensures (1 as bv8) << (7 - off) == Mask(off)
  {
    MaskValues();
    match off
    case 0 => case 1 => case 2 => case 3 => case 4 => case 5 => case 6 => case 7 =>
  }

  /** Setting or clearing one bit of a byte leaves the others alone. */
  lemma MaskTouchesOneBit(b: bv8, off: nat, other: nat)
    requires off < 8 && other < 8
    ensures ((b | Mask(off)) & Mask(other) != 0) <==> (off == other || b & Mask(other) != 0)
    ensures ((b & !Mask(off)) & Mask(other) != 0) <==> (off != other && b & Mask(other) != 0)
  {
    SettingTouchesOneBit(b, off, other);
    ClearingTouchesOneBit(b, off, other);
  }

  lemma SettingTouchesOneBit(b: bv8, off: nat, other: nat)
    requires off < 8 && other < 8
    ensures ((b | Mask(off)) & Mask(other) != 0) <==> (off == other || b & Mask(other) != 0)
  {
    MaskValues();
    match off
    case 0 => case 1 => case 2 => case 3 => case 4 => case 5 => case 6 => case 7 =>
  }

  lemma ClearingTouchesOneBit(b: bv8, off: nat, other: nat)
    requires off < 8 && other < 8
    ensures ((b & !Mask(off)) & Mask(other) != 0) <==> (off != other && b & Mask(other) != 0)
  {
    MaskValues();
    match off
    case 0 => case 1 => case 2 => case 3 => case 4 => case 5 => case 6 => case 7 =>
  }

  predicate BitAt(bytes: seq<bv8>, i: nat)
    requires i < |bytes| * 8
  {
    bytes[i / 8] & Mask(i % 8) != 0
  }

  ghost function ClearBits(bytes: seq<bv8>): set<nat> {
    set i: nat | 0 <= i < |bytes| * 8 && !BitAt(bytes, i)
  }

  function WithBit(bytes: seq<bv8>, i: nat, on: bool): (after: seq<bv8>)
    requires i < |bytes| * 8
    ensures |after| == |bytes|
  {
    bytes[i / 8 := if on then bytes[i / 8] | Mask(i % 8) else bytes[i / 8] & !Mask(i % 8)]
  }

  lemma DivModUnique(i: nat, k: nat)
    requires i / 8 == k / 8
    ensures i % 8 == k % 8 <==> i == k
  {
  }

  /** Writing one byte with one bit changed changes exactly that bit of the bitmap. */
  lemma BitUpdate(bytes: seq<bv8>, i: nat, on: bool, k: nat)
    requires i < |bytes| * 8 && k < |bytes| * 8
    ensures BitAt(WithBit(bytes, i, on), k) <==> if k == i then on else BitAt(bytes, k)
  {
    var after := WithBit(bytes, i, on);
    if k / 8 == i / 8 {
      MaskTouchesOneBit(bytes[i / 8], i % 8, k % 8);
      DivModUnique(i, k);
      assert after[k / 8] == if on then bytes[i / 8] | Mask(i % 8) else bytes[i / 8] & !Mask(i % 8);
    } else {
      assert after[k / 8] == bytes[k / 8];
    }
  }

  lemma ClearBitsUpdate(bytes: seq<bv8>, i: nat, on: bool)
    requires i < |bytes| * 8
    ensures ClearBits(WithBit(bytes, i, on)) == if on then ClearBits(bytes) - {i} else ClearBits(bytes) + {i}
  {
    forall k: nat | k < |bytes| * 8
      ensures BitAt(WithBit(bytes, i, on), k) <==> if k == i then on else BitAt(bytes, k)
    {
      BitUpdate(bytes, i, on, k);
    }
  }

  ghost predicate IsLeast(i: nat, s: set<nat>) {
    i in s && forall k <- s :: i <= k
  }

  ghost predicate Within(lo: nat, i: nat, hi: nat) {
    lo <= i < hi
  }

  ghost function Range(lo: nat, hi: nat): set<nat> {
    set i: nat | i < hi && Within(lo, i, hi)
  }

  lemma {:induction false} RangeSize(lo: nat, hi: nat)
    ensures |Range(lo, hi)| == if lo <= hi then hi - lo else 0
    decreases hi
  {
    if lo < hi {
      RangeSize(lo, hi - 1);
      assert Range(lo, hi) == Range(lo, hi - 1) + {hi - 1};
    } else {
      assert Range(lo, hi) == {};
    }
  }

  lemma ByteOfOnes(off: nat)
    requires off < 8
    ensures 0xff & Mask(off) != 0 && (0 as bv8) & Mask(off) == 0
  {
    MaskValues();
  }

  lemma MaskLeft(off: nat)
    requires off < 8
    ensures off > 0 ==> Mask(off) << 1 == Mask(off - 1)
  {
    MaskValues();
  }

  lemma AllClear(bytes: seq<bv8>)
    requires forall j :: 0 <= j < |bytes| ==> bytes[j] == 0
    ensures ClearBits(bytes) == Range(0, |bytes| * 8)
  {
    forall i: nat | i < |bytes| * 8 ensures !BitAt(bytes, i) {
      ByteOfOnes(i % 8);
    }
  }

  lemma TailSet(bytes: seq<bv8>, extra: nat)
    requires extra <= |bytes| && forall j :: 0 <= j < |bytes| ==> bytes[j] == if extra <= j then 0xff else 0
    ensures ClearBits(bytes) == Range(0, extra * 8)
  {
    forall i: nat | i < |bytes| * 8 ensures BitAt(bytes, i) <==> extra * 8 <= i {
      ByteOfOnes(i % 8);
    }
  }

  lemma ByteOfBits(x: bv8, y: bv8)
    requires forall off: nat :: off < 8 ==> (x & Mask(off) != 0 <==> y & Mask(off) != 0)
    ensures x == y
  {
    MaskValues();
    assert forall off: nat :: off < 8 ==> (x & Mask(off) == y & Mask(off)) by {
      forall off: nat | off < 8 ensures x & Mask(off) == y & Mask(off) {
        match off
        case 0 => case 1 => case 2 => case 3 => case 4 => case 5 => case 6 => case 7 =>
      }
    }
    assert x & Mask(0) == y & Mask(0) && x & Mask(1) == y & Mask(1) && x & Mask(2) == y & Mask(2);
    assert x & Mask(3) == y & Mask(3) && x & Mask(4) == y & Mask(4) && x & Mask(5) == y & Mask(5);
    assert x & Mask(6) == y & Mask(6) && x & Mask(7) == y & Mask(7);
  }

  lemma BitOfByte(bytes: seq<bv8>, j: nat, off: nat)
    requires j < |bytes| && off < 8
    ensures j * 8 + off in ClearBits(bytes) <==> bytes[j] & Mask(off) == 0
  {
    var i := j * 8 + off;
    assert i / 8 == j && i % 8 == off;
    assert i in ClearBits(bytes) <==> !BitAt(bytes, i);
  }

  lemma SameByte(a: seq<bv8>, b: seq<bv8>, j: nat)
    requires j < |a| == |b| && ClearBits(a) == ClearBits(b)
    ensures a[j] == b[j]
  {
    hide ClearBits, Mask;
    forall off: nat | off < 8 ensures a[j] & Mask(off) != 0 <==> b[j] & Mask(off) != 0 {
      BitOfByte(a, j, off);
      BitOfByte(b, j, off);
    }
    ByteOfBits(a[j], b[j]);
  }

  /** The clear bits determine the bitmap. */
  lemma ClearBitsDetermine(a: seq<bv8>, b: seq<bv8>)
    requires |a| == |b|
    ensures ClearBits(a) == ClearBits(b) <==> a == b
  {
    hide ClearBits;
    if ClearBits(a) == ClearBits(b) {
      forall j | 0 <= j < |a| ensures a[j] == b[j] {
        SameByte(a, b, j);
      }
    }
  }

  /** Allocating a block and freeing it again restores every byte. */
  lemma AllocateThenFree(bytes: seq<bv8>, i: nat)
    requires i in ClearBits(bytes)
    ensures WithBit(WithBit(bytes, i, true), i, false) == bytes
  {
    ClearBitsUpdate(bytes, i, true);
    ClearBitsUpdate(WithBit(bytes, i, true), i, false);
    ClearBitsDetermine(WithBit(WithBit(bytes, i, true), i, false), bytes);
  }

  /** The scan's next position: the next mask, and after the last one of a byte the next byte. */
  method NextBit(byte: nat, bit: bv8, ghost i: nat) returns (byte': nat, bit': bv8)
    requires byte == i / 8 && bit == Mask(i % 8)
    ensures byte' == (i + 1) / 8 && bit' == Mask((i + 1) % 8)
  {
    MasksAgree(i % 8);
    byte', bit' := byte, bit >> 1;
    if bit' == 0 {
      byte' := byte + 1;
      bit' := 0x80;
    }
  }

  lemma RangeEnds(lo: nat, hi: nat)
    requires lo < hi
    ensures Range(lo, hi) - {lo} == Range(lo + 1, hi) && Range(lo, hi) - {hi - 1} == Range(lo, hi - 1)
  {
  }

  class Bitmap {
    var nfree: nat
    const bytes: array<bv8>

    ghost predicate Valid()
      reads this, bytes
    {
      bytes.Length == BM_BYTES && nfree == |ClearBits(bytes[..])|
    }

    /** Block `i` of this bitmap is allocated. */
    ghost predicate Allocated(i: nat)
      requires bytes.Length == BM_BYTES && i < BLKS_PER_BM
      reads bytes
    {
      BitAt(bytes[..], i)
    }

    /** A bitmap whose first `n` blocks are allocated, as written for the blocks the tree starts with. */
    constructor Leading(n: nat)
      requires n <= BLKS_PER_BM
      ensures Valid() && fresh(bytes) && ClearBits(bytes[..]) == Range(n, BLKS_PER_BM)
    {
      bytes := new bv8[BM_BYTES](_ => 0);
      nfree := BLKS_PER_BM;
      new;
      RangeSize(0, BLKS_PER_BM);
      AllClear(bytes[..]);
      var byte, bit: bv8 := 0, 0x80;
      for i := 0 to n
        invariant byte == i / 8 && bit == Mask(i % 8)
        invariant bytes.Length == BM_BYTES && fresh(bytes)
        invariant ClearBits(bytes[..]) == Range(i, BLKS_PER_BM) && nfree == BLKS_PER_BM - i
      {
        SetBit(byte, bit, i);
        RangeEnds(i, BLKS_PER_BM);
        nfree := nfree - 1;
        byte, bit := NextBit(byte, bit, i);
      }
      RangeSize(n, BLKS_PER_BM);
    }

    /** A bitmap whose last `n` bits stand for no block and are marked allocated. */
    constructor Trailing(n: nat)
      requires n <= BLKS_PER_BM
      ensures Valid() && fresh(bytes) && ClearBits(bytes[..]) == Range(0, BLKS_PER_BM - n)
    {
      bytes := new bv8[BM_BYTES](_ => 0);
      nfree := BLKS_PER_BM - n;
      new;
      var extra := BM_BYTES - n / 8;
      FillFrom(extra);
      if n % 8 != 0 {
        SetLowBits(extra - 1, n % 8);
      }
      RangeSize(0, BLKS_PER_BM - n);
    }

    /** Marks one block allocated. */
    method SetBit(byte: nat, bit: bv8, ghost i: nat)
      requires i < bytes.Length * 8 && byte == i / 8 && bit == Mask(i % 8)
      modifies bytes
      ensures ClearBits(bytes[..]) == ClearBits(old(bytes[..])) - {i}
    {
      ClearBitsUpdate(bytes[..], i, true);
      bytes[byte] := bytes[byte] | bit;
      assert bytes[..] == WithBit(old(bytes[..]), i, true);
    }

    method FillFrom(extra: nat)
      requires bytes.Length == BM_BYTES && extra <= BM_BYTES
      requires forall j :: 0 <= j < BM_BYTES ==> bytes[j] == 0
      modifies bytes
      ensures ClearBits(bytes[..]) == Range(0, extra * 8)
    {
      for k := extra to BM_BYTES
        invariant forall j :: 0 <= j < BM_BYTES ==> bytes[j] == if extra <= j < k then 0xff else 0
      {
        bytes[k] := 0xff;
      }
      TailSet(bytes[..], extra);
    }

    method SetLowBits(byte: nat, n: nat)
      requires bytes.Length == BM_BYTES && byte < BM_BYTES && n < 8
      requires ClearBits(bytes[..]) == Range(0, byte * 8 + 8)
      modifies bytes
      ensures ClearBits(bytes[..]) == Range(0, byte * 8 + 8 - n)
    {
      var bit: bv8 := 1;
      MasksAgree(7);
      for i := 0 to n
        invariant bit == Mask(7 - i)
        invariant ClearBits(bytes[..]) == Range(0, byte * 8 + 8 - i)
      {
        SetBit(byte, bit, byte * 8 + 7 - i);
        RangeEnds(0, byte * 8 + 8 - i);
        MaskLeft(7 - i);
        bit := bit << 1;
      }
    }

    /** Scans byte by byte and mask by mask for the first clear bit. */
    method FirstClear() returns (ind: nat, byte: nat, bit: bv8)
      requires Valid() && nfree != 0
      ensures IsLeast(ind, ClearBits(bytes[..]))
      ensures byte == ind / 8 && bit == Mask(ind % 8)
    {
      ghost var free: nat :| free in ClearBits(bytes[..]);
      byte, bit, ind := 0, 0x80, 0;
      while ind < BLKS_PER_BM
        invariant ind <= BLKS_PER_BM && byte == ind / 8 && bit == Mask(ind % 8)
        invariant forall k <- ClearBits(bytes[..]) :: ind <= k
      {
        if bytes[byte] & bit == 0 {
          assert ind in ClearBits(bytes[..]);
          return;
        }
        assert Allocated(ind);
        byte, bit := NextBit(byte, bit, ind);
        ind := ind + 1;
      }
      assert false;
    }

    /** Allocates the first free block. */
    method Balloc() returns (err: Err, bmind: nat)
      requires Valid()
      modifies this, bytes
      ensures Valid()
      ensures err == if old(nfree) == 0 then ENOENT else Ok
      ensures err != Ok ==> nfree == old(nfree) && bytes[..] == old(bytes[..])
      ensures err == Ok ==>
                && IsLeast(bmind, ClearBits(old(bytes[..]))) && nfree == old(nfree) - 1
                && ClearBits(bytes[..]) == ClearBits(old(bytes[..])) - {bmind}
    {
      if nfree == 0 {
        return ENOENT, 0;
      }
      var byte, bit;
      bmind, byte, bit := FirstClear();
      SetBit(byte, bit, bmind);
      nfree := nfree - 1;
      err := Ok;
    }

    /** Frees one allocated block. The program asserts that some block of the bitmap is free already. */
    method Bfree(bmind: nat)
      requires Valid() && nfree != 0
      requires bmind < BLKS_PER_BM && Allocated(bmind)
      modifies this, bytes
      ensures Valid() && nfree == old(nfree) + 1
      ensures ClearBits(bytes[..]) == ClearBits(old(bytes[..])) + {bmind}
    {
      var bind, boff := bmind / 8, bmind % 8;
      var bit: bv8 := (1 as bv8) << (7 - boff);
      MasksAgree(boff);
      ClearBitsUpdate(bytes[..], bmind, false);
      bytes[bind] := bytes[bind] & !bit;
      assert bytes[..] == WithBit(old(bytes[..]), bmind, false);
      nfree := nfree + 1;
    }
  }
}
