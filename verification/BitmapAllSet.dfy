/**
 Clearing the bits past the end, and the bitmap of include/rte_bitmap.h that starts with every bit
 set: the bits below n are its members and the two levels agree, for any n.
 */
module BitmapAllSet {
  import opened Words
  import opened BitmapSpec
  import opened BitmapScan
  import opened BitmapLayout
  import opened RteBitmap

  const ALL_ONES: u64 := 0xFFFF_FFFF_FFFF_FFFF

  // b is a with the bits at lo up to, not including, hi cleared.
  ghost predicate Cleared(a: Slabs, b: Slabs, lo: nat, hi: nat) {
    |b| == |a| && forall q: nat :: q < |a| * 64 ==> Has(b, q) == (Has(a, q) && !(lo <= q < hi))
  }

  lemma {:induction false} ClearedOneMore(a: Slabs, b: Slabs, lo: nat, k: nat)
    requires Cleared(a, b, lo, k) && lo <= k < |a| * 64
    ensures Cleared(a, WithoutBit(b, k), lo, k + 1)
  {
    forall q: nat | q < |a| * 64
      ensures Has(WithoutBit(b, k), q) == (Has(a, q) && !(lo <= q < k + 1))
    {
      HasWithoutBit(b, k, q);
    }
  }

  lemma {:induction false} ClearedTail(a: Slabs, b: Slabs, c: Slabs, lo: nat, index: nat)
    requires lo <= 64 * index && index <= |a| && Cleared(a, b, lo, 64 * index)
    requires |c| == |a| && c[..index] == b[..index] && forall k :: index <= k < |a| ==> c[k] == 0
    ensures Cleared(a, c, lo, |a| * 64)
  {
    forall q: nat | q < |a| * 64
      ensures Has(c, q) == (Has(a, q) && !(lo <= q < |a| * 64))
    {
      if q / 64 < index {
        assert c[q / 64] == c[..index][q / 64] == b[q / 64];
        assert Has(b, q) == Has(c, q);
      } else {
        ZeroBit(q % 64);
      }
    }
  }

  method ClearSlabOverheadBits(slabs: array<u64>, pos: nat)
    requires pos <= slabs.Length * 64
    modifies slabs
    ensures Cleared(old(slabs[..]), slabs[..], pos, slabs.Length * 64)
  {
    ghost var a := slabs[..];
    var index, offset := pos / 64, pos % 64;
    if offset != 0 {
      for i := offset to 64
        invariant Cleared(a, slabs[..], pos, 64 * index + i)
      {
        ClearedOneMore(a, slabs[..], pos, 64 * index + i);
        ClearBitOf(slabs, 64 * index + i);
      }
      index := index + 1;
    }
    ghost var b := slabs[..];
    assert Cleared(a, b, pos, 64 * index);
    forall k | index <= k < slabs.Length {
      slabs[k] := 0;
    }
    assert slabs[..index] == b[..index];
    ClearedTail(a, b, slabs[..], pos, index);
  }

  ghost predicate HasBelow(a: Slabs, n: nat) {
    forall q: nat :: q < |a| * 64 ==> (Has(a, q) <==> q < n)
  }

  lemma {:induction false} ClearedOnes(a: Slabs, b: Slabs, n: nat)
    requires n <= |a| * 64 && Cleared(a, b, n, |a| * 64) && forall k :: 0 <= k < |a| ==> a[k] == ALL_ONES
    ensures HasBelow(b, n)
  {
    forall q: nat | q < |a| * 64
      ensures Has(b, q) <==> q < n
    {
      BitOfNot64(0, q % 64);
      ZeroBit(q % 64);
      assert Has(a, q);
    }
  }

  // One array1 bit for every line, and the n bits reaching into the last line, keep the levels in step.
  lemma {:induction false} AllSetTwoLevel(a1: Slabs, a2: Slabs, n: nat)
    requires |a2| % 8 == 0 && |a2| / 8 <= |a1| * 64
    requires HasBelow(a1, |a2| / 8) && HasBelow(a2, n) && n <= 64 * |a2| < n + 512
    ensures TwoLevel(a1, a2)
    ensures forall p: nat :: p in Members(a2) <==> p < n
  {
    forall l: nat | l < |a1| * 64
      ensures Has(a1, l) <==> LineUsed(a2, l)
    {
      if l < |a2| / 8 {
        assert Has(a2, 512 * l);
        SlabUsed(a2, 8 * l);
        assert 512 * l / 64 == 8 * l;
        assert a2[8 * l] != 0;
      }
    }
  }

  lemma {:induction false} AllSetIsValid(s: State, n: nat)
    requires Sizes(|s.a1|, |s.a2|) && s.line == |s.a1| * 64 - 1 && s.within == 0
    requires HasBelow(s.a1, |s.a2| / 8) && HasBelow(s.a2, n) && n <= 64 * |s.a2| < n + 512
    ensures BitmapSpec.Valid(s) && Marked(s) && Cursor(s) == 0
    ensures forall p: nat :: p in Members(s.a2) <==> p < n
  {
    hide Cursor, Members, HasBelow, TwoLevel, IsPow2;
    AllSetTwoLevel(s.a1, s.a2, n);
    ValidIsMarked(s);
    RewoundCursor(s);
  }

  lemma {:induction false} FilledIsValid(bmp: Bitmap, n: nat)
    requires bmp.arrayOne != bmp.arrayTwo && Sizes(bmp.arrayOne.Length, bmp.arrayTwo.Length)
    requires bmp.index1 < bmp.arrayOne.Length && bmp.offset1 < 64 && bmp.go2 == 0
    requires bmp.Line() == bmp.arrayOne.Length * 64 - 1 && bmp.index2 == bmp.arrayOne.Length * 512
    requires HasBelow(bmp.arrayOne[..], bmp.arrayTwo.Length / 8) && HasBelow(bmp.arrayTwo[..], n)
    requires n <= 64 * bmp.arrayTwo.Length < n + 512
    ensures bmp.Valid() && bmp.Rewound()
    ensures forall p: nat :: p in Members(bmp.arrayTwo[..]) <==> p < n
  {
    hide Sizes, Members, Cursor, BitmapSpec.Valid, Marked, HasBelow;
    AllSetIsValid(bmp.Abs(), n);
  }

  // The caller must pass enough memory: the size test lets less through, as SizeTestsExactly says.
  method InitWithAllSet(nBits: u32, mem: bool, aligned: bool, memSize: u32) returns (bmp: Bitmap?)
    requires nBits <= TWO_32 - 512 && GetMemoryFootprint(nBits) <= memSize
    ensures bmp == null <==> nBits == 0 || !mem || !aligned || memSize != Footprint(nBits).total
    ensures bmp != null ==>
      && fresh(bmp) && fresh(bmp.arrayOne) && fresh(bmp.arrayTwo)
      && bmp.arrayOne.Length == Footprint(nBits).array1Slabs
      && bmp.arrayTwo.Length == Footprint(nBits).array2Slabs
      && bmp.Valid() && bmp.Rewound()
      && forall p: nat :: p in Members(bmp.arrayTwo[..]) <==> p < nBits
  {
    hide Footprint, Sizes, Members, Cursor, BitmapSpec.Valid, Marked, HasBelow, IsPow2, Zeros;
    if nBits == 0 || !mem || !aligned {
      return null;
    }
    var l := Footprint(nBits);
    if AllSetRefuses(l.total, memSize) {
      return null;
    }
    LayoutSizes(nBits);
    bmp := new Bitmap.Zeroed(l);
    FillWithOnes(bmp, nBits);
    FilledIsValid(bmp, nBits);
  }

  method FillWithOnes(bmp: Bitmap, nBits: u32)
    requires bmp.arrayOne != bmp.arrayTwo && Sizes(bmp.arrayOne.Length, bmp.arrayTwo.Length)
    requires nBits <= bmp.arrayTwo.Length * 64
    modifies bmp.arrayOne, bmp.arrayTwo
    ensures HasBelow(bmp.arrayOne[..], bmp.arrayTwo.Length / 8) && HasBelow(bmp.arrayTwo[..], nBits)
  {
    forall k | 0 <= k < bmp.arrayOne.Length {
      bmp.arrayOne[k] := ALL_ONES;
    }
    forall k | 0 <= k < bmp.arrayTwo.Length {
      bmp.arrayTwo[k] := ALL_ONES;
    }
    ghost var a1, a2 := bmp.arrayOne[..], bmp.arrayTwo[..];
    ClearSlabOverheadBits(bmp.arrayOne, bmp.arrayTwo.Length / 8);
    ClearSlabOverheadBits(bmp.arrayTwo, nBits);
    ClearedOnes(a1, bmp.arrayOne[..], bmp.arrayTwo.Length / 8);
    ClearedOnes(a2, bmp.arrayTwo[..], nBits);
  }
}
