/**
 The bitmap of include/rte_bitmap.h as the object it is: two arrays updated in place and a scan
 cursor of four fields. Every method is tied to the specification in BitmapSpec and BitmapScan.
 */
module RteBitmap {
  import opened Words
  import opened BitmapSpec
  import opened BitmapScan
  import opened BitmapLayout
  import opened BitmapSearch
  import opened BitmapRawScan

  // `slabs[p / 64] |= 1llu << (p % 64)` and `slabs[p / 64] &= ~(1llu << (p % 64))`.
  method SetBitOf(slabs: array<u64>, p: nat)
    requires p < slabs.Length * 64
    modifies slabs
    ensures slabs[..] == WithBit(old(slabs[..]), p)
  {
    slabs[p / 64] := SlabWithBit(slabs[p / 64], p % 64);
  }

  method ClearBitOf(slabs: array<u64>, p: nat)
    requires p < slabs.Length * 64
    modifies slabs
    ensures slabs[..] == WithoutBit(old(slabs[..]), p)
  {
    slabs[p / 64] := SlabWithoutBit(slabs[p / 64], p % 64);
  }

  method ZeroAll(slabs: array<u64>)
    modifies slabs
    ensures slabs[..] == Zeros(slabs.Length)
  {
    forall i | 0 <= i < slabs.Length {
      slabs[i] := 0;
    }
  }

  // The layout's sizes are those of a bitmap with room for the bits.
  lemma {:induction false} LayoutSizes(nBits: u32)
    requires 1 <= nBits <= TWO_32 - 512
    ensures var l := Footprint(nBits);
            && Sizes(l.array1Slabs, l.array2Slabs) && 0 < l.array1Slabs <= MAX_ARRAY1
            && nBits <= l.array2Slabs * 64 < nBits + 512
  {
    hide Footprint, Lines, IsPow2;
    LayoutIsSound(nBits);
  }

  class Bitmap {
    const arrayOne: array<u64>
    const arrayTwo: array<u64>
    var index1: u32
    var offset1: u32
    var index2: u32
    var go2: u32

    ghost function Line(): nat
      reads this
    {
      index1 * 64 + offset1
    }

    ghost function Abs(): State
      reads this, arrayOne, arrayTwo
    {
      State(arrayOne[..], arrayTwo[..], Line(), go2)
    }

    // go2 says how far into its line index2 is, and while it is inside that is the line visited last.
    // Every used line is marked in array1.
    ghost predicate Usable()
      reads this, arrayOne, arrayTwo
    {
      && arrayOne != arrayTwo
      && index1 < arrayOne.Length && offset1 < 64
      && Marked(Abs())
      && go2 == index2 % 8
      && (go2 != 0 ==> index2 / 8 == Line())
    }

    // Moreover no empty line is.
    ghost predicate Valid()
      reads this, arrayOne, arrayTwo
    {
      Usable() && BitmapSpec.Valid(Abs())
    }

    // The last bit of array1 counts as visited and used up, so that the first line comes next.
    ghost predicate Rewound()
      reads this, arrayOne, arrayTwo
    {
      index1 == arrayOne.Length - 1 && offset1 == 63 && go2 == 0 && Cursor(Abs()) == 0
    }

    method Index1Inc()
      requires IsPow2(arrayOne.Length) && index1 < arrayOne.Length <= MAX_ARRAY1
      modifies this`index1
      ensures index1 == NextIndex(old(index1), arrayOne.Length)
    {
      NextIndexMask(index1, arrayOne.Length);
      index1 := And(index1 + 1, arrayOne.Length - 1);
    }

    method Index2Set()
      modifies this`index2
      ensures index1 < MAX_ARRAY1 && offset1 < 64 ==> index2 == 8 * Line()
    {
      index2 := Wrap32(Wrap32(index1 * 64 + offset1) * 8);
    }

    method ScanInit()
      requires arrayOne.Length <= MAX_ARRAY1
      modifies this
      ensures offset1 < 64 && go2 == 0
      ensures arrayOne.Length > 0 ==>
        index1 < arrayOne.Length && Line() == arrayOne.Length * 64 - 1 && index2 == arrayOne.Length * 512
      ensures arrayOne.Length == 0 ==> index1 == TWO_32 - 1
    {
      index1 := if arrayOne.Length == 0 then TWO_32 - 1 else arrayOne.Length - 1;
      offset1 := 63;
      Index2Set();
      index2 := Plus32(index2, 8);
      go2 := 0;
    }

    // The memory a layout describes, zeroed.
    constructor Zeroed(l: Layout)
      requires l.array1Slabs <= MAX_ARRAY1
      ensures arrayOne.Length == l.array1Slabs && arrayTwo.Length == l.array2Slabs
      ensures arrayOne[..] == Zeros(l.array1Slabs) && arrayTwo[..] == Zeros(l.array2Slabs)
      ensures offset1 < 64 && go2 == 0
      ensures arrayOne.Length > 0 ==>
        index1 < arrayOne.Length && Line() == arrayOne.Length * 64 - 1 && index2 == arrayOne.Length * 512
      ensures fresh(arrayOne) && fresh(arrayTwo) && arrayOne != arrayTwo
    {
      arrayOne := new u64[l.array1Slabs](_ => 0);
      arrayTwo := new u64[l.array2Slabs](_ => 0);
      new;
      ScanInit();
    }

    // Above 2^32 - 512 bits the bitmap has no room for any bit.
    static method Init(nBits: u32, mem: bool, aligned: bool, memSize: u32) returns (bmp: Bitmap?)
      ensures bmp == null <==> nBits == 0 || !mem || !aligned || InitRefuses(Footprint(nBits).total, memSize)
      ensures bmp != null ==>
        && fresh(bmp) && fresh(bmp.arrayOne) && fresh(bmp.arrayTwo)
        && bmp.arrayOne.Length == Footprint(nBits).array1Slabs
        && bmp.arrayTwo.Length == Footprint(nBits).array2Slabs && Members(bmp.arrayTwo[..]) == {}
        && (bmp.Valid() <==> nBits <= TWO_32 - 512)
        && (bmp.Valid() ==> nBits <= bmp.arrayTwo.Length * 64 && bmp.Rewound())
        && (!bmp.Valid() ==> bmp.arrayTwo.Length == 0)
    {
      hide Footprint, Members, Marked, BitmapSpec.Valid, Cursor, InitRefuses;
      if nBits == 0 {
        return null;
      }
      if !mem || !aligned {
        return null;
      }
      var l := Footprint(nBits);
      if InitRefuses(l.total, memSize) {
        return null;
      }
      if nBits > TWO_32 - 512 {
        EmptyLayout(nBits);
      } else {
        LayoutSizes(nBits);
      }
      bmp := new Bitmap.Zeroed(l);
      bmp.InitialState();
    }

    // What the constructor leaves behind.
    lemma InitialState()
      requires arrayOne != arrayTwo && arrayOne[..] == Zeros(arrayOne.Length) && arrayTwo[..] == Zeros(arrayTwo.Length)
      requires offset1 < 64 && go2 == 0
      requires arrayOne.Length > 0 ==>
        index1 < arrayOne.Length && Line() == arrayOne.Length * 64 - 1 && index2 == arrayOne.Length * 512
      ensures Members(arrayTwo[..]) == {}
      ensures arrayTwo.Length == 0 ==> !Valid()
      ensures arrayOne.Length > 0 && Sizes(arrayOne.Length, arrayTwo.Length) ==> Valid() && Rewound()
    {
      hide Members, Cursor, Sizes;
      MembersOfZeros(arrayTwo.Length);
      if arrayTwo.Length == 0 {
        SomeLine(Abs());
      }
      if arrayOne.Length > 0 && Sizes(arrayOne.Length, arrayTwo.Length) {
        assert Abs() == BitmapSpec.Reset(Abs());
        RewoundIsValid(Abs());
      }
    }

    method Reset()
      requires Usable()
      modifies this, arrayOne, arrayTwo
      ensures Valid() && Abs() == BitmapSpec.Reset(old(Abs()))
      ensures Members(arrayTwo[..]) == {} && Rewound()
    {
      hide Cursor, Members, BitmapSpec.Valid, Marked, Zeros, Sizes;
      SizesOf(Abs());
      ZeroAll(arrayOne);
      ZeroAll(arrayTwo);
      ScanInit();
      InitialState();
    }

    method Get(pos: u32) returns (r: u64)
      requires pos < arrayTwo.Length * 64
      ensures r != 0 <==> pos in Members(arrayTwo[..])
    {
      var slab2 := arrayTwo[pos / 64];
      r := And64(slab2, One64(pos % 64));
      AndOneIsBit(slab2, pos % 64);
    }

    method Set(pos: u32)
      requires Usable() && pos < arrayTwo.Length * 64
      modifies arrayOne, arrayTwo
      ensures Usable() && (old(Valid()) ==> Valid())
      ensures Abs() == BitmapSpec.Set(old(Abs()), pos)
      ensures Members(arrayTwo[..]) == old(Members(arrayTwo[..])) + {pos}
    {
      hide BitmapSpec.Valid, Marked, Members;
      ValidSizes(Abs(), pos);
      SetKeepsMarked(Abs(), pos);
      MembersWithBit(arrayTwo[..], pos);
      if BitmapSpec.Valid(Abs()) {
        SetKeepsValid(Abs(), pos);
      }
      SetBitOf(arrayTwo, pos);
      SetBitOf(arrayOne, pos / 512);
    }

    // Levels in step stay so exactly when the slab is non-zero or the line was used already.
    method SetSlab(pos: u32, slab: u64)
      requires Usable() && pos < arrayTwo.Length * 64
      modifies arrayOne, arrayTwo
      ensures Usable() && Abs() == BitmapSpec.SetSlab(old(Abs()), pos, slab)
      ensures old(Valid()) ==> (Valid() <==> slab != 0 || old(LineUsed(arrayTwo[..], pos / 512)))
      ensures Members(arrayTwo[..]) == old(Members(arrayTwo[..])) + SlabMembers(arrayTwo.Length, pos, slab)
    {
      hide BitmapSpec.Valid, Marked, Members, SlabMembers, LineUsed;
      ValidSizes(Abs(), pos);
      SetSlabKeepsMarked(Abs(), pos, slab);
      MembersWithSlab(arrayTwo[..], pos, slab);
      if BitmapSpec.Valid(Abs()) {
        SetSlabValidExactly(Abs(), pos, slab);
      }
      var i2 := pos / 64;
      arrayTwo[i2] := Or64(arrayTwo[i2], slab);
      SetBitOf(arrayOne, pos / 512);
    }

    method LineNotEmpty(slab2: nat) returns (r: u64)
      requires slab2 + 8 <= arrayTwo.Length && slab2 % 8 == 0
      ensures r != 0 <==> LineUsed(arrayTwo[..], slab2 / 8)
    {
      var v1 := Or64(arrayTwo[slab2], arrayTwo[slab2 + 1]);
      var v2 := Or64(arrayTwo[slab2 + 2], arrayTwo[slab2 + 3]);
      var v3 := Or64(arrayTwo[slab2 + 4], arrayTwo[slab2 + 5]);
      var v4 := Or64(arrayTwo[slab2 + 6], arrayTwo[slab2 + 7]);
      Or64NonZero(arrayTwo[slab2], arrayTwo[slab2 + 1]);
      Or64NonZero(arrayTwo[slab2 + 2], arrayTwo[slab2 + 3]);
      Or64NonZero(arrayTwo[slab2 + 4], arrayTwo[slab2 + 5]);
      Or64NonZero(arrayTwo[slab2 + 6], arrayTwo[slab2 + 7]);
      Or64NonZero(v1, v2);
      Or64NonZero(v3, v4);
      v1 := Or64(v1, v2);
      v3 := Or64(v3, v4);
      Or64NonZero(v1, v3);
      r := Or64(v1, v3);
      LineOfEight(arrayTwo[..], slab2);
    }

    method Clear(pos: u32)
      requires Usable() && pos < arrayTwo.Length * 64
      modifies arrayOne, arrayTwo
      ensures Usable() && (old(Valid()) ==> Valid())
      ensures Abs() == BitmapSpec.Clear(old(Abs()), pos)
      ensures Members(arrayTwo[..]) == old(Members(arrayTwo[..])) - {pos}
    {
      hide BitmapSpec.Valid, Marked, Members, WithoutBit;
      ghost var s := Abs();
      ClearKeepsMarked(s, pos);
      if BitmapSpec.Valid(s) {
        ClearKeepsValid(s, pos);
      }
      MembersWithoutBit(s.a2, pos);
      ValidSizes(s, pos);
      var i2 := pos / 64;
      ClearBitOf(arrayTwo, pos);
      if arrayTwo[i2] != 0 {
        assert LineUsed(arrayTwo[..], pos / 512);
        return;
      }
      var line := i2 / 8 * 8;
      var used := LineNotEmpty(line);
      assert line / 8 == pos / 512;
      if used != 0 {
        return;
      }
      ClearBitOf(arrayOne, pos / 512);
    }

    method ScanRead() returns (r: Answer)
      requires arrayTwo.Length <= MAX_ARRAY2
      requires go2 != 0 ==> index2 / 8 == Line() && 8 * Line() + 8 <= arrayTwo.Length
      modifies this`index2, this`go2
      ensures old(go2) == 0 ==> r == Empty && index2 == old(index2) && go2 == 0
      ensures old(go2) != 0 ==>
        var end := 8 * Line() + 8;
        && r == ReadAnswer(arrayTwo[..], old(index2), end)
        && index2 == ReadIndex(arrayTwo[..], old(index2), end)
        && go2 == index2 % 8
    {
      hide ReadAnswer, ReadIndex, Reading, And;
      ghost var a, l, start := arrayTwo[..], Line(), index2;
      if go2 == 0 {
        return Empty;
      }
      ReadingStarts(a, l, start, go2);
      while go2 != 0
        invariant index2 <= arrayTwo.Length && Reading(a, l, start, index2, go2)
        decreases arrayTwo.Length - index2
      {
        ReadingOne(a, l, start, index2, go2);
        LowThreeBits(index2 + 1);
        if arrayTwo[index2] != 0 {
          r := Found(index2 * 64, arrayTwo[index2]);
          index2 := index2 + 1;
          go2 := And(index2, 7);
          return;
        }
        index2 := index2 + 1;
        go2 := And(index2, 7);
      }
      ReadingEnds(a, l, start, index2);
      r := Empty;
    }

    // The current array1 slab without the bits up to offset1.
    method CurrentSlabMasked() returns (value1: u64)
      requires index1 < arrayOne.Length
      ensures BitsFrom(arrayOne[index1], offset1 + 1, value1)
    {
      value1 := MaskedSlab(arrayOne[index1], offset1);
      MaskedSlabBits(arrayOne[index1], offset1);
    }

    method Bsf64Safe(v: u64) returns (found: bool)
      modifies this`offset1
      ensures found <==> v != 0
      ensures !found ==> offset1 == old(offset1)
      ensures found ==> LowestBit(v, offset1) && offset1 < 64
    {
      if v == 0 {
        return false;
      }
      offset1 := Ctz64(v);
      return true;
    }

    method ScanSearch() returns (found: bool)
      requires IsPow2(arrayOne.Length) && arrayOne.Length <= MAX_ARRAY1
      requires index1 < arrayOne.Length && offset1 < 64
      modifies this`index1, this`offset1
      ensures index1 < arrayOne.Length && offset1 < 64
      ensures found ==> NextBit(arrayOne[..], old(Line()), Line())
      ensures !found ==> BitsClear(arrayOne[..], 0, arrayOne.Length * 64)
      ensures !found ==> Line() == NextIndex(old(index1), arrayOne.Length) * 64
    {
      hide NothingYet, NextBit, BitsClear, BitsFrom, LowestBit;
      ghost var start, o, n := index1, offset1, arrayOne.Length;
      ghost var a1 := arrayOne[..];
      var value1 := CurrentSlabMasked();
      found := Bsf64Safe(value1);
      FirstSlabSearched(a1, start, o, value1, offset1);
      if found {
        return;
      }
      Index1Inc();
      offset1 := 0;
      var i := 0;
      while i < arrayOne.Length
        invariant i <= n && index1 < n && offset1 == 0
        invariant index1 == SlabVisited(start, i, n)
        invariant NothingYet(a1, start, o, i)
      {
        value1 := arrayOne[index1];
        found := Bsf64Safe(value1);
        OtherSlabSearched(a1, start, o, i, offset1);
        if found {
          return;
        }
        i := i + 1;
        Index1Inc();
      }
      NothingAtAll(a1, start, o);
      found := false;
    }

    method ScanReadInit()
      requires index1 < MAX_ARRAY1 && offset1 < 64
      modifies this`index2, this`go2
      ensures index2 == 8 * Line() && go2 == 1
    {
      Index2Set();
      go2 := 1;
    }

    // Returns 1 or 0 and what it writes, Empty for nothing.
    method Scan() returns (ret: bool, r: Answer)
      requires Usable()
      modifies this
      ensures Usable() && (Abs(), ret, r) == RawScan(old(Abs()))
      ensures !ret ==> r == Empty && index1 == (old(index1) + 1) % arrayOne.Length && offset1 == 0 && go2 == 0
      ensures old(Valid()) ==>
        && Valid() && (Abs(), r) == BitmapScan.Scan(old(Abs())) && ret == r.Found?
        && (r == Empty <==> Members(arrayTwo[..]) == {})
    {
      hide Members, TwoLevel, UsedAreMarked, NextMarked, Elsewhere, BitmapScan.Scan, ReadAnswer, ReadIndex, IsPow2;
      ghost var s := Abs();
      RawScanKeepsMarked(s);
      MarkedCanScan(s);
      if BitmapSpec.Valid(s) {
        ValidScanIsRight(s);
        ScanKeepsValid(s);
        ScanAnswers(s);
      }
      if go2 != 0 {
        ReadIndexInLine(s.a2, s.line, 8 * s.line + s.within);
      }
      r := ScanRead();
      if r.Found? {
        return true, r;
      }
      ret, r := ScanOtherLine(s);
    }

    // What a scan does once the line it was in has nothing left. The answer of the second read is not
    // looked at.
    method ScanOtherLine(ghost s: State) returns (ret: bool, r: Answer)
      requires Marked(s) && arrayOne[..] == s.a1 && arrayTwo[..] == s.a2
      requires index1 < arrayOne.Length && offset1 < 64 && s.line == Line()
      requires go2 == index2 % 8 == 0
      modifies this
      ensures index1 < arrayOne.Length && offset1 < 64
      ensures NextMarked(s.a1, s.line) < |s.a1| * 64 ==> 8 * NextMarked(s.a1, s.line) + 8 <= |s.a2|
      ensures (Abs(), ret, r) == Elsewhere(s, NextMarked(s.a1, s.line))
      ensures !ret ==> r == Empty && index1 == (old(index1) + 1) % arrayOne.Length && offset1 == 0 && go2 == 0
      ensures go2 == index2 % 8 && (go2 != 0 ==> index2 / 8 == Line())
    {
      hide UsedAreMarked, NextMarked, NextBit, BitsClear, ReadAnswer, ReadIndex;
      MarkedCanScan(s);
      NextIndexIsMod(index1, arrayOne.Length);
      var found := ScanSearch();
      assert arrayOne[..] == s.a1 && arrayTwo[..] == s.a2;
      if !found {
        NoBitIsNoneMarked(s.a1, s.line);
        return false, Empty;
      }
      NextBitIsNextMarked(s.a1, s.line, Line());
      ReadIndexInLine(s.a2, Line(), 8 * Line());
      ScanReadInit();
      r := ScanRead();
      assert arrayOne[..] == s.a1 && arrayTwo[..] == s.a2;
      return true, r;
    }
  }
}
