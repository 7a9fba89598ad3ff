/**
 The memory layout of include/rte_bitmap.h: where array1 and array2 lie in the caller's buffer, in
 32-bit arithmetic with every step's wrap-around written out.
 */
module BitmapLayout {
  import opened Words
  import opened Common

  // sizeof(struct rte_bitmap) with 64-bit pointers: two pointers and six 32-bit fields.
  const CONTEXT_BYTES := 40
  const CACHE_LINE := 64

  datatype Layout = Layout(array1Offset: u32, array1Slabs: u32, array2Offset: u32, array2Slabs: u32, total: u32)

  function Lines(nBits: u32): u32 {
    Wrap32(nBits + 512 - 1) / 512
  }

  function SlabsFor(lines: u32): u32 {
    Wrap32(lines + 64 - 1) / 64
  }

  function Place(lines: u32, slabs1: u32): Layout {
    var nSlabsContext := (CONTEXT_BYTES + 8 - 1) / 8;
    var nCacheLinesContextAndArray1 := Wrap32(nSlabsContext + slabs1 + 8 - 1) / 8;
    Layout(
      nSlabsContext * 8,
      slabs1,
      Wrap32(nCacheLinesContextAndArray1 * CACHE_LINE),
      Wrap32(lines * 8),
      Wrap32(Wrap32(nCacheLinesContextAndArray1 + lines) * CACHE_LINE))
  }

  function Footprint(nBits: u32): Layout {
    Place(Lines(nBits), Align32Pow2(SlabsFor(Lines(nBits))))
  }

  // What the caller of the public footprint function sees; 0 is its error value.
  function GetMemoryFootprint(nBits: u32): u32 {
    if nBits == 0 then 0 else Footprint(nBits).total
  }

  // Header, array1 and array2 lie in that order without overlap, each at the first place that suits it,
  // array2 on a cache line and up to the end; array1 has the least power-of-two size with a bit for every
  // line of array2, and array2 is the least number of lines with room for n bits.
  ghost predicate Sound(l: Layout, n: nat) {
    && CONTEXT_BYTES <= l.array1Offset < CONTEXT_BYTES + 8 && l.array1Offset % 8 == 0
    && l.array1Offset + 8 * l.array1Slabs <= l.array2Offset < l.array1Offset + 8 * l.array1Slabs + CACHE_LINE
    && l.array2Offset % CACHE_LINE == 0
    && l.array2Offset + 8 * l.array2Slabs == l.total
    && IsPow2(l.array1Slabs)
    && l.array2Slabs % 8 == 0
    && l.array2Slabs / 8 <= 64 * l.array1Slabs
    && (l.array1Slabs == 1 || 32 * l.array1Slabs < l.array2Slabs / 8)
    && n <= 64 * l.array2Slabs < n + 512
  }

  // Half the least power of two at or above x, unless that is 1, is below x.
  lemma {:induction false} LeastIsNear(r: nat, x: nat)
    requires LeastPow2AtLeast(r, x)
    ensures r == 1 || r <= 2 * (x - 1)
  {
    var k: nat :| Pow2(k) == r;
    if k > 0 {
      assert Pow2(k) == 2 * Pow2(k - 1);
    }
  }

  lemma {:induction false} AlignSmall(x: u32)
    requires 1 <= x <= 0x2_0000
    ensures x <= Align32Pow2(x) <= 0x2_0000 && IsPow2(Align32Pow2(x))
    ensures Align32Pow2(x) == 1 || Align32Pow2(x) <= 2 * (x - 1)
  {
    hide Align32Pow2;
    Align32Pow2IsLeast(x);
    LeastIsNear(Align32Pow2(x), x);
    Pow2Values();
    Pow2Plus8(9);
    assert Pow2(17) == 0x2_0000;
  }

  lemma {:induction false} RoundingDoesNotWrap(nBits: u32)
    requires nBits <= TWO_32 - 512
    ensures nBits + 511 < TWO_32 && Lines(nBits) == (nBits + 511) / 512
    ensures Lines(nBits) + 63 < TWO_32 && SlabsFor(Lines(nBits)) == (Lines(nBits) + 63) / 64
  {
    hide Wrap32;
    Wrap32Small(nBits + 511);
    Wrap32Small(Lines(nBits) + 63);
  }

  lemma {:induction false} LineCount(nBits: u32)
    requires 1 <= nBits <= TWO_32 - 512
    ensures nBits <= 512 * Lines(nBits) < nBits + 512
    ensures Lines(nBits) <= 64 * SlabsFor(Lines(nBits)) < Lines(nBits) + 64
    ensures 1 <= Lines(nBits) < 0x80_0000 && 1 <= SlabsFor(Lines(nBits)) <= 0x2_0000
  {
    hide Lines, SlabsFor;
    RoundingDoesNotWrap(nBits);
  }

  // The cache lines that the header and array1 take.
  function FrontLines(slabs1: u32): nat {
    (5 + slabs1 + 7) / 8
  }

  lemma {:induction false} FrontBounds(slabs1: u32)
    requires slabs1 <= 0x2_0000
    ensures 5 + slabs1 <= 8 * FrontLines(slabs1) < 5 + slabs1 + 8 && 1 <= FrontLines(slabs1) <= 0x4002
  {
  }

  lemma {:induction false} PlaceDoesNotWrap(lines: u32, slabs1: u32)
    requires lines < 0x80_0000 && slabs1 <= 0x2_0000
    ensures var c := FrontLines(slabs1);
            && (c + lines) * 64 < TWO_32
            && Place(lines, slabs1) == Layout(40, slabs1, c * 64, lines * 8, (c + lines) * 64)
  {
    hide Wrap32;
    FrontBounds(slabs1);
    var c := FrontLines(slabs1);
    Wrap32Small(5 + slabs1 + 7);
    Wrap32Small(c * 64);
    Wrap32Small(lines * 8);
    Wrap32Small(c + lines);
    Wrap32Small((c + lines) * 64);
  }

  lemma {:induction false} PlaceIsSound(lines: u32, slabs1: u32, n: nat)
    requires 1 <= lines < 0x80_0000 && slabs1 <= 0x2_0000 && IsPow2(slabs1)
    requires lines <= 64 * slabs1 && (slabs1 == 1 || 32 * slabs1 < lines) && n <= 512 * lines < n + 512
    ensures Sound(Place(lines, slabs1), n)
  {
    hide Place, FrontLines, IsPow2;
    PlaceDoesNotWrap(lines, slabs1);
    FrontBounds(slabs1);
    TimesEight(lines);
    TimesLine(FrontLines(slabs1));
  }

  lemma {:induction false} TimesEight(x: nat)
    ensures x * 8 % 8 == 0 && x * 8 / 8 == x
  {
  }

  lemma {:induction false} TimesLine(x: nat)
    ensures x * 64 % CACHE_LINE == 0
  {
  }

  // No 32-bit step of the whole computation wraps: not the two roundings up, not the alignment, not the
  // placement.
  lemma {:induction false} FootprintDoesNotWrap(nBits: u32)
    requires 1 <= nBits <= TWO_32 - 512
    ensures nBits + 511 < TWO_32 && Lines(nBits) == (nBits + 511) / 512
    ensures Lines(nBits) + 63 < TWO_32 && SlabsFor(Lines(nBits)) == (Lines(nBits) + 63) / 64
    ensures var lines, slabs1 := Lines(nBits), Align32Pow2(SlabsFor(Lines(nBits)));
            && 0 < slabs1 && 5 + slabs1 + 7 < TWO_32 && (FrontLines(slabs1) + lines) * 64 < TWO_32
            && Footprint(nBits)
               == Layout(40, slabs1, FrontLines(slabs1) * 64, lines * 8, (FrontLines(slabs1) + lines) * 64)
  {
    hide Lines, SlabsFor, Align32Pow2, Place, IsPow2, FrontLines;
    RoundingDoesNotWrap(nBits);
    LineCount(nBits);
    AlignSmall(SlabsFor(Lines(nBits)));
    PlaceDoesNotWrap(Lines(nBits), Align32Pow2(SlabsFor(Lines(nBits))));
  }

  lemma LayoutIsSound(nBits: u32)
    requires 1 <= nBits <= TWO_32 - 512
    ensures Sound(Footprint(nBits), nBits)
    ensures Footprint(nBits).array1Slabs <= 0x2_0000 && GetMemoryFootprint(nBits) == Footprint(nBits).total
    ensures 8 <= Footprint(nBits).array2Slabs == 8 * Lines(nBits) <= 0x400_0000
  {
    hide Lines, SlabsFor, Align32Pow2, Place, IsPow2, FrontLines, Sound;
    LineCount(nBits);
    AlignSmall(SlabsFor(Lines(nBits)));
    PlaceIsSound(Lines(nBits), Align32Pow2(SlabsFor(Lines(nBits))), nBits);
    PlaceDoesNotWrap(Lines(nBits), Align32Pow2(SlabsFor(Lines(nBits))));
  }

  lemma NoLines(nBits: u32)
    requires nBits > TWO_32 - 512
    ensures Lines(nBits) == 0 && SlabsFor(0) == 0
  {
    hide Wrap32;
    Wrap32Unique(nBits + 511, 1, nBits + 511 - TWO_32);
    Wrap32Small(63);
  }

  lemma {:induction false} AlignedZero()
    ensures Align32Pow2(0) == 0
  {
    hide Align32Pow2;
    Align32Pow2IsLeast(0);
  }

  // Above 2^32 - 512 bits both arrays are empty and lie behind the header in one cache line.
  lemma {:induction false} EmptyLayout(nBits: u32)
    requires nBits > TWO_32 - 512
    ensures Footprint(nBits) == Layout(40, 0, 64, 0, 64) && GetMemoryFootprint(nBits) == 64
  {
    hide Lines, SlabsFor, Align32Pow2, Place;
    NoLines(nBits);
    AlignedZero();
    PlaceDoesNotWrap(0, 0);
  }

  // The layout is sound exactly up to 2^32 - 512 bits: above, rounding the bits up to lines wraps and
  // array2 gets no line at all.
  lemma LayoutSoundExactly(nBits: u32)
    requires nBits > 0
    ensures Sound(Footprint(nBits), nBits) <==> nBits <= TWO_32 - 512
    ensures nBits > TWO_32 - 512 ==> Footprint(nBits).array2Slabs == 0
  {
    hide Footprint, Lines;
    if nBits <= TWO_32 - 512 {
      LayoutIsSound(nBits);
    } else {
      EmptyLayout(nBits);
    }
  }

  /** The size tests of the two initialisations */

  predicate InitRefuses(total: u32, memSize: u32) {
    total > memSize
  }

  // The comparison is the other way round.
  predicate AllSetRefuses(total: u32, memSize: u32) {
    total < memSize
  }

  // Everything that initialisation writes is inside the memory handed over.
  predicate Fits(l: Layout, memSize: u32) {
    l.array1Offset + 8 * l.array1Slabs <= memSize && l.array2Offset + 8 * l.array2Slabs <= memSize
  }

  // rte_bitmap_init goes on exactly when the bitmap fits. rte_bitmap_init_with_all_set goes on, and the
  // bitmap fits, exactly when the memory has the footprint's size; it refuses any larger memory, and with
  // any smaller one it goes on and writes outside.
  lemma {:induction false} SizeTestsExactly(nBits: u32, memSize: u32)
    requires 1 <= nBits <= TWO_32 - 512
    ensures var l := Footprint(nBits);
            && (!InitRefuses(l.total, memSize) <==> Fits(l, memSize))
            && (!AllSetRefuses(l.total, memSize) && Fits(l, memSize) <==> memSize == l.total)
            && (!AllSetRefuses(l.total, memSize) && !Fits(l, memSize) <==> memSize < l.total)
  {
    hide Footprint, Lines;
    LayoutIsSound(nBits);
  }

  // The smallest such case: 128 bytes are laid out for one bit, and 64 bytes of memory pass the test.
  lemma {:induction false} AllSetOverruns()
    ensures GetMemoryFootprint(1) == 128
    ensures !AllSetRefuses(GetMemoryFootprint(1), 64) && !Fits(Footprint(1), 64)
  {
    hide Lines, SlabsFor, Align32Pow2, Place;
    RoundingDoesNotWrap(1);
    AlignedOne();
    PlaceDoesNotWrap(1, 1);
  }

  lemma {:induction false} AlignedOne()
    ensures Align32Pow2(1) == 1
  {
    hide Align32Pow2;
    Align32Pow2IsLeast(1);
    assert Pow2(0) == 1;
  }
}
