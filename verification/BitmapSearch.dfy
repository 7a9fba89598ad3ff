/**
 How the scan of include/rte_bitmap.h finds its next slab: the masked search through array1, and the
 lemmas that turn what it finds in array1 into lines and slabs of array2.
 */
module BitmapSearch {
  import opened Words
  import opened BitmapSpec
  import opened BitmapScan

  // Bit i is set exactly for i > o: C's `(~1llu) << o`.
  function Mask1(o: nat): u64 {
    Shl64(Not64(1), o)
  }

  lemma {:induction false} Mask1Bit(o: nat, i: nat)
    requires i < 64
    ensures Bit(Mask1(o), i) == (o < i)
  {
    BitOfShl64(Not64(1), o, i);
    if o <= i {
      BitOfNot64(1, i - o);
      BitOfPow2(0, i - o);
    }
  }

  function MaskedSlab(x: u64, o: nat): u64 {
    And64(x, Mask1(o))
  }

  lemma {:induction false} MaskedSlabBit(x: u64, o: nat, i: nat)
    requires i < 64
    ensures Bit(MaskedSlab(x, o), i) == (Bit(x, i) && o < i)
  {
    BitOfAnd(x, Mask1(o), i);
    Mask1Bit(o, i);
  }

  lemma LowThreeBits(x: nat)
    ensures And(x, 7) == x % 8
  {
    assert Pow2(3) == 8;
    AndMaskIsMod(x, 3);
  }

  // The i-th array1 slab visited after slab `start`, for i <= n.
  function SlabVisited(start: nat, i: nat, n: nat): int {
    if start + 1 + i < n then start + 1 + i
    else if start + 1 + i < 2 * n then start + 1 + i - n
    else start + 1 + i - 2 * n
  }

  /** From array1 bits to array2 slabs */

  ghost predicate BitsClear(a1: Slabs, lo: nat, hi: nat)
    requires hi <= |a1| * 64
  {
    forall l: nat :: lo <= l < hi ==> !Has(a1, l)
  }

  // The next set bit of array1, cyclically, after bit `line`; `line` itself comes last.
  ghost predicate NextBit(a1: Slabs, line: nat, found: nat)
    requires line < |a1| * 64
  {
    && found < |a1| * 64
    && Has(a1, found)
    && (if line < found then BitsClear(a1, line + 1, found)
        else BitsClear(a1, line + 1, |a1| * 64) && BitsClear(a1, 0, found))
  }

  // A bit found by looking at everything from `line` on, and then from bit `lo` on.
  lemma {:induction false} FoundNextBit(a1: Slabs, line: nat, lo: nat, found: nat)
    requires line < |a1| * 64 && lo <= found < |a1| * 64 && Has(a1, found) && BitsClear(a1, lo, found)
    requires if line < lo then BitsClear(a1, line + 1, lo)
             else BitsClear(a1, line + 1, |a1| * 64) && BitsClear(a1, 0, lo)
    ensures NextBit(a1, line, found)
  {
  }

  lemma {:induction false} ClearBitsAreZeroLines(a1: Slabs, a2: Slabs, lo: nat, hi: nat)
    requires UsedAreMarked(a1, a2) && hi <= |a1| * 64 && BitsClear(a1, lo, hi)
    ensures AllZero(a2, 8 * lo, if 8 * hi <= |a2| then 8 * hi else |a2|)
  {
    forall i: nat | 8 * lo <= i < 8 * hi && i < |a2|
      ensures a2[i] == 0
    {
      assert !Has(a1, i / 8);
      assert !LineUsed(a2, i / 8);
    }
  }

  // The line of the next array1 bit, if in use, holds the next used slab, which is that line's first.
  lemma {:induction false} NextBitHoldsNextSlab(a1: Slabs, a2: Slabs, line: nat, found: nat)
    requires UsedAreMarked(a1, a2) && line < |a1| * 64 && NextBit(a1, line, found) && LineUsed(a2, found)
    ensures 8 * found + 8 <= |a2|
    ensures var d := if 8 * line + 8 < |a2| then 8 * line + 8 else 0;
            var p := FirstUsed(a2, 8 * found, 8 * found + 8);
            p < 8 * found + 8 && NextUsed(a2, d) == p
  {
    var k: nat :| 8 * found <= k < 8 * found + 8 && k < |a2| && a2[k] != 0;
    var d := if 8 * line + 8 < |a2| then 8 * line + 8 else 0;
    var p := FirstUsed(a2, 8 * found, 8 * found + 8);
    FirstUsedIsFirst(a2, 8 * found, 8 * found + 8);
    if line < found {
      ClearBitsAreZeroLines(a1, a2, line + 1, found);
    } else {
      ClearBitsAreZeroLines(a1, a2, line + 1, |a1| * 64);
      ClearBitsAreZeroLines(a1, a2, 0, found);
    }
    NextUsedUnique(a2, d, p);
  }

  // Skipping zeros does not change what comes next.
  lemma {:induction false} NextUsedSkips(a: Slabs, c: nat, d: nat)
    requires c <= d <= |a| && 0 < |a| && AllZero(a, c, d)
    ensures NextUsed(a, if d < |a| then d else 0) == NextUsed(a, c)
  {
    var e := if d < |a| then d else 0;
    NextUsedIsNext(a, c);
    NextUsedIsNext(a, e);
    var r := NextUsed(a, c);
    if r < |a| {
      NextUsedUnique(a, e, r);
    }
  }

  lemma {:induction false} AndOneIsBit(x: u64, o: nat)
    requires o < 64
    ensures And64(x, One64(o)) != 0 <==> Bit(x, o)
  {
    var v := And64(x, One64(o));
    BitOfAnd(x, One64(o), o);
    BitOfPow2(o, o);
    if v == 0 {
      ZeroBit(o);
    } else {
      SomeBitSet64(v);
      var i: nat :| i < 64 && Bit(v, i);
      BitOfAnd(x, One64(o), i);
      BitOfPow2(o, i);
    }
  }

  lemma {:induction false} LineOfEight(a2: Slabs, s: nat)
    requires s + 8 <= |a2| && s % 8 == 0
    ensures LineUsed(a2, s / 8) <==>
      || a2[s] != 0 || a2[s + 1] != 0 || a2[s + 2] != 0 || a2[s + 3] != 0
      || a2[s + 4] != 0 || a2[s + 5] != 0 || a2[s + 6] != 0 || a2[s + 7] != 0
  {
  }

  // v has the bits of x from position `from` on.
  ghost predicate BitsFrom(x: u64, from: nat, v: u64) {
    forall j: nat :: j < 64 ==> Bit(v, j) == (Bit(x, j) && from <= j)
  }

  ghost predicate LowestBit(v: u64, k: nat) {
    k < 64 && Bit(v, k) && forall j: nat :: j < k ==> !Bit(v, j)
  }

  lemma {:induction false} MaskedSlabBits(x: u64, o: nat)
    ensures BitsFrom(x, o + 1, MaskedSlab(x, o))
  {
    forall j: nat | j < 64
      ensures Bit(MaskedSlab(x, o), j) == (Bit(x, j) && o + 1 <= j)
    {
      MaskedSlabBit(x, o, j);
    }
  }

  lemma {:induction false} ClearInSlab(a1: Slabs, i: nat, lo: nat, hi: nat)
    requires i < |a1| && hi <= 64
    requires forall j: nat :: lo <= j < hi ==> !Bit(a1[i], j)
    ensures BitsClear(a1, 64 * i + lo, 64 * i + hi)
  {
    forall l: nat | 64 * i + lo <= l < 64 * i + hi
      ensures !Has(a1, l)
    {
      assert l / 64 == i && l % 64 == l - 64 * i;
    }
  }

  // What finding, or not finding, a lowest bit k at or above `from` in array1 slab i says.
  lemma {:induction false} SlabSearched(a1: Slabs, i: nat, from: nat, v: u64, k: nat)
    requires i < |a1|
    requires BitsFrom(a1[i], from, v) && (v != 0 ==> LowestBit(v, k))
    ensures v == 0 ==> BitsClear(a1, 64 * i + from, 64 * i + 64)
    ensures v != 0 ==> from <= k < 64 && Has(a1, 64 * i + k) && BitsClear(a1, 64 * i + from, 64 * i + k)
  {
    if v == 0 {
      forall j: nat | j < 64
        ensures !Bit(v, j)
      {
        ZeroBit(j);
      }
      ClearInSlab(a1, i, from, 64);
    } else {
      var l := 64 * i + k;
      assert l / 64 == i && l % 64 == k;
      ClearInSlab(a1, i, from, k);
    }
  }

  // After i whole slabs of the search that starts behind bit o of slab `start`, nothing has been found.
  ghost predicate NothingYet(a1: Slabs, start: nat, o: nat, i: nat) {
    && start < |a1| && i <= |a1| && o < 64
    && BitsClear(a1, 64 * start + o + 1, if start + 1 + i < |a1| then (start + 1 + i) * 64 else |a1| * 64)
    && (start + 1 + i > |a1| ==> BitsClear(a1, 0, (start + 1 + i - |a1|) * 64))
  }

  // The search of the slab it starts in, from the value left there after masking and its lowest bit k.
  lemma {:induction false} FirstSlabSearched(a1: Slabs, start: nat, o: nat, v: u64, k: nat)
    requires start < |a1| && o < 64
    requires BitsFrom(a1[start], o + 1, v) && (v != 0 ==> LowestBit(v, k))
    ensures v != 0 ==> NextBit(a1, 64 * start + o, 64 * start + k)
    ensures v == 0 ==> NothingYet(a1, start, o, 0)
  {
    SlabSearched(a1, start, o + 1, v, k);
    if v != 0 {
      FoundNextBit(a1, 64 * start + o, 64 * start + o + 1, 64 * start + k);
    }
  }

  // The search of the i-th slab after it.
  lemma {:induction false} OtherSlabSearched(a1: Slabs, start: nat, o: nat, i: nat, k: nat)
    requires NothingYet(a1, start, o, i) && i < |a1|
    requires var v := a1[SlabVisited(start, i, |a1|)]; v != 0 ==> LowestBit(v, k)
    ensures var at := SlabVisited(start, i, |a1|);
            if a1[at] != 0 then NextBit(a1, 64 * start + o, 64 * at + k) else NothingYet(a1, start, o, i + 1)
  {
    var at := SlabVisited(start, i, |a1|);
    SlabSearched(a1, at, 0, a1[at], k);
    if a1[at] != 0 {
      FoundNextBit(a1, 64 * start + o, 64 * at, 64 * at + k);
    }
  }

  lemma {:induction false} NothingAtAll(a1: Slabs, start: nat, o: nat)
    requires NothingYet(a1, start, o, |a1|)
    ensures BitsClear(a1, 0, |a1| * 64)
  {
  }

  /** Reading a line from slab `from` to its end */

  function ReadAnswer(a: Slabs, from: nat, end: nat): Answer
    requires from <= end <= |a|
  {
    var p := FirstUsed(a, from, end);
    if p < end then Found(64 * p, a[p]) else Empty
  }

  // Where the reading stops: behind the slab found, or at the end.
  function ReadIndex(a: Slabs, from: nat, end: nat): (i: nat)
    requires from <= end <= |a|
    ensures from <= i <= end
  {
    var p := FirstUsed(a, from, end);
    if p < end then p + 1 else end
  }

  lemma {:induction false} ReadOne(a: Slabs, l: nat, i: nat)
    requires 8 * l <= i < 8 * l + 8 <= |a|
    ensures var end := 8 * l + 8;
            a[i] != 0 ==> ReadAnswer(a, i, end) == Found(64 * i, a[i]) && ReadIndex(a, i, end) == i + 1
    ensures var end := 8 * l + 8;
            a[i] == 0 ==>
              ReadAnswer(a, i, end) == ReadAnswer(a, i + 1, end) && ReadIndex(a, i, end) == ReadIndex(a, i + 1, end)
    ensures (i + 1) % 8 == 0 <==> i + 1 == 8 * l + 8
  {
  }

  lemma {:induction false} ReadNothing(a: Slabs, end: nat)
    requires end <= |a|
    ensures ReadAnswer(a, end, end) == Empty && ReadIndex(a, end, end) == end
  {
  }

  // The reading that began at `start` in line l goes on at i; go is 0 at the end.
  ghost predicate Reading(a: Slabs, l: nat, start: nat, i: nat, go: nat) {
    && 8 * l <= start <= i <= 8 * l + 8 <= |a|
    && (go == 0 <==> i == 8 * l + 8)
    && ReadAnswer(a, i, 8 * l + 8) == ReadAnswer(a, start, 8 * l + 8)
    && ReadIndex(a, i, 8 * l + 8) == ReadIndex(a, start, 8 * l + 8)
  }

  lemma {:induction false} ReadingStarts(a: Slabs, l: nat, start: nat, go: nat)
    requires start / 8 == l && 8 * l + 8 <= |a| && go != 0
    ensures 8 * l <= start < 8 * l + 8 && Reading(a, l, start, start, go)
  {
  }

  lemma {:induction false} ReadingOne(a: Slabs, l: nat, start: nat, i: nat, go: nat)
    requires Reading(a, l, start, i, go) && go != 0
    ensures i < 8 * l + 8 <= |a| && 8 * l <= start
    ensures a[i] != 0 ==>
      ReadAnswer(a, start, 8 * l + 8) == Found(64 * i, a[i]) && ReadIndex(a, start, 8 * l + 8) == i + 1
    ensures a[i] == 0 ==> Reading(a, l, start, i + 1, (i + 1) % 8)
  {
    hide ReadAnswer, ReadIndex;
    ReadOne(a, l, i);
  }

  lemma {:induction false} ReadingEnds(a: Slabs, l: nat, start: nat, i: nat)
    requires Reading(a, l, start, i, 0)
    ensures 8 * l <= start <= 8 * l + 8 <= |a|
    ensures ReadAnswer(a, start, 8 * l + 8) == Empty && ReadIndex(a, start, 8 * l + 8) == i && i % 8 == 0
  {
    ReadNothing(a, i);
  }

  // Inside its line until it is used up.
  lemma {:induction false} ReadIndexInLine(a: Slabs, l: nat, from: nat)
    requires 8 * l <= from < 8 * l + 8 <= |a|
    ensures var i := ReadIndex(a, from, 8 * l + 8);
            && (i % 8 != 0 ==> i / 8 == l)
            && (ReadAnswer(a, from, 8 * l + 8) == Empty ==> i % 8 == 0)
  {
  }
}
