/**
 The two-level bitmap of include/rte_bitmap.h on sequences of 64-bit slabs: what each operation does
 to array1, array2 and the scan cursor, and that the operations keep the two levels in step.
 */
module BitmapSpec {
  import opened Words

  // The largest arrays whose bit positions are 32-bit words.
  const MAX_ARRAY1 := 0x2_0000
  const MAX_ARRAY2 := 0x400_0000

  type Slabs = seq<u64>

  /** Single bits of a slab array */

  function SlabWithBit(x: u64, o: nat): u64
    requires o < 64
  {
    Or64(x, One64(o))
  }

  function SlabWithoutBit(x: u64, o: nat): u64
    requires o < 64
  {
    And64(x, Not64(One64(o)))
  }

  predicate Has(a: Slabs, p: nat)
    requires p < |a| * 64
  {
    Bit(a[p / 64], p % 64)
  }

  function WithBit(a: Slabs, p: nat): Slabs
    requires p < |a| * 64
  {
    a[p / 64 := SlabWithBit(a[p / 64], p % 64)]
  }

  function WithoutBit(a: Slabs, p: nat): Slabs
    requires p < |a| * 64
  {
    a[p / 64 := SlabWithoutBit(a[p / 64], p % 64)]
  }

  function WithSlab(a: Slabs, p: nat, slab: u64): Slabs
    requires p < |a| * 64
  {
    a[p / 64 := Or64(a[p / 64], slab)]
  }

  lemma {:induction false} HasWithBit(a: Slabs, p: nat, q: nat)
    requires p < |a| * 64 && q < |a| * 64
    ensures Has(WithBit(a, p), q) == (Has(a, q) || p == q)
  {
    if p / 64 == q / 64 {
      BitOfOr(a[p / 64], One64(p % 64), q % 64);
      BitOfPow2(p % 64, q % 64);
    }
  }

  lemma {:induction false} HasWithoutBit(a: Slabs, p: nat, q: nat)
    requires p < |a| * 64 && q < |a| * 64
    ensures Has(WithoutBit(a, p), q) == (Has(a, q) && p != q)
  {
    if p / 64 == q / 64 {
      BitOfAnd(a[p / 64], Not64(One64(p % 64)), q % 64);
      BitOfNot64(One64(p % 64), q % 64);
      BitOfPow2(p % 64, q % 64);
    }
  }

  lemma {:induction false} HasWithSlab(a: Slabs, p: nat, slab: u64, q: nat)
    requires p < |a| * 64 && q < |a| * 64
    ensures Has(WithSlab(a, p, slab), q) == (Has(a, q) || (p / 64 == q / 64 && Bit(slab, q % 64)))
  {
    if p / 64 == q / 64 {
      BitOfOr(a[p / 64], slab, q % 64);
    }
  }

  lemma {:induction false} SlabUsed(a: Slabs, s: nat)
    requires s < |a|
    ensures a[s] != 0 <==> exists q: nat :: q < |a| * 64 && q / 64 == s && Has(a, q)
  {
    if a[s] != 0 {
      SomeBitSet64(a[s]);
      var o: nat :| o < 64 && Bit(a[s], o);
      var q := 64 * s + o;
      assert q / 64 == s && q % 64 == o;
      assert Has(a, q);
    } else {
      forall q: nat | q < |a| * 64 && q / 64 == s
        ensures !Has(a, q)
      {
        ZeroBit(q % 64);
      }
    }
  }

  lemma {:induction false} Or64NonZero(x: u64, y: u64)
    ensures Or64(x, y) != 0 <==> x != 0 || y != 0
  {
    Or64Bound(x, y);
    Or64Bound(0, y);
  }

  lemma {:induction false} SlabWithBitNonZero(x: u64, o: nat)
    requires o < 64
    ensures SlabWithBit(x, o) != 0
  {
    Or64NonZero(x, One64(o));
  }

  /** The two levels */

  predicate LineUsed(a2: Slabs, l: nat) {
    exists s: nat :: 8 * l <= s < 8 * l + 8 && s < |a2| && a2[s] != 0
  }

  // Bit l of array1 is set exactly when cache line l of array2 holds a set bit; array1 bits past the
  // last line are therefore 0.
  ghost predicate TwoLevel(a1: Slabs, a2: Slabs) {
    && |a2| % 8 == 0
    && |a2| / 8 <= |a1| * 64
    && forall l: nat :: l < |a1| * 64 ==> (Has(a1, l) <==> LineUsed(a2, l))
  }

  lemma {:induction false} OtherLinesKept(a2: Slabs, s: nat, v: u64, l: nat)
    requires s < |a2| && s / 8 != l
    ensures LineUsed(a2[s := v], l) <==> LineUsed(a2, l)
  {
    var b := a2[s := v];
    if LineUsed(a2, l) {
      var k: nat :| 8 * l <= k < 8 * l + 8 && k < |a2| && a2[k] != 0;
      assert b[k] != 0;
    }
    if LineUsed(b, l) {
      var k: nat :| 8 * l <= k < 8 * l + 8 && k < |b| && b[k] != 0;
      assert a2[k] != 0;
    }
  }

  // Marking a slab's line in array1 is right exactly when the line ends up used.
  lemma {:induction false} MarkExact(a1: Slabs, a2: Slabs, s: nat, v: u64)
    requires TwoLevel(a1, a2) && s < |a2|
    ensures TwoLevel(WithBit(a1, s / 8), a2[s := v]) <==> LineUsed(a2[s := v], s / 8)
  {
    var b1, b2 := WithBit(a1, s / 8), a2[s := v];
    forall l: nat | l < |a1| * 64
      ensures l != s / 8 ==> (Has(b1, l) <==> LineUsed(b2, l))
      ensures l == s / 8 ==> Has(b1, l)
    {
      HasWithBit(a1, s / 8, l);
      if l != s / 8 {
        OtherLinesKept(a2, s, v, l);
      }
    }
  }

  lemma {:induction false} UnmarkExact(a1: Slabs, a2: Slabs, s: nat, v: u64)
    requires TwoLevel(a1, a2) && s < |a2| && !LineUsed(a2[s := v], s / 8)
    ensures TwoLevel(WithoutBit(a1, s / 8), a2[s := v])
  {
    var b1, b2 := WithoutBit(a1, s / 8), a2[s := v];
    forall l: nat | l < |a1| * 64
      ensures Has(b1, l) <==> LineUsed(b2, l)
    {
      HasWithoutBit(a1, s / 8, l);
      if l != s / 8 {
        OtherLinesKept(a2, s, v, l);
      }
    }
  }

  /** The state of a bitmap and its operations */

  // The cursor is the array2 line visited last and, while that line is not used up, the number of its
  // slabs already inspected (0 once it is).
  datatype State = State(a1: Slabs, a2: Slabs, line: nat, within: nat)

  // Sizes of array1 and array2 as the layout gives them.
  ghost predicate Sizes(n1: nat, n2: nat) {
    && IsPow2(n1) && n1 <= MAX_ARRAY1
    && 0 < n2 <= MAX_ARRAY2
    && n2 % 8 == 0 && n2 / 8 <= n1 * 64
  }

  lemma {:induction false} SizesOf(s: State)
    requires Marked(s)
    ensures Sizes(|s.a1|, |s.a2|) && 0 < |s.a1| <= MAX_ARRAY1 && |s.a2| <= |s.a1| * 512
  {
  }

  ghost predicate Shape(s: State) {
    && IsPow2(|s.a1|) && |s.a1| <= MAX_ARRAY1
    && 0 < |s.a2| <= MAX_ARRAY2
    && s.line < |s.a1| * 64
    && s.within < 8
    && (s.within != 0 ==> 8 * s.line + 8 <= |s.a2|)
  }

  ghost predicate Valid(s: State) {
    Shape(s) && TwoLevel(s.a1, s.a2)
  }

  // What remains when zero slabs are or-ed in as well: every used line is marked in array1, and nothing
  // past the last line is, but a marked line may be empty.
  ghost predicate UsedAreMarked(a1: Slabs, a2: Slabs) {
    && |a2| % 8 == 0
    && |a2| / 8 <= |a1| * 64
    && (forall l: nat :: l < |a1| * 64 && LineUsed(a2, l) ==> Has(a1, l))
    && (forall l: nat :: l < |a1| * 64 && Has(a1, l) ==> l < |a2| / 8)
  }

  ghost predicate Marked(s: State) {
    Shape(s) && UsedAreMarked(s.a1, s.a2)
  }

  lemma {:induction false} ValidIsMarked(s: State)
    requires Valid(s)
    ensures Marked(s)
  {
  }

  // A valid bitmap has at least one slab.
  lemma {:induction false} SomeLine(s: State)
    ensures Valid(s) ==> |s.a2| > 0
  {
  }

  lemma {:induction false} ValidSizes(s: State, pos: nat)
    requires Marked(s) && pos < |s.a2| * 64
    ensures |s.a2| % 8 == 0 && pos / 512 < |s.a1| * 64
  {
  }

  function Set(s: State, pos: nat): State
    requires pos < |s.a2| * 64 && pos / 512 < |s.a1| * 64
  {
    s.(a1 := WithBit(s.a1, pos / 512), a2 := WithBit(s.a2, pos))
  }

  function SetSlab(s: State, pos: nat, slab: u64): State
    requires pos < |s.a2| * 64 && pos / 512 < |s.a1| * 64
  {
    s.(a1 := WithBit(s.a1, pos / 512), a2 := WithSlab(s.a2, pos, slab))
  }

  function Clear(s: State, pos: nat): State
    requires pos < |s.a2| * 64 && pos / 512 < |s.a1| * 64
  {
    var a2 := WithoutBit(s.a2, pos);
    if LineUsed(a2, pos / 512) then s.(a2 := a2)
    else s.(a1 := WithoutBit(s.a1, pos / 512), a2 := a2)
  }

  function Zeros(n: nat): (a: Slabs)
    ensures |a| == n && forall i :: 0 <= i < n ==> a[i] == 0
  {
    seq(n, _ => 0)
  }

  // Reset also puts the cursor on the last line of array1's range, whose successor is line 0.
  function Reset(s: State): State
    requires 0 < |s.a1|
  {
    State(Zeros(|s.a1|), Zeros(|s.a2|), |s.a1| * 64 - 1, 0)
  }

  lemma {:induction false} SetKeepsValid(s: State, pos: nat)
    requires Valid(s) && pos < |s.a2| * 64
    ensures Valid(Set(s, pos))
  {
    var k := pos / 64;
    var v := SlabWithBit(s.a2[k], pos % 64);
    SlabWithBitNonZero(s.a2[k], pos % 64);
    assert s.a2[k := v][k] != 0;
    assert k / 8 == pos / 512;
    MarkExact(s.a1, s.a2, k, v);
  }

  lemma {:induction false} MarkKeepsMarked(a1: Slabs, a2: Slabs, s: nat, v: u64)
    requires UsedAreMarked(a1, a2) && s < |a2|
    ensures UsedAreMarked(WithBit(a1, s / 8), a2[s := v])
  {
    var b1, b2 := WithBit(a1, s / 8), a2[s := v];
    forall l: nat | l < |a1| * 64
      ensures LineUsed(b2, l) ==> Has(b1, l)
      ensures Has(b1, l) ==> l < |b2| / 8
    {
      HasWithBit(a1, s / 8, l);
      if l != s / 8 {
        OtherLinesKept(a2, s, v, l);
      }
    }
  }

  // Or-ing in any slab, a zero one too, keeps every used line marked.
  lemma {:induction false} SetSlabKeepsMarked(s: State, pos: nat, slab: u64)
    requires Marked(s) && pos < |s.a2| * 64
    ensures Marked(SetSlab(s, pos, slab))
  {
    assert pos / 64 / 8 == pos / 512;
    MarkKeepsMarked(s.a1, s.a2, pos / 64, Or64(s.a2[pos / 64], slab));
  }

  lemma {:induction false} SetKeepsMarked(s: State, pos: nat)
    requires Marked(s) && pos < |s.a2| * 64
    ensures Marked(Set(s, pos))
  {
    assert pos / 64 / 8 == pos / 512;
    MarkKeepsMarked(s.a1, s.a2, pos / 64, SlabWithBit(s.a2[pos / 64], pos % 64));
  }

  lemma {:induction false} ClearKeepsMarked(s: State, pos: nat)
    requires Marked(s) && pos < |s.a2| * 64
    ensures Marked(Clear(s, pos))
  {
    var k := pos / 64;
    var v := SlabWithoutBit(s.a2[k], pos % 64);
    var b2, n := s.a2[k := v], Clear(s, pos);
    assert k / 8 == pos / 512;
    if LineUsed(b2, k / 8) {
      ClearedLineWasUsed(s.a2, k, pos % 64);
    }
    forall l: nat | l < |s.a1| * 64
      ensures LineUsed(b2, l) ==> Has(n.a1, l)
      ensures Has(n.a1, l) ==> l < |b2| / 8
    {
      HasWithoutBit(s.a1, k / 8, l);
      if l != k / 8 {
        OtherLinesKept(s.a2, k, v, l);
      }
    }
  }

  // Setting marks the line of the position; clearing leaves that line marked exactly if it is still used,
  // also if it was marked and empty. The marks of all other lines stay as they are.
  lemma {:induction false} MarksAfter(s: State, pos: nat, slab: u64, l: nat)
    requires Marked(s) && pos < |s.a2| * 64 && l < |s.a1| * 64
    ensures pos / 512 < |s.a1| * 64
    ensures Has(Set(s, pos).a1, l) <==> l == pos / 512 || Has(s.a1, l)
    ensures Has(SetSlab(s, pos, slab).a1, l) <==> l == pos / 512 || Has(s.a1, l)
    ensures Has(Clear(s, pos).a1, l) <==> if l == pos / 512 then LineUsed(Clear(s, pos).a2, l) else Has(s.a1, l)
  {
    var k := pos / 64;
    ValidSizes(s, pos);
    HasWithBit(s.a1, pos / 512, l);
    HasWithoutBit(s.a1, pos / 512, l);
    assert k / 8 == pos / 512;
    if LineUsed(WithoutBit(s.a2, pos), pos / 512) {
      ClearedLineWasUsed(s.a2, k, pos % 64);
    }
  }

  // Or-ing a zero slab into an unused line marks the line in array1 although it stays empty.
  lemma {:induction false} SetSlabValidExactly(s: State, pos: nat, slab: u64)
    requires Valid(s) && pos < |s.a2| * 64
    ensures Valid(SetSlab(s, pos, slab)) <==> slab != 0 || LineUsed(s.a2, pos / 512)
  {
    var k := pos / 64;
    var v := Or64(s.a2[k], slab);
    var b2 := s.a2[k := v];
    Or64NonZero(s.a2[k], slab);
    assert k / 8 == pos / 512;
    MarkExact(s.a1, s.a2, k, v);
    if slab != 0 {
      assert b2[k] != 0;
    } else {
      BitsOfOrZero(s.a2[k]);
      assert b2 == s.a2;
    }
  }

  // The smallest such case: or-ing 0 into slab 0 of an empty one-line bitmap.
  lemma {:induction false} ZeroSlabBreaksLevels()
    ensures var s := Reset(State(Zeros(1), Zeros(8), 0, 0));
            Valid(s) && !Valid(SetSlab(s, 0, 0)) && Members(SetSlab(s, 0, 0).a2) == {}
  {
    var s := Reset(State(Zeros(1), Zeros(8), 0, 0));
    assert Pow2(0) == |s.a1|;
    ResetIsValid(s);
    SetSlabValidExactly(s, 0, 0);
    BitsOfOrZero(0);
    assert SetSlab(s, 0, 0).a2 == s.a2;
    MembersOfZeros(8);
  }

  lemma BitsOfOrZero(x: u64)
    ensures Or64(x, 0) == x
  {
  }

  lemma {:induction false} ClearKeepsValid(s: State, pos: nat)
    requires Valid(s) && pos < |s.a2| * 64
    ensures Valid(Clear(s, pos))
  {
    var k := pos / 64;
    var v := SlabWithoutBit(s.a2[k], pos % 64);
    var b2 := s.a2[k := v];
    assert k / 8 == pos / 512;
    if LineUsed(b2, k / 8) {
      ClearedLineWasUsed(s.a2, k, pos % 64);
      forall l: nat | l < |s.a1| * 64
        ensures Has(s.a1, l) <==> LineUsed(b2, l)
      {
        if l != k / 8 {
          OtherLinesKept(s.a2, k, v, l);
        }
      }
    } else {
      UnmarkExact(s.a1, s.a2, k, v);
    }
  }

  lemma {:induction false} ClearedLineWasUsed(a2: Slabs, k: nat, o: nat)
    requires k < |a2| && o < 64 && LineUsed(a2[k := SlabWithoutBit(a2[k], o)], k / 8)
    ensures LineUsed(a2, k / 8)
  {
    var b2 := a2[k := SlabWithoutBit(a2[k], o)];
    var j: nat :| 8 * (k / 8) <= j < 8 * (k / 8) + 8 && j < |b2| && b2[j] != 0;
    assert a2[j] != 0;
  }

  lemma {:induction false} ResetIsValid(s: State)
    requires Sizes(|s.a1|, |s.a2|)
    ensures Valid(Reset(s))
  {
    forall l: nat | l < |s.a1| * 64
      ensures !Has(Zeros(|s.a1|), l)
    {
      ZeroBit(l % 64);
    }
  }

  /** The set of positions a bitmap stands for */

  ghost function Members(a: Slabs): set<nat> {
    set p: nat | p < |a| * 64 && Has(a, p)
  }

  lemma {:induction false} MembersWithBit(a: Slabs, p: nat)
    requires p < |a| * 64
    ensures Members(WithBit(a, p)) == Members(a) + {p}
  {
    forall q: nat | q < |a| * 64
      ensures q in Members(WithBit(a, p)) <==> q in Members(a) + {p}
    {
      HasWithBit(a, p, q);
    }
  }

  lemma {:induction false} MembersWithoutBit(a: Slabs, p: nat)
    requires p < |a| * 64
    ensures Members(WithoutBit(a, p)) == Members(a) - {p}
  {
    forall q: nat | q < |a| * 64
      ensures q in Members(WithoutBit(a, p)) <==> q in Members(a) - {p}
    {
      HasWithoutBit(a, p, q);
    }
  }

  ghost function SlabMembers(n: nat, p: nat, slab: u64): set<nat> {
    set q: nat | q < n * 64 && q / 64 == p / 64 && Bit(slab, q % 64)
  }

  lemma {:induction false} MembersWithSlab(a: Slabs, p: nat, slab: u64)
    requires p < |a| * 64
    ensures Members(WithSlab(a, p, slab)) == Members(a) + SlabMembers(|a|, p, slab)
  {
    forall q: nat | q < |a| * 64
      ensures q in Members(WithSlab(a, p, slab)) <==> q in Members(a) + SlabMembers(|a|, p, slab)
    {
      HasWithSlab(a, p, slab, q);
    }
  }

  lemma {:induction false} MembersOfZeros(n: nat)
    ensures Members(Zeros(n)) == {}
  {
    forall p: nat | p < n * 64
      ensures !Has(Zeros(n), p)
    {
      ZeroBit(p % 64);
    }
  }

  lemma {:induction false} NoMembers(a: Slabs)
    ensures Members(a) == {} <==> forall i :: 0 <= i < |a| ==> a[i] == 0
  {
    forall i | 0 <= i < |a|
      ensures a[i] != 0 ==> Members(a) != {}
    {
      SlabUsed(a, i);
      if a[i] != 0 {
        var q: nat :| q < |a| * 64 && q / 64 == i && Has(a, q);
        assert q in Members(a);
      }
    }
    forall p: nat | p < |a| * 64 && Has(a, p)
      ensures a[p / 64] != 0
    {
      ZeroBit(p % 64);
    }
    if Members(a) != {} {
      var p :| p in Members(a);
      assert a[p / 64] != 0;
    }
  }
}
