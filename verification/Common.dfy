/**
 The power-of-two and logarithm tricks of include/rte_common.h against their number-theoretic
 meaning. The 32-bit and 64-bit variants differ only in their last step and in where they wrap.
 */
module Common {
  import opened Words

  datatype Option<+T> = None | Some(value: T)

  // The error numbers of the C library that the source returns, negated.
  const ENOENT := 2
  const EINVAL := 22
  const ENOSPC := 28

  function Min(a: nat, b: nat): nat {
    if a < b then a else b
  }

  function Fill(x: nat, k: nat): nat {
    Or(x, Shr(x, k))
  }

  function FillAll(x: nat, shifts: seq<nat>): nat
    decreases shifts
  {
    if shifts == [] then x else FillAll(Fill(x, shifts[0]), shifts[1..])
  }

  function Combine32ms1b(x: nat): nat {
    FillAll(x, [1, 2, 4, 8, 16])
  }

  function Combine64ms1b(v: nat): nat {
    FillAll(v, [1, 2, 4, 8, 16, 32])
  }

  predicate IsPowerOf2(n: u32) {
    n != 0 && And(n, n - 1) == 0
  }

  function Align32Pow2(x: u32): u32 {
    Wrap32(Combine32ms1b(Minus32(x, 1)) + 1)
  }

  function Align64Pow2(v: u64): u64 {
    Wrap64(Combine64ms1b(Minus64(v, 1)) + 1)
  }

  function Align32PrevPow2(x: u32): int {
    var x := Combine32ms1b(x);
    x - Shr(x, 1)
  }

  function Align64PrevPow2(v: u64): int {
    var v := Combine64ms1b(v);
    v - Shr(v, 1)
  }

  // None stands for the undefined __builtin_ctz(0).
  function BuiltinCtz(x: u32): Option<nat> {
    Pow2Values();
    if x == 0 then None else Some(Ctz(x, 32))
  }

  function BuiltinCtzll(x: u64): Option<nat> {
    Pow2Values();
    if x == 0 then None else Some(Ctz(x, 64))
  }

  function Log2U32(v: u32): Option<nat> {
    if v == 0 then Some(0) else BuiltinCtz(Align32Pow2(v))
  }

  function Log2U64(v: u64): Option<nat> {
    if v == 0 then Some(0) else BuiltinCtzll(Align64Pow2(v))
  }

  /** Combine fills every bit below the top set bit */

  ghost predicate SetAmong(x: nat, i: nat, n: nat) {
    exists j: nat :: i <= j < i + n && Bit(x, j)
  }

  // Bit i of y says whether x has a set bit among the n positions from i up.
  ghost predicate Smeared(x: nat, y: nat, n: nat) {
    forall i: nat :: Bit(y, i) <==> SetAmong(x, i, n)
  }

  lemma {:induction false} FillDoubles(x: nat, y: nat, n: nat)
    requires Smeared(x, y, n)
    ensures Smeared(x, Fill(y, n), 2 * n)
  {
    forall i: nat
      ensures Bit(Fill(y, n), i) <==> SetAmong(x, i, 2 * n)
    {
      BitOfOr(y, Shr(y, n), i);
      BitOfShr(y, n, i);
      SetAmongSplit(x, i, n);
    }
  }

  lemma {:induction false} SetAmongSplit(x: nat, i: nat, n: nat)
    ensures SetAmong(x, i, 2 * n) <==> SetAmong(x, i, n) || SetAmong(x, i + n, n)
  {
    if SetAmong(x, i, 2 * n) {
      var j: nat :| i <= j < i + 2 * n && Bit(x, j);
      assert j < i + n || i + n <= j;
    }
    if SetAmong(x, i, n) {
      var j: nat :| i <= j < i + n && Bit(x, j);
      assert j < i + 2 * n;
    }
    if SetAmong(x, i + n, n) {
      var j: nat :| i + n <= j < i + n + n && Bit(x, j);
      assert i <= j;
    }
  }

  // Each shift doubles the one before, starting from n; the width filled in the end.
  ghost predicate Doubling(shifts: seq<nat>, n: nat) {
    shifts == [] || (shifts[0] == n && Doubling(shifts[1..], 2 * n))
  }

  ghost function Width(shifts: seq<nat>, n: nat): nat {
    if shifts == [] then n else Width(shifts[1..], 2 * n)
  }

  lemma {:induction false} FillAllSmears(x: nat, y: nat, shifts: seq<nat>, n: nat)
    requires Smeared(x, y, n) && Doubling(shifts, n)
    ensures Smeared(x, FillAll(y, shifts), Width(shifts, n))
    decreases shifts
  {
    if shifts != [] {
      FillDoubles(x, y, n);
      FillAllSmears(x, Fill(y, n), shifts[1..], 2 * n);
    }
  }

  lemma {:induction false} FillAllBound(x: nat, shifts: seq<nat>, w: nat)
    requires x < Pow2(w)
    ensures FillAll(x, shifts) < Pow2(w)
    decreases shifts
  {
    if shifts != [] {
      ShrBound(x, shifts[0]);
      OrBound(x, Shr(x, shifts[0]), w);
      FillAllBound(Fill(x, shifts[0]), shifts[1..], w);
    }
  }

  lemma {:induction false} SmearedByOne(x: nat)
    ensures Smeared(x, x, 1)
  {
    forall i: nat
      ensures Bit(x, i) <==> SetAmong(x, i, 1)
    {
      if Bit(x, i) {
        assert i <= i < i + 1;
      }
    }
  }

  lemma {:induction false} ShiftsTo32()
    ensures var s := [1, 2, 4, 8, 16]; Doubling(s, 1) && Width(s, 1) == 32
  {
    var s := [1, 2, 4, 8, 16];
    assert s[1..] == [2, 4, 8, 16] && s[1..][1..] == [4, 8, 16];
    assert [4, 8, 16][1..] == [8, 16] && [8, 16][1..] == [16] && [16][1..] == [];
    assert Doubling([8, 16], 8) && Width([8, 16], 8) == 32;
    assert Doubling([2, 4, 8, 16], 2) && Width([2, 4, 8, 16], 2) == 32;
  }

  lemma {:induction false} ShiftsTo64()
    ensures var s := [1, 2, 4, 8, 16, 32]; Doubling(s, 1) && Width(s, 1) == 64
  {
    var s := [1, 2, 4, 8, 16, 32];
    assert s[1..] == [2, 4, 8, 16, 32] && s[1..][1..] == [4, 8, 16, 32];
    assert [4, 8, 16, 32][1..] == [8, 16, 32] && [8, 16, 32][1..] == [16, 32];
    assert [16, 32][1..] == [32] && [32][1..] == [];
    assert Doubling([16, 32], 16) && Width([16, 32], 16) == 64;
    assert Doubling([4, 8, 16, 32], 4) && Width([4, 8, 16, 32], 4) == 64;
  }

  // The position of the top set bit.
  function TopBit(x: nat): (t: nat)
    requires x > 0
    ensures Pow2(t) <= x < Pow2(t + 1)
    decreases x
  {
    if x == 1 then 0 else TopBit(x / 2) + 1
  }

  lemma {:induction false} TopBitSet(x: nat, t: nat)
    requires Pow2(t) <= x < Pow2(t + 1)
    ensures Bit(x, t)
    decreases t
  {
    if t > 0 {
      TopBitSet(x / 2, t - 1);
    }
  }

  lemma {:induction false} SetAmongBelowTop(x: nat, t: nat, i: nat, n: nat)
    requires Pow2(t) <= x < Pow2(t + 1) && t < n
    ensures SetAmong(x, i, n) <==> i <= t
  {
    if i <= t {
      TopBitSet(x, t);
      assert i <= t < i + n;
    } else {
      forall j: nat | i <= j < i + n
        ensures !Bit(x, j)
      {
        HighBitsClear(x, t + 1, j);
      }
    }
  }

  // n ones for a number of n bits.
  function Ones(x: nat): nat {
    if x == 0 then 0 else Pow2(TopBit(x) + 1) - 1
  }

  lemma {:induction false} SmearedIsOnes(x: nat, y: nat, w: nat)
    requires 0 < x < Pow2(w) && y < Pow2(w) && Smeared(x, y, w)
    ensures y == Ones(x)
  {
    var t := TopBit(x);
    if w <= t {
      Pow2Mono(w, t);
    }
    Pow2Mono(t + 1, w);
    forall i: nat | i < w
      ensures Bit(y, i) == Bit(Pow2(t + 1) - 1, i)
    {
      BitOfOnes(t + 1, i);
      SetAmongBelowTop(x, t, i, w);
    }
    SameBitsSameWord(y, Pow2(t + 1) - 1, w);
  }

  // The value with all ones from the top set bit of x down; 0 for 0.
  lemma {:induction false} FillAllValue(x: nat, shifts: seq<nat>, w: nat)
    requires x < Pow2(w) && Doubling(shifts, 1) && Width(shifts, 1) == w
    ensures FillAll(x, shifts) == Ones(x)
  {
    SmearedByOne(x);
    FillAllSmears(x, x, shifts, 1);
    FillAllBound(x, shifts, if x == 0 then 0 else w);
    if x > 0 {
      SmearedIsOnes(x, FillAll(x, shifts), w);
    }
  }

  lemma Combine32Value(x: u32)
    ensures Combine32ms1b(x) == Ones(x)
  {
    U32Bound(x);
    ShiftsTo32();
    FillAllValue(x, [1, 2, 4, 8, 16], 32);
  }

  lemma Combine64Value(x: u64)
    ensures Combine64ms1b(x) == Ones(x)
  {
    U64Bound(x);
    ShiftsTo64();
    FillAllValue(x, [1, 2, 4, 8, 16, 32], 64);
  }

  /** The least power of two at or above x, the greatest at or below it */

  lemma {:induction false} NextPow2IsLeast(x: nat, t: nat)
    requires Pow2(t) < x <= Pow2(t + 1)
    ensures LeastPow2AtLeast(Pow2(t + 1), x)
  {
    forall k: nat | x <= Pow2(k)
      ensures Pow2(t + 1) <= Pow2(k)
    {
      if k <= t {
        Pow2Mono(k, t);
      } else {
        Pow2Mono(t + 1, k);
      }
    }
  }

  lemma {:induction false} OneIsLeast()
    ensures LeastPow2AtLeast(1, 1)
  {
    assert Pow2(0) == 1;
  }

  lemma {:induction false} AlignedFromTwo(x: nat, w: nat, t: nat)
    requires w > 0 && 2 <= x < Pow2(w) && Pow2(t) <= x - 1 < Pow2(t + 1)
    ensures t < w && LeastPow2AtLeast(Pow2(t + 1), x)
    ensures x <= Pow2(w - 1) ==> t + 1 < w && Pow2(t + 1) < Pow2(w)
    ensures x > Pow2(w - 1) ==> t + 1 == w
  {
    hide LeastPow2AtLeast;
    NextPow2IsLeast(x, t);
    if w <= t {
      Pow2Mono(w, t);
    }
    if t + 1 < w {
      Pow2Mono(t + 1, w - 1);
    }
  }

  // Filling the decremented x and adding one gives the least power of two at or above x, or the
  // value 2^w that wraps to 0, exactly for 0 and for the values above half the range.
  lemma {:induction false} AlignedValue(x: nat, w: nat)
    requires w > 0 && x < Pow2(w)
    ensures var r := Ones(SubIn(x, 1, Pow2(w))) + 1;
            && 0 < r <= Pow2(w)
            && (1 <= x <= Pow2(w - 1) ==> r < Pow2(w) && LeastPow2AtLeast(r, x))
            && (r == Pow2(w) <==> x == 0 || x > Pow2(w - 1))
  {
    hide LeastPow2AtLeast, TopBit;
    if x == 0 {
      TopBitOfOnes(w);
    } else if x == 1 {
      OneIsLeast();
      Pow2Mono(0, w - 1);
    } else {
      AlignedFromTwo(x, w, TopBit(x - 1));
      Pow2Mono(TopBit(x - 1) + 1, w);
    }
  }

  lemma {:induction false} TopBitOfOnes(n: nat)
    requires n > 0
    ensures Pow2(n) > 1 && TopBit(Pow2(n) - 1) == n - 1
  {
    var t := TopBit(Pow2(n) - 1);
    if t >= n {
      Pow2Mono(n, t);
    } else if t < n - 1 {
      Pow2Mono(t + 1, n - 1);
    }
  }

  lemma {:induction false} Align32Value(x: u32)
    ensures Align32Pow2(x) == (Ones(SubIn(x, 1, TWO_32)) + 1) % TWO_32
  {
    hide Combine32ms1b, Ones;
    Combine32Value(Minus32(x, 1));
  }

  lemma {:induction false} Align64Value(v: u64)
    ensures Align64Pow2(v) == (Ones(SubIn(v, 1, TWO_64)) + 1) % TWO_64
  {
    hide Combine64ms1b, Ones;
    Combine64Value(Minus64(v, 1));
  }

  lemma Wrapped(x: nat, w: nat, values: nat, half: nat)
    requires w > 0 && x < Pow2(w) == values && half == Pow2(w - 1)
    ensures AlignsUpTo((Ones(SubIn(x, 1, values)) + 1) % values, x, half)
  {
    AlignedValue(x, w);
    var r := Ones(SubIn(x, 1, values)) + 1;
    if r < values {
      DivModUnique(r, values, 0, r);
    } else {
      DivModUnique(r, values, 1, 0);
    }
  }

  // The widths, without their literal values in the way of the proofs below.
  lemma Width32() returns (w: nat)
    ensures w > 0 && Pow2(w) == TWO_32 && Pow2(w - 1) == 0x8000_0000
  {
    Pow2Values();
    w := 32;
  }

  lemma Width64() returns (w: nat)
    ensures w > 0 && Pow2(w) == TWO_64 && Pow2(w - 1) == 0x8000_0000_0000_0000
  {
    Pow2Values();
    w := 64;
  }

  lemma Align32Pow2IsLeast(x: u32)
    ensures AlignsUpTo(Align32Pow2(x), x, 0x8000_0000)
  {
    var r := (Ones(SubIn(x, 1, TWO_32)) + 1) % TWO_32;
    assert AlignsUpTo(r, x, 0x8000_0000) by {
      var w := Width32();
      Wrapped(x, w, TWO_32, 0x8000_0000);
    }
    assert Align32Pow2(x) == r by {
      Align32Value(x);
    }
  }

  lemma Align64Pow2IsLeast(v: u64)
    ensures AlignsUpTo(Align64Pow2(v), v, 0x8000_0000_0000_0000)
  {
    var r := (Ones(SubIn(v, 1, TWO_64)) + 1) % TWO_64;
    assert AlignsUpTo(r, v, 0x8000_0000_0000_0000) by {
      var w := Width64();
      Wrapped(v, w, TWO_64, 0x8000_0000_0000_0000);
    }
    assert Align64Pow2(v) == r by {
      Align64Value(v);
    }
  }

  lemma {:induction false} TopPow2IsGreatest(x: nat, t: nat)
    requires Pow2(t) <= x < Pow2(t + 1)
    ensures GreatestPow2AtMost(Pow2(t), x)
  {
    forall k: nat | Pow2(k) <= x
      ensures Pow2(k) <= Pow2(t)
    {
      if k <= t {
        Pow2Mono(k, t);
      } else {
        Pow2Mono(t + 1, k);
      }
    }
  }

  lemma {:induction false} PrevOfOnes(x: nat)
    requires x > 0
    ensures Ones(x) >= Shr(Ones(x), 1) && GreatestPow2AtMost(Ones(x) - Shr(Ones(x), 1), x)
  {
    hide GreatestPow2AtMost;
    var t := TopBit(x);
    TopPow2IsGreatest(x, t);
    ShrOnes(t + 1);
    assert Pow2(t + 1) == 2 * Pow2(t);
  }

  lemma {:induction false} Align32PrevPow2IsGreatest(x: u32)
    ensures if x == 0 then Align32PrevPow2(x) == 0
            else Align32PrevPow2(x) >= 0 && GreatestPow2AtMost(Align32PrevPow2(x), x)
  {
    hide Combine32ms1b, GreatestPow2AtMost, TopBit;
    Combine32Value(x);
    if x > 0 {
      PrevOfOnes(x);
    }
  }

  lemma {:induction false} Align64PrevPow2IsGreatest(v: u64)
    ensures if v == 0 then Align64PrevPow2(v) == 0
            else Align64PrevPow2(v) >= 0 && GreatestPow2AtMost(Align64PrevPow2(v), v)
  {
    hide Combine64ms1b, GreatestPow2AtMost, TopBit;
    Combine64Value(v);
    if v > 0 {
      PrevOfOnes(v);
    }
  }

  lemma ShrOnes(n: nat)
    requires n > 0
    ensures Shr(Pow2(n) - 1, 1) == Pow2(n - 1) - 1
  {
    assert Shr(Pow2(n) - 1, 1) == (Pow2(n) - 1) / 2;
  }

  /** Rounded-up logarithm */

  lemma {:induction false} CtzOfPow2(k: nat, w: nat)
    requires k < w
    ensures Pow2(k) < Pow2(w) && Ctz(Pow2(k), w) == k
  {
    Pow2Mono(k, w);
    BitOfPow2(k, Ctz(Pow2(k), w));
  }

  lemma {:induction false} LeastPow2Exponent(k: nat, v: nat)
    requires LeastPow2AtLeast(Pow2(k), v)
    ensures LeastExponent(k, v)
  {
    forall j: nat | v <= Pow2(j)
      ensures k <= j
    {
      if j < k {
        Pow2Mono(j, k);
      }
    }
  }

  lemma {:induction false} Log2OfAligned(r: nat, v: nat, w: nat)
    requires w > 0 && LeastPow2AtLeast(r, v) && v <= Pow2(w - 1)
    ensures r < Pow2(w) && LeastExponent(Ctz(r, w), v)
  {
    var k: nat :| Pow2(k) == r;
    if k >= w {
      Pow2Mono(w, k);
    }
    CtzOfPow2(k, w);
    LeastPow2Exponent(k, v);
  }

  // Some(k) with the least k such that 2^k >= v up to half the range; undefined exactly above it.
  lemma {:induction false} Log2U32IsLeastExponent(v: u32)
    ensures Log2U32(v).Some? <==> v <= 0x8000_0000
    ensures v <= 0x8000_0000 ==> LeastExponent(Log2U32(v).value, v)
  {
    Pow2Values();
    Align32Pow2IsLeast(v);
    if 0 < v <= 0x8000_0000 {
      Log2OfAligned(Align32Pow2(v), v, 32);
    }
  }

  lemma {:induction false} Log2U64IsLeastExponent(v: u64)
    ensures Log2U64(v).Some? <==> v <= 0x8000_0000_0000_0000
    ensures v <= 0x8000_0000_0000_0000 ==> LeastExponent(Log2U64(v).value, v)
  {
    Pow2Values();
    Align64Pow2IsLeast(v);
    if 0 < v <= 0x8000_0000_0000_0000 {
      Log2OfAligned(Align64Pow2(v), v, 64);
    }
  }

  /** n & (n - 1) */

  lemma {:induction false} ClearLowestBit(n: nat)
    requires n > 0
    ensures And(n, n - 1) == 0 <==> IsPow2(n)
    decreases n
  {
    if n == 1 {
      assert Pow2(0) == 1;
    } else if n % 2 == 1 {
      AndSelf(n / 2);
      assert And(n, n - 1) == 2 * And(n / 2, n / 2);
      forall k: nat
        ensures Pow2(k) != n
      {
        if k > 0 {
          assert Pow2(k) == 2 * Pow2(k - 1);
        }
      }
    } else {
      assert (n - 1) / 2 == n / 2 - 1;
      ClearLowestBit(n / 2);
      if IsPow2(n / 2) {
        var k: nat :| Pow2(k) == n / 2;
        assert Pow2(k + 1) == n;
      }
      if IsPow2(n) {
        var k: nat :| Pow2(k) == n;
        assert Pow2(k - 1) == n / 2;
      }
    }
  }

  lemma {:induction false} AndSelf(x: nat)
    ensures And(x, x) == x
    decreases x
  {
    if x > 0 {
      AndSelf(x / 2);
    }
  }

  lemma {:induction false} IsPowerOf2Exact(n: u32)
    ensures IsPowerOf2(n) <==> IsPow2(n)
  {
    if n > 0 {
      ClearLowestBit(n);
    }
  }
}
