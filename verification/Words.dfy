/**
 Unsigned machine words as natural numbers.

 A w-bit word is a natural number below Pow2(w). The bit operators are defined digit by digit, and
 each is characterised by a lemma that says what every bit of its result is.
 */
module Words {

  function Pow2(n: nat): (r: nat)
    ensures r >= 1
  {
    if n == 0 then 1 else 2 * Pow2(n - 1)
  }

  const TWO_32: nat := 0x1_0000_0000
  const TWO_64: nat := 0x1_0000_0000_0000_0000

  type byte = x: nat | x < 0x100
  type u16 = x: nat | x < 0x1_0000
  type u32 = x: nat | x < 0x1_0000_0000
  type u64 = x: nat | x < 0x1_0000_0000_0000_0000

  predicate Bit(x: nat, i: nat)
    decreases i
  {
    if i == 0 then x % 2 == 1 else Bit(x / 2, i - 1)
  }

  function Or(x: nat, y: nat): nat {
    if x == 0 then y
    else if y == 0 then x
    else 2 * Or(x / 2, y / 2) + (if x % 2 == 1 || y % 2 == 1 then 1 else 0)
  }

  function And(x: nat, y: nat): nat {
    if x == 0 || y == 0 then 0
    else 2 * And(x / 2, y / 2) + (if x % 2 == 1 && y % 2 == 1 then 1 else 0)
  }

  // C's `~x` on a w-bit word.
  function Not(x: nat, w: nat): nat
    requires x < Pow2(w)
  {
    Pow2(w) - 1 - x
  }

  // C's `x << k` on a w-bit word.
  function Shl(x: nat, k: nat, w: nat): nat {
    x * Pow2(k) % Pow2(w)
  }

  // C's `x >> k`.
  function Shr(x: nat, k: nat): nat
    decreases x
  {
    if x == 0 || k == 0 then x else Shr(x / 2, k - 1)
  }

  /** Arithmetic that wraps */

  // x + y and x - y on words of m values.
  function AddIn(x: nat, y: nat, m: nat): (r: nat)
    requires x < m && y <= m
    ensures r < m
  {
    if x + y < m then x + y else x + y - m
  }

  function SubIn(x: nat, y: nat, m: nat): (r: nat)
    requires x < m && y <= m
    ensures r < m
  {
    if y <= x then x - y else x + m - y
  }

  function Plus32(x: u32, y: u32): u32 {
    AddIn(x, y, TWO_32)
  }

  function Minus32(x: u32, y: u32): u32 {
    SubIn(x, y, TWO_32)
  }

  function Plus64(x: u64, y: u64): u64 {
    AddIn(x, y, TWO_64)
  }

  function Minus64(x: u64, y: u64): u64 {
    SubIn(x, y, TWO_64)
  }

  // The word that any other result is cut down to.
  function Wrap32(n: int): u32 {
    n % TWO_32
  }

  function Wrap64(n: int): u64 {
    n % TWO_64
  }

  lemma {:induction false} Wrap32Small(n: u32)
    ensures Wrap32(n) == n
  {
  }

  lemma {:induction false} Wrap64Small(n: u64)
    ensures Wrap64(n) == n
  {
  }

  lemma {:induction false} Wrap32Unique(n: int, q: int, r: u32)
    requires n == q * TWO_32 + r
    ensures Wrap32(n) == r
  {
  }

  lemma {:induction false} Wrap64Unique(n: int, q: int, r: u64)
    requires n == q * TWO_64 + r
    ensures Wrap64(n) == r
  {
  }

  lemma {:induction false} Wrap32Plus(n: int, y: u32)
    ensures Plus32(Wrap32(n), y) == Wrap32(n + y) && Minus32(Wrap32(n), y) == Wrap32(n - y)
  {
    var q, r := n / TWO_32, Wrap32(n);
    Wrap32Unique(n + y, if r + y < TWO_32 then q else q + 1, Plus32(r, y));
    Wrap32Unique(n - y, if y <= r then q else q - 1, Minus32(r, y));
  }

  lemma {:induction false} Wrap64Plus(n: int, y: u64)
    ensures Plus64(Wrap64(n), y) == Wrap64(n + y) && Minus64(Wrap64(n), y) == Wrap64(n - y)
  {
    var q, r := n / TWO_64, Wrap64(n);
    Wrap64Unique(n + y, if r + y < TWO_64 then q else q + 1, Plus64(r, y));
    Wrap64Unique(n - y, if y <= r then q else q - 1, Minus64(r, y));
  }

  /** Pow2 */

  lemma {:induction false} Pow2Plus8(n: nat)
    ensures Pow2(n + 8) == 256 * Pow2(n)
  {
    assert Pow2(n + 2) == 4 * Pow2(n);
    assert Pow2(n + 4) == 4 * Pow2(n + 2);
    assert Pow2(n + 6) == 4 * Pow2(n + 4);
  }

  lemma Pow2Values()
    ensures Pow2(6) == 64 && Pow2(9) == 512
    ensures Pow2(31) == 0x8000_0000 && Pow2(32) == TWO_32
    ensures Pow2(63) == 0x8000_0000_0000_0000 && Pow2(64) == TWO_64
  {
    assert Pow2(7) == 128;
    Pow2Plus8(1);
    Pow2Plus8(7);
    Pow2Plus8(15);
    Pow2Plus8(23);
    Pow2Plus8(31);
    Pow2Plus8(39);
    Pow2Plus8(47);
    Pow2Plus8(55);
    var n := 31;
    assert Pow2(n + 1) == 2 * Pow2(n);
    n := 63;
    assert Pow2(n + 1) == 2 * Pow2(n);
  }

  lemma {:induction false} Pow2Mono(m: nat, n: nat)
    requires m <= n
    ensures Pow2(m) <= Pow2(n)
    ensures m < n ==> 2 * Pow2(m) <= Pow2(n)
    decreases n
  {
    if m < n {
      Pow2Mono(m, n - 1);
    }
  }

  lemma U32Bound(x: u32)
    ensures x < Pow2(32)
  {
    Pow2Values();
  }

  lemma U64Bound(x: u64)
    ensures x < Pow2(64)
  {
    Pow2Values();
  }

  /** Words are determined by their bits */

  lemma {:induction false} ZeroBit(i: nat)
    ensures !Bit(0, i)
    decreases i
  {
    if i > 0 {
      ZeroBit(i - 1);
    }
  }

  lemma {:induction false} HighBitsClear(x: nat, w: nat, i: nat)
    requires x < Pow2(w) && w <= i
    ensures !Bit(x, i)
    decreases i
  {
    if w == 0 {
      ZeroBit(i);
    } else {
      HighBitsClear(x / 2, w - 1, i - 1);
    }
  }

  // A word below 2^w is zero exactly when its w bits are.
  lemma {:induction false} SomeBitSet(x: nat, w: nat)
    requires 0 < x < Pow2(w)
    ensures exists i: nat :: i < w && Bit(x, i)
    decreases w
  {
    if x % 2 == 1 {
      assert Bit(x, 0);
    } else {
      SomeBitSet(x / 2, w - 1);
      var j: nat :| j < w - 1 && Bit(x / 2, j);
      assert Bit(x, j + 1);
    }
  }

  lemma {:induction false} SameBitsSameWord(x: nat, y: nat, w: nat)
    requires x < Pow2(w) && y < Pow2(w)
    requires forall i: nat :: i < w ==> Bit(x, i) == Bit(y, i)
    ensures x == y
    decreases w
  {
    if w > 0 {
      assert Bit(x, 0) == Bit(y, 0);
      forall i: nat | i < w - 1
        ensures Bit(x / 2, i) == Bit(y / 2, i)
      {
        assert Bit(x, i + 1) == Bit(y, i + 1);
      }
      SameBitsSameWord(x / 2, y / 2, w - 1);
    }
  }

  /** What every bit of a result is */

  lemma {:induction false} BitOfOr(x: nat, y: nat, i: nat)
    ensures Bit(Or(x, y), i) == (Bit(x, i) || Bit(y, i))
    decreases i
  {
    if x == 0 || y == 0 {
      ZeroBit(i);
    } else if i > 0 {
      BitOfOr(x / 2, y / 2, i - 1);
    }
  }

  lemma {:induction false} BitOfAnd(x: nat, y: nat, i: nat)
    ensures Bit(And(x, y), i) == (Bit(x, i) && Bit(y, i))
    decreases i
  {
    if x == 0 || y == 0 {
      ZeroBit(i);
    } else if i > 0 {
      BitOfAnd(x / 2, y / 2, i - 1);
    }
  }

  lemma {:induction false} BitOfNot(x: nat, w: nat, i: nat)
    requires x < Pow2(w) && i < w
    ensures Bit(Not(x, w), i) == !Bit(x, i)
    decreases i
  {
    if i > 0 {
      assert Not(x, w) / 2 == Not(x / 2, w - 1);
      BitOfNot(x / 2, w - 1, i - 1);
    }
  }

  lemma {:induction false} BitOfPow2(k: nat, i: nat)
    ensures Bit(Pow2(k), i) == (i == k)
    decreases k
  {
    if k == 0 {
      if i > 0 {
        ZeroBit(i - 1);
      }
    } else if i > 0 {
      BitOfPow2(k - 1, i - 1);
    }
  }

  // 2^n - 1 is n ones.
  lemma {:induction false} BitOfOnes(n: nat, i: nat)
    ensures Bit(Pow2(n) - 1, i) == (i < n)
    decreases n
  {
    if n == 0 {
      ZeroBit(i);
    } else if i > 0 {
      assert (Pow2(n) - 1) / 2 == Pow2(n - 1) - 1;
      BitOfOnes(n - 1, i - 1);
    }
  }

  lemma {:induction false} BitOfMod(x: nat, w: nat, i: nat)
    ensures Bit(x % Pow2(w), i) == (i < w && Bit(x, i))
    decreases w
  {
    if w == 0 {
      ZeroBit(i);
    } else {
      HalfOfMod(x, Pow2(w - 1));
      if i > 0 {
        BitOfMod(x / 2, w - 1, i - 1);
      }
    }
  }

  lemma {:induction false} HalfOfMod(x: nat, m: nat)
    requires m > 0
    ensures x % (2 * m) / 2 == x / 2 % m && x % (2 * m) % 2 == x % 2
  {
    var h, b := x / 2, x % 2;
    var q, r := h / m, h % m;
    assert h == q * m + r;
    assert x == q * (2 * m) + (2 * r + b);
    DivModUnique(x, 2 * m, q, 2 * r + b);
  }

  lemma {:induction false} DivModUnique(x: nat, m: nat, q: nat, r: nat)
    requires m > 0 && r < m && x == q * m + r
    ensures x / m == q && x % m == r
  {
    DivMod(x, m);
    var q' := x / m;
    if q < q' {
      MulMono(q + 1, q', m);
    } else if q' < q {
      MulMono(q' + 1, q, m);
    }
  }

  lemma DivMod(x: nat, m: nat)
    requires m > 0
    ensures x == x / m * m + x % m && x % m < m
  {
  }

  lemma MulMono(a: nat, b: nat, m: nat)
    requires a <= b
    ensures a * m <= b * m
  {
  }

  lemma {:induction false} TwiceTimes(x: nat, p: nat)
    ensures (2 * x) * p == 2 * (x * p)
  {
  }

  lemma {:induction false} TimesTwice(x: nat, p: nat)
    ensures x * (2 * p) == 2 * (x * p)
  {
  }

  lemma {:induction false} BitOfTwice(y: nat, i: nat)
    ensures Bit(2 * y, i) == (i > 0 && Bit(y, i - 1))
  {
  }

  lemma {:induction false} BitOfTimesPow2(x: nat, k: nat, i: nat)
    ensures Bit(x * Pow2(k), i) == (k <= i && Bit(x, i - k))
    decreases k
  {
    hide Bit;
    if k > 0 {
      TimesTwice(x, Pow2(k - 1));
      BitOfTwice(x * Pow2(k - 1), i);
      if i > 0 {
        BitOfTimesPow2(x, k - 1, i - 1);
      }
    }
  }

  lemma BitOfShl(x: nat, k: nat, w: nat, i: nat)
    ensures Bit(Shl(x, k, w), i) == (k <= i < w && Bit(x, i - k))
  {
    BitOfMod(x * Pow2(k), w, i);
    BitOfTimesPow2(x, k, i);
  }

  lemma {:induction false} BitOfShr(x: nat, k: nat, i: nat)
    ensures Bit(Shr(x, k), i) == Bit(x, i + k)
    decreases k
  {
    if x == 0 {
      ZeroBit(i);
      ZeroBit(i + k);
    } else if k > 0 {
      BitOfShr(x / 2, k - 1, i);
    }
  }

  /** Results stay inside the word */

  lemma {:induction false} OrBound(x: nat, y: nat, w: nat)
    requires x < Pow2(w) && y < Pow2(w)
    ensures Or(x, y) < Pow2(w)
    ensures x <= Or(x, y)
    decreases w
  {
    if x != 0 && y != 0 {
      OrBound(x / 2, y / 2, w - 1);
    }
  }

  lemma {:induction false} AndBound(x: nat, y: nat)
    ensures And(x, y) <= x && And(x, y) <= y
    decreases x
  {
    if x != 0 && y != 0 {
      AndBound(x / 2, y / 2);
    }
  }

  lemma {:induction false} ShrBound(x: nat, k: nat)
    ensures Shr(x, k) <= x
    decreases k
  {
    if x > 0 && k > 0 {
      ShrBound(x / 2, k - 1);
    }
  }

  // x shifted left where nothing is shifted out.
  function Doubled(x: nat, k: nat): nat
    decreases k
  {
    if k == 0 then x else Doubled(2 * x, k - 1)
  }

  lemma {:induction false} DoubledIsTimes(x: nat, k: nat)
    ensures Doubled(x, k) == x * Pow2(k)
    decreases k
  {
    if k > 0 {
      DoubledIsTimes(2 * x, k - 1);
      TimesTwice(x, Pow2(k - 1));
      TwiceTimes(x, Pow2(k - 1));
    }
  }

  /** Masks by a power of two, which the sources use for a remainder */

  lemma {:induction false} AndMaskIsMod(x: nat, k: nat)
    ensures And(x, Pow2(k) - 1) == x % Pow2(k)
  {
    AndBound(x, Pow2(k) - 1);
    forall i: nat | i < k
      ensures Bit(And(x, Pow2(k) - 1), i) == Bit(x % Pow2(k), i)
    {
      BitOfAnd(x, Pow2(k) - 1, i);
      BitOfOnes(k, i);
      BitOfMod(x, k, i);
    }
    SameBitsSameWord(And(x, Pow2(k) - 1), x % Pow2(k), k);
  }

  ghost predicate IsPow2(n: nat) {
    exists k: nat :: Pow2(k) == n
  }

  lemma AndMask(x: nat, n: nat)
    requires IsPow2(n)
    ensures n > 0 && And(x, n - 1) == x % n
  {
    var k: nat :| Pow2(k) == n;
    AndMaskIsMod(x, k);
  }

  /** What the power-of-two functions are for */

  ghost predicate LeastPow2AtLeast(r: nat, x: nat) {
    IsPow2(r) && x <= r && forall k: nat :: x <= Pow2(k) ==> r <= Pow2(k)
  }

  // r is the least power of two at or above x up to half the range, and 0 for 0 and above.
  ghost predicate AlignsUpTo(r: nat, x: nat, half: nat) {
    && (1 <= x <= half ==> LeastPow2AtLeast(r, x))
    && (r == 0 <==> x == 0 || x > half)
  }

  ghost predicate GreatestPow2AtMost(r: nat, x: nat) {
    IsPow2(r) && r <= x && forall k: nat :: Pow2(k) <= x ==> Pow2(k) <= r
  }

  ghost predicate LeastExponent(k: nat, v: nat) {
    v <= Pow2(k) && forall j: nat :: v <= Pow2(j) ==> k <= j
  }

  // `(i + 1) & (n - 1)` steps round a cycle whose length n is a power of two.
  function NextIndex(i: nat, n: nat): nat {
    if i + 1 < n then i + 1 else 0
  }

  lemma {:induction false} NextIndexMask(i: nat, n: nat)
    requires IsPow2(n) && i < n
    ensures And(i + 1, n - 1) == NextIndex(i, n)
  {
    AndMask(i + 1, n);
    if i + 1 < n {
      DivModUnique(i + 1, n, 0, i + 1);
    } else {
      DivModUnique(n, n, 1, 0);
    }
  }

  /** Remainders */

  lemma {:induction false} ModNext(x: nat, m: nat)
    requires m > 0
    ensures x % m < m && (x + 1) % m == NextIndex(x % m, m)
  {
    DivMod(x, m);
    ModNextFrom(x, m, x / m, x % m);
  }

  lemma {:induction false} ModNextFrom(x: nat, m: nat, q: nat, r: nat)
    requires r < m && x == q * m + r
    ensures (x + 1) % m == NextIndex(r, m)
  {
    if r + 1 < m {
      DivModUnique(x + 1, m, q, r + 1);
    } else {
      assert (q + 1) * m == q * m + m;
      DivModUnique(x + 1, m, q + 1, 0);
    }
  }

  lemma {:induction false} NextIndexIsMod(i: nat, n: nat)
    requires i < n
    ensures NextIndex(i, n) == (i + 1) % n
  {
    ModNextFrom(i, n, 0, i);
  }

  // A multiple of m less y, for 0 < y <= m.
  lemma {:induction false} ModOfMultipleLess(t: nat, y: nat, m: nat)
    requires 0 < y <= m && t >= m && t / m * m == t
    ensures (t - y) % m == m - y
  {
    var q := t / m;
    MulMono(1, q, m);
    assert (q - 1) * m == q * m - m;
    DivModUnique(t - y, m, q - 1, m - y);
  }

  /** __builtin_ctz: the position of the lowest set bit */

  function LowestFrom(x: nat, k: nat, w: nat): (r: nat)
    requires k <= w
    ensures k <= r <= w
    ensures forall i: nat :: k <= i < r ==> !Bit(x, i)
    ensures r < w ==> Bit(x, r)
    decreases x, w - k
  {
    if k == w || Bit(x, k) then k else LowestFrom(x, k + 1, w)
  }

  function Ctz(x: nat, w: nat): (r: nat)
    requires 0 < x < Pow2(w)
    ensures r < w && Bit(x, r)
    ensures forall i: nat :: i < r ==> !Bit(x, i)
  {
    SomeBitSet(x, w);
    LowestFrom(x, 0, w)
  }

  /** 64-bit words */

  lemma Below64(o: nat)
    requires o < 64
    ensures Pow2(o) < TWO_64
  {
    Pow2Mono(o + 1, 64);
    Pow2Values();
  }

  lemma Or64Bound(x: u64, y: u64)
    ensures x <= Or(x, y) < TWO_64
  {
    U64Bound(x);
    U64Bound(y);
    Pow2Values();
    OrBound(x, y, 64);
  }

  // C's `1llu << o`.
  function One64(o: nat): u64
    requires o < 64
  {
    Below64(o);
    Pow2(o)
  }

  function Or64(x: u64, y: u64): u64 {
    Or64Bound(x, y);
    Or(x, y)
  }

  function And64(x: u64, y: u64): u64 {
    AndBound(x, y);
    And(x, y)
  }

  function Not64(x: u64): u64 {
    TWO_64 - 1 - x
  }

  function Shl64(x: u64, k: nat): u64 {
    x * Pow2(k) % TWO_64
  }

  lemma BitOfNot64(x: u64, i: nat)
    requires i < 64
    ensures Bit(Not64(x), i) == !Bit(x, i)
  {
    Pow2Values();
    BitOfNot(x, 64, i);
  }

  lemma BitOfShl64(x: u64, k: nat, i: nat)
    requires i < 64
    ensures Bit(Shl64(x, k), i) == (k <= i && Bit(x, i - k))
  {
    Pow2Values();
    BitOfShl(x, k, 64, i);
  }

  lemma SomeBitSet64(x: u64)
    ensures x != 0 <==> exists i: nat :: i < 64 && Bit(x, i)
  {
    if x != 0 {
      U64Bound(x);
      SomeBitSet(x, 64);
    } else {
      forall i: nat
        ensures !Bit(0, i)
      {
        ZeroBit(i);
      }
    }
  }

  function Ctz64(x: u64): (r: nat)
    requires x != 0
    ensures r < 64 && Bit(x, r)
    ensures forall i: nat :: i < r ==> !Bit(x, i)
  {
    SomeBitSet64(x);
    LowestFrom(x, 0, 64)
  }
}
