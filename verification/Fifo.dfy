/**
 The ring of include/rte_avp_fifo.h used by one thread: a bounded queue held in a power-of-two buffer
 with one slot always free.
 */
module Fifo {
  import opened Words
  import opened Common

  /** The queue a buffer and its two positions stand for */

  function Used(r: nat, w: nat, len: nat): nat
    requires r < len && w < len
  {
    if r <= w then w - r else w + len - r
  }

  function Slot(r: nat, k: nat, len: nat): nat
    requires r < len && k < len
  {
    if r + k < len then r + k else r + k - len
  }

  function Queue<T>(b: seq<T>, r: nat, w: nat, len: nat): (q: seq<T>)
    requires r < len <= |b| && w < len
    ensures |q| == Used(r, w, len)
  {
    seq(Used(r, w, len), k requires 0 <= k < Used(r, w, len) => b[Slot(r, k, len)])
  }

  lemma {:induction false} PutOne<T>(b: seq<T>, r: nat, w: nat, len: nat, x: T)
    requires r < len <= |b| && w < len && NextIndex(w, len) != r
    ensures Queue(b[w := x], r, NextIndex(w, len), len) == Queue(b, r, w, len) + [x]
  {
    var q := Queue(b[w := x], r, NextIndex(w, len), len);
    var p := Queue(b, r, w, len) + [x];
    forall k | 0 <= k < |q|
      ensures q[k] == p[k]
    {
    }
  }

  lemma {:induction false} GetOne<T>(b: seq<T>, r: nat, w: nat, len: nat)
    requires r < len <= |b| && w < len && r != w
    ensures Queue(b, r, w, len) == [b[r]] + Queue(b, NextIndex(r, len), w, len)
  {
    var q := Queue(b, r, w, len);
    var p := [b[r]] + Queue(b, NextIndex(r, len), w, len);
    forall k | 0 <= k < |q|
      ensures q[k] == p[k]
    {
    }
  }

  /** The counts, in unsigned 32-bit arithmetic */

  function Count(len: u32, write: u32, read: u32): u32
    requires len > 0
  {
    AndBound(Minus32(Plus32(len, write), read), len - 1);
    And(Minus32(Plus32(len, write), read), len - 1)
  }

  function FreeCount(len: u32, write: u32, read: u32): u32
    requires len > 0
  {
    AndBound(Minus32(Minus32(read, write), 1), len - 1);
    And(Minus32(Minus32(read, write), 1), len - 1)
  }

  lemma {:induction false} Pow2Plus(a: nat, b: nat)
    ensures Pow2(a + b) == Pow2(a) * Pow2(b)
    decreases b
  {
    if b > 0 {
      Pow2Plus(a, b - 1);
      assert Pow2(a + b) == 2 * Pow2(a + (b - 1));
    }
  }

  // 2^32 is a multiple of every 32-bit power of two, and those are at most 2^31.
  lemma {:induction false} Pow2Divides(len: u32)
    requires IsPow2(len)
    ensures 0 < len <= 0x8000_0000 && TWO_32 / len * len == TWO_32
  {
    var k: nat :| Pow2(k) == len;
    Pow2Values();
    if k >= 32 {
      Pow2Mono(32, k);
    }
    Pow2Mono(k, 31);
    Pow2Plus(32 - k, k);
    DivModUnique(TWO_32, len, Pow2(32 - k), 0);
  }

  lemma {:induction false} CountIsUsed(len: u32, write: u32, read: u32)
    requires IsPow2(len) && write < len && read < len
    ensures Count(len, write, read) == Used(read, write, len)
  {
    Pow2Divides(len);
    var x := len + write - read;
    assert Minus32(Plus32(len, write), read) == x;
    AndMask(x, len);
    if x < len {
      DivModUnique(x, len, 0, x);
    } else {
      DivModUnique(x, len, 1, x - len);
    }
  }

  lemma {:induction false} FreeCountRaw(len: u32, write: u32, read: u32)
    requires write < len && read < len
    ensures Minus32(Minus32(read, write), 1) ==
      if write < read then read - write - 1 else TWO_32 - (write - read + 1)
  {
  }

  lemma {:induction false} RawIsRest(len: u32, write: u32, read: u32)
    requires IsPow2(len) && write < len && read < len
    ensures (if write < read then read - write - 1 else TWO_32 - (write - read + 1)) % len
      == len - 1 - Used(read, write, len)
  {
    if write < read {
      DivModUnique(read - write - 1, len, 0, read - write - 1);
    } else {
      Pow2Divides(len);
      ModOfMultipleLess(TWO_32, write - read + 1, len);
    }
  }

  lemma {:induction false} FreeCountIsRest(len: u32, write: u32, read: u32)
    requires IsPow2(len) && write < len && read < len
    ensures FreeCount(len, write, read) == len - 1 - Used(read, write, len)
  {
    FreeCountRaw(len, write, read);
    RawIsRest(len, write, read);
    AndMask(Minus32(Minus32(read, write), 1), len);
  }

  // The sizes initialisation lets through are the powers of two and, since 0 - 1 wraps, also 0.
  predicate InitAccepts(size: u32) {
    And(size, Minus32(size, 1)) == 0
  }

  lemma {:induction false} InitAcceptsExactly(size: u32)
    ensures InitAccepts(size) <==> size == 0 || IsPow2(size)
  {
    if size > 0 {
      assert Minus32(size, 1) == size - 1;
      IsPowerOf2Exact(size);
    }
  }

  lemma {:induction false} StoreNext<T>(q: seq<T>, d: seq<T>, i: nat)
    requires i < |q| && i < |d|
    ensures (q[..i] + d[i..])[i := q[i]] == q[..i + 1] + d[i + 1..]
  {
  }

  class AvpFifo<T> {
    var write: u32
    var read: u32
    var len: u32
    const buffer: array<T>

    ghost predicate Valid()
      reads this, buffer
    {
      IsPow2(len) && len <= buffer.Length && write < len && read < len
    }

    ghost function Contents(): seq<T>
      reads this, buffer
      requires Valid()
    {
      Queue(buffer[..], read, write, len)
    }

    constructor (memory: array<T>)
      ensures buffer == memory
    {
      buffer := memory;
      write, read, len := 0, 0, 0;
    }

    // A size that is refused makes the source panic.
    method Init(size: u32) returns (ok: bool)
      requires size <= buffer.Length
      modifies this
      ensures ok <==> size == 0 || IsPow2(size)
      ensures if ok then write == 0 && read == 0 && len == size else unchanged(this)
      ensures ok && size != 0 ==> Valid() && Contents() == []
    {
      InitAcceptsExactly(size);
      if And(size, Minus32(size, 1)) != 0 {
        return false;
      }
      write := 0;
      read := 0;
      len := size;
      return true;
    }

    method Put(data: seq<T>, num: u32) returns (n: u32)
      requires Valid() && num <= |data|
      modifies this`write, buffer
      ensures Valid() && len == old(len) && read == old(read)
      ensures n == Min(num, old(len - 1 - |Contents()|))
      ensures Contents() == old(Contents()) + data[..n]
    {
      hide And, IsPow2;
      var fifoWrite: u32 := write;
      var fifoRead := read;
      var newWrite: u32 := fifoWrite;
      var i: u32 := 0;
      ghost var q := Contents();
      while i < num
        invariant i <= num && fifoWrite < len && newWrite == fifoWrite
        invariant |q| + i < len
        invariant Queue(buffer[..], read, fifoWrite, len) == q + data[..i]
      {
        NextIndexMask(newWrite, len);
        newWrite := And(newWrite + 1, len - 1);
        if newWrite == fifoRead {
          break;
        }
        PutOne(buffer[..], read, fifoWrite, len, data[i]);
        buffer[fifoWrite] := data[i];
        fifoWrite := newWrite;
        assert data[..i + 1] == data[..i] + [data[i]];
        i := i + 1;
      }
      write := fifoWrite;
      n := i;
    }

    method Get(data: array<T>, num: u32) returns (n: u32)
      requires Valid() && num <= data.Length && data != buffer
      modifies this`read, data
      ensures Valid() && len == old(len) && write == old(write)
      ensures n == Min(num, |old(Contents())|)
      ensures data[..] == old(Contents())[..n] + old(data[..])[n..]
      ensures Contents() == old(Contents())[n..]
    {
      hide And, IsPow2;
      var newRead: u32 := read;
      var fifoWrite: u32 := write;
      ghost var q, d := Contents(), data[..];
      if newRead == fifoWrite {
        assert q[..0] + d[0..] == d;
        return 0;
      }
      var i: u32 := 0;
      while i < num
        invariant i <= num && i <= |q| && newRead < len
        invariant Queue(buffer[..], newRead, write, len) == q[i..]
        invariant data[..] == q[..i] + d[i..]
      {
        if newRead == fifoWrite {
          break;
        }
        NextIndexMask(newRead, len);
        GetOne(buffer[..], newRead, write, len);
        assert q[i..][0] == buffer[newRead] && q[i..][1..] == q[i + 1..];
        ghost var before := data[..];
        data[i] := buffer[newRead];
        assert data[..] == before[i := q[i]];
        StoreNext(q, d, i);
        newRead := And(newRead + 1, len - 1);
        i := i + 1;
      }
      read := newRead;
      n := i;
    }

    method CountOf() returns (n: u32)
      requires Valid()
      ensures n == |Contents()|
    {
      CountIsUsed(len, write, read);
      n := Count(len, write, read);
    }

    method FreeCountOf() returns (n: u32)
      requires Valid()
      ensures |Contents()| + n == len - 1
    {
      FreeCountIsRest(len, write, read);
      n := FreeCount(len, write, read);
    }
  }
}
