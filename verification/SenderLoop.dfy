/**
 One iteration of the loop of main_pkt_send.cpp as one core runs it, over its array of buffers: fill it
 from the pool, hand it to the driver, give back what the driver did not take.
 */
module SenderLoop {
  import opened Common
  import opened Words
  import opened Sender

  function Elems(s: seq<Buf>): set<Buf> {
    set b | b in s
  }

  predicate Different(s: seq<Buf>) {
    forall i: nat, j: nat :: i < j < |s| ==> s[i] != s[j]
  }

  lemma {:induction false} ElemsOf(s: seq<Buf>)
    requires Different(s)
    ensures |Elems(s)| == |s|
    decreases |s|
  {
    if s != [] {
      var m := |s| - 1;
      ElemsOf(s[..m]);
      assert s == s[..m] + [s[m]];
      assert Elems(s) == Elems(s[..m]) + {s[m]};
      assert s[m] !in s[..m];
    }
  }

  lemma {:induction false} SplitElems(s: seq<Buf>, n: nat)
    requires Different(s) && n <= |s|
    ensures Elems(s) == Elems(s[..n]) + Elems(s[n..]) && Elems(s[..n]) !! Elems(s[n..])
    ensures |Elems(s[..n])| == n
  {
    ElemsOf(s[..n]);
    assert s == s[..n] + s[n..];
  }

  // Taking all of s from the pool and giving back s[n..] leaves s[..n] taken.
  lemma {:induction false} GiveBack(p: set<Buf>, s: seq<Buf>, n: nat)
    requires Different(s) && n <= |s| && Elems(s) <= p
    ensures (p - Elems(s)) + Elems(s[n..]) == p - Elems(s[..n]) && Elems(s[..n]) <= p
    ensures |Elems(s[..n])| == n
  {
    SplitElems(s, n);
  }

  lemma {:induction false} NoElems(s: seq<Buf>)
    requires |s| == 0
    ensures Elems(s) == {}
  {
  }

  lemma {:induction false} HasElement(s: set<Buf>)
    requires s != {}
    ensures exists b :: b in s
  {
    assert (forall b :: b !in s) ==> s == {};
  }

  class SendCore {
    var pool: set<Buf>
    var driver: set<Buf>
    const bufs: array<Buf>
    var total: u32
    var bursts: u32
    // How many allocations have failed.
    ghost var refused: nat

    constructor (p: set<Buf>)
      ensures pool == p && driver == {} && bufs.Length == BURST_SIZE && total == 0 && bursts == 0 && refused == 0
    {
      pool, driver, total, bursts, refused := p, {}, 0, 0, 0;
      bufs := new Buf[BURST_SIZE](_ => 0);
    }

    // Any buffer of the pool, or none.
    method Alloc() returns (b: Option<Buf>)
      modifies this`pool, this`refused
      ensures b.None? ==> pool == old(pool) && refused == old(refused) + 1
      ensures b.Some? ==> b.value in old(pool) && pool == old(pool) - {b.value} && refused == old(refused)
    {
      var fails: bool := *;
      if fails || pool == {} {
        refused := refused + 1;
        return None;
      }
      HasElement(pool);
      var x :| x in pool;
      pool := pool - {x};
      return Some(x);
    }

    // The driver takes any number of the buffers, from the front.
    method TxBurst() returns (nbTx: nat)
      modifies this`driver
      ensures nbTx <= bufs.Length && driver == old(driver) + Elems(bufs[..nbTx])
    {
      nbTx :| nbTx <= bufs.Length;
      driver := driver + Elems(bufs[..nbTx]);
    }

    // Fills the array, or stops at the first failed allocation, and only there, with `got` buffers in hand.
    method Fill() returns (got: nat)
      modifies this`pool, this`refused, bufs
      ensures refused == old(refused) + if got < bufs.Length then 1 else 0
      ensures got <= bufs.Length && Different(bufs[..got])
      ensures Elems(bufs[..got]) <= old(pool) && pool == old(pool) - Elems(bufs[..got])
    {
      got := 0;
      while got < bufs.Length
        invariant got <= bufs.Length && Different(bufs[..got]) && refused == old(refused)
        invariant Elems(bufs[..got]) <= old(pool) && pool == old(pool) - Elems(bufs[..got])
      {
        ghost var s := bufs[..got];
        var b := Alloc();
        if b.None? {
          return;
        }
        bufs[got] := b.value;
        got := got + 1;
        assert bufs[..got] == s + [b.value];
      }
    }

    method FreeFrom(nbTx: nat)
      requires nbTx <= bufs.Length
      modifies this`pool
      ensures pool == old(pool) + Elems(bufs[nbTx..])
    {
      var i := nbTx;
      while i < bufs.Length
        invariant nbTx <= i <= bufs.Length && pool == old(pool) + Elems(bufs[nbTx..i])
      {
        assert bufs[nbTx..i + 1] == bufs[nbTx..i] + [bufs[i]];
        pool := pool + {bufs[i]};
        i := i + 1;
      }
    }

    // Returns 0 when the iteration finished: the buffers sent are the driver's, all others are back in
    // the pool. Returns -1 on a failed allocation: `got` buffers, fewer than a burst, are in neither.
    method Iteration() returns (ret: int, got: nat, nbTx: nat)
      requires pool !! driver && bufs.Length == BURST_SIZE
      modifies this`pool, this`refused, this`driver, this`total, this`bursts, bufs
      ensures got <= bufs.Length && nbTx <= got && pool !! driver
      ensures ret == if got < BURST_SIZE then -1 else 0
      ensures refused == old(refused) + if ret == -1 then 1 else 0
      ensures ret == -1 ==>
        && Elems(bufs[..got]) <= old(pool) && |Elems(bufs[..got])| == got
        && pool == old(pool) - Elems(bufs[..got]) && driver == old(driver)
        && total == old(total) && bursts == old(bursts)
      ensures ret == 0 ==>
        && Elems(bufs[..nbTx]) <= old(pool) && |Elems(bufs[..nbTx])| == nbTx
        && pool == old(pool) - Elems(bufs[..nbTx]) && driver == old(driver) + Elems(bufs[..nbTx])
        && total == Plus32(old(total), nbTx) && bursts == Plus32(old(bursts), 1)
    {
      hide Plus32, Different, Elems;
      got := Fill();
      ElemsOf(bufs[..got]);
      if got < bufs.Length {
        return -1, got, 0;
      }
      assert bufs[..got] == bufs[..];
      nbTx := TxBurst();
      GiveBack(old(pool), bufs[..], nbTx);
      assert bufs[..][..nbTx] == bufs[..nbTx] && bufs[..][nbTx..] == bufs[nbTx..];
      if nbTx < BURST_SIZE {
        FreeFrom(nbTx);
      } else {
        NoElems(bufs[nbTx..]);
      }
      total := Plus32(total, nbTx);
      bursts := Plus32(bursts, 1);
      return 0, got, nbTx;
    }
  }
}
