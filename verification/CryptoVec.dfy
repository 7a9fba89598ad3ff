/**
 Turning a portion of a chained packet buffer into an array of (base, length) vectors,
 include/rte_crypto_sym.h.
 */
module CryptoVec {
  import opened Common
  import opened Words

  // A packet: its segments' data, linked as the buffers are.
  datatype Chain = End | Seg(data: seq<byte>, next: Chain)

  // base is an offset into the data of one segment.
  datatype Vec = Vec(seg: nat, off: nat, len: nat)

  function Segments(c: Chain): nat {
    match c
    case End => 0
    case Seg(_, next) => 1 + Segments(next)
  }

  function Packet(c: Chain): seq<byte> {
    match c
    case End => []
    case Seg(data, next) => data + Packet(next)
  }

  function Size(c: Chain): nat {
    match c
    case End => 0
    case Seg(data, next) => |data| + Size(next)
  }

  lemma {:induction false} PacketSize(c: Chain)
    ensures |Packet(c)| == Size(c)
    decreases c
  {
    if c.Seg? {
      PacketSize(c.next);
    }
  }

  // The data of segment k.
  function DataOf(c: Chain, k: nat): seq<byte>
    requires k < Segments(c)
  {
    if k == 0 then c.data else DataOf(c.next, k - 1)
  }

  // How much the first k segments hold.
  function FirstBytes(c: Chain, k: nat): nat
    requires k <= Segments(c)
  {
    if k == 0 then 0 else |c.data| + FirstBytes(c.next, k - 1)
  }

  // n is the least positive number of segments that together hold `want` bytes, or all segments if even
  // those do not.
  predicate Fewest(c: Chain, want: nat, n: nat) {
    && 1 <= n <= Segments(c)
    && (forall k: nat :: 1 <= k < n ==> FirstBytes(c, k) < want)
    && (want <= FirstBytes(c, n) || n == Segments(c))
  }

  // A vector points into its segment.
  predicate Inside(c: Chain, v: Vec) {
    v.seg < Segments(c) && v.off + v.len <= |DataOf(c, v.seg)|
  }

  predicate ToTheEnd(c: Chain, v: Vec) {
    v.seg < Segments(c) && v.off + v.len == |DataOf(c, v.seg)|
  }

  predicate AllInside(c: Chain, vs: seq<Vec>) {
    forall k :: 0 <= k < |vs| ==> Inside(c, vs[k])
  }

  // The bytes that vectors describe, in order.
  function Gather(c: Chain, vs: seq<Vec>): seq<byte>
    requires AllInside(c, vs)
  {
    if vs == [] then []
    else
      assert Inside(c, vs[0]);
      var v := vs[0];
      DataOf(c, v.seg)[v.off..v.off + v.len] + Gather(c, vs[1..])
  }

  // What the walk writes for the segments of `rest`, the first of them being number i.
  function Walk(rest: Chain, i: nat, left: nat): seq<Vec> {
    match rest
    case End => []
    case Seg(data, next) =>
      if left <= |data| then [Vec(i, 0, left)]
      else [Vec(i, 0, |data|)] + Walk(next, i + 1, left - |data|)
  }

  function Pieces(mb: Chain, ofs: nat, len: nat): seq<Vec>
    requires mb.Seg? && ofs < |mb.data|
  {
    var room := |mb.data| - ofs;
    if len <= room then [Vec(0, ofs, len)]
    else [Vec(0, ofs, room)] + Walk(mb.next, 1, len - room)
  }

  // `rest` is what follows the first i segments of c.
  predicate IsTail(c: Chain, i: nat, rest: Chain) {
    if i == 0 then rest == c else c.Seg? && IsTail(c.next, i - 1, rest)
  }

  lemma {:induction false} TailData(c: Chain, i: nat, rest: Chain)
    requires IsTail(c, i, rest) && rest.Seg?
    ensures i < Segments(c) && DataOf(c, i) == rest.data && IsTail(c, i + 1, rest.next)
  {
    if i > 0 {
      TailData(c.next, i - 1, rest);
    }
  }

  // One vector in front of others.
  lemma {:induction false} GatherOne(c: Chain, v: Vec, vs: seq<Vec>)
    requires Inside(c, v) && AllInside(c, vs)
    ensures AllInside(c, [v] + vs)
    ensures Gather(c, [v] + vs) == DataOf(c, v.seg)[v.off..v.off + v.len] + Gather(c, vs)
  {
    assert ([v] + vs)[1..] == vs;
  }

  // The walk writes one vector a segment, in order, for no more segments than there are, each from the start
  // of its segment and all but the last to its end.
  lemma {:induction false} WalkInOrder(c: Chain, rest: Chain, i: nat, left: nat)
    requires IsTail(c, i, rest)
    ensures AllInside(c, Walk(rest, i, left)) && |Walk(rest, i, left)| <= Segments(rest)
    ensures forall k :: 0 <= k < |Walk(rest, i, left)| ==>
      Walk(rest, i, left)[k].seg == i + k && Walk(rest, i, left)[k].off == 0
    ensures forall k :: 0 <= k < |Walk(rest, i, left)| - 1 ==> ToTheEnd(c, Walk(rest, i, left)[k])
    decreases rest
  {
    if rest.Seg? {
      TailData(c, i, rest);
      if left > |rest.data| {
        WalkInOrder(c, rest.next, i + 1, left - |rest.data|);
      }
    }
  }

  lemma {:induction false} TakeOfConcat(a: seq<byte>, b: seq<byte>, n: nat)
    requires n <= |a| + |b|
    ensures (a + b)[..n] == if n <= |a| then a[..n] else a + b[..n - |a|]
  {
  }

  // The walk describes the next `left` bytes, or all there are.
  lemma {:induction false} WalkGathers(c: Chain, rest: Chain, i: nat, left: nat)
    requires IsTail(c, i, rest) && AllInside(c, Walk(rest, i, left))
    ensures Gather(c, Walk(rest, i, left)) == Packet(rest)[..Min(left, |Packet(rest)|)]
    decreases rest
  {
    if rest.Seg? {
      var data, next := rest.data, rest.next;
      TailData(c, i, rest);
      TakeOfConcat(data, Packet(next), Min(left, |Packet(rest)|));
      if left <= |data| {
        GatherOne(c, Vec(i, 0, left), []);
        assert [Vec(i, 0, left)] + [] == Walk(rest, i, left);
      } else {
        var vs := Walk(next, i + 1, left - |data|);
        WalkInOrder(c, next, i + 1, left - |data|);
        WalkGathers(c, next, i + 1, left - |data|);
        GatherOne(c, Vec(i, 0, |data|), vs);
        assert data[0..|data|] == data;
      }
    }
  }

  // The vectors are in segment order, one a segment, and inside the segments' data. The first starts at ofs
  // and the others at the start of their segment, and all but the last reach to its end.
  lemma {:induction false} PiecesInOrder(mb: Chain, ofs: nat, len: nat)
    requires mb.Seg? && ofs < |mb.data|
    ensures AllInside(mb, Pieces(mb, ofs, len))
    ensures 1 <= |Pieces(mb, ofs, len)| <= Segments(mb)
    ensures forall k :: 0 <= k < |Pieces(mb, ofs, len)| ==>
      Pieces(mb, ofs, len)[k].seg == k && Pieces(mb, ofs, len)[k].off == if k == 0 then ofs else 0
    ensures forall k :: 0 <= k < |Pieces(mb, ofs, len)| - 1 ==> ToTheEnd(mb, Pieces(mb, ofs, len)[k])
  {
    var room := |mb.data| - ofs;
    if len > room {
      assert IsTail(mb, 1, mb.next);
      WalkInOrder(mb, mb.next, 1, len - room);
    }
  }

  lemma {:induction false} SliceOfConcat(a: seq<byte>, b: seq<byte>, ofs: nat, n: nat)
    requires ofs <= |a| && n <= |b|
    ensures (a + b)[ofs..|a| + n] == a[ofs..|a|] + b[..n]
  {
  }

  lemma {:induction false} FirstPieceOnly(mb: Chain, ofs: nat, len: nat)
    requires mb.Seg? && ofs < |mb.data| && len <= |mb.data| - ofs
    ensures AllInside(mb, [Vec(0, ofs, len)])
    ensures ofs + len <= |Packet(mb)| && Gather(mb, [Vec(0, ofs, len)]) == Packet(mb)[ofs..ofs + len]
  {
    GatherOne(mb, Vec(0, ofs, len), []);
    assert [Vec(0, ofs, len)] + [] == [Vec(0, ofs, len)];
    assert mb.data[ofs..ofs + len] == Packet(mb)[ofs..ofs + len];
  }

  lemma {:induction false} FirstAndMore(mb: Chain, ofs: nat, left: nat)
    requires mb.Seg? && ofs < |mb.data|
    ensures var vs := [Vec(0, ofs, |mb.data| - ofs)] + Walk(mb.next, 1, left);
            && AllInside(mb, vs)
            && Gather(mb, vs)
               == mb.data[ofs..|mb.data|] + Packet(mb.next)[..Min(left, |Packet(mb.next)|)]
  {
    hide Walk;
    assert IsTail(mb, 1, mb.next);
    WalkInOrder(mb, mb.next, 1, left);
    WalkGathers(mb, mb.next, 1, left);
    GatherOne(mb, Vec(0, ofs, |mb.data| - ofs), Walk(mb.next, 1, left));
  }

  // The vectors describe exactly the packet's bytes from ofs on: len of them, or as many as there are.
  lemma {:induction false} PiecesGather(mb: Chain, ofs: nat, len: nat)
    requires mb.Seg? && ofs < |mb.data|
    ensures ofs <= |Packet(mb)| && AllInside(mb, Pieces(mb, ofs, len))
    ensures Gather(mb, Pieces(mb, ofs, len)) == Packet(mb)[ofs..Min(ofs + len, |Packet(mb)|)]
  {
    hide Walk, Gather, AllInside, Inside;
    var room := |mb.data| - ofs;
    if len <= room {
      FirstPieceOnly(mb, ofs, len);
    } else {
      FirstAndMore(mb, ofs, len - room);
      SliceOfConcat(mb.data, Packet(mb.next), ofs, Min(len - room, |Packet(mb.next)|));
    }
  }

  lemma {:induction false} FewestOfNext(c: Chain, want: nat, n: nat)
    requires c.Seg? && want > |c.data|
    requires if c.next.Seg? then Fewest(c.next, want - |c.data|, n) else n == 0
    ensures Fewest(c, want, n + 1)
  {
    forall k: nat | 1 <= k < n + 1
      ensures FirstBytes(c, k) < want
    {
      assert k > 1 ==> FirstBytes(c.next, k - 1) < want - |c.data|;
    }
  }

  // It writes no more vectors than the bytes wanted need.
  lemma {:induction false} WalkCount(rest: Chain, i: nat, left: nat)
    requires left > 0
    ensures |Walk(rest, i, left)| <= Segments(rest)
    ensures rest.Seg? ==> Fewest(rest, left, |Walk(rest, i, left)|)
    decreases rest
  {
    if rest.Seg? {
      if left <= |rest.data| {
        assert FirstBytes(rest, 1) == |rest.data|;
      } else {
        WalkCount(rest.next, i + 1, left - |rest.data|);
        FewestOfNext(rest, left, |Walk(rest.next, i + 1, left - |rest.data|)|);
      }
    }
  }

  // The vectors are as few as hold the bytes up to ofs + len: the least positive number of segments that do,
  // or all of them.
  lemma {:induction false} PiecesCount(mb: Chain, ofs: nat, len: nat)
    requires mb.Seg? && ofs < |mb.data|
    ensures Fewest(mb, ofs + len, |Pieces(mb, ofs, len)|)
  {
    var room := |mb.data| - ofs;
    if len <= room {
      assert FirstBytes(mb, 1) == |mb.data|;
    } else {
      WalkCount(mb.next, 1, len - room);
      FewestOfNext(mb, ofs + len, |Walk(mb.next, 1, len - room)|);
    }
  }

  // s ends with `rest`, from position k on.
  ghost predicate IsRest(s: seq<Vec>, k: nat, rest: seq<Vec>) {
    k <= |s| && s[k..] == rest
  }

  lemma WholeIsRest(s: seq<Vec>)
    ensures IsRest(s, 0, s)
  {
  }

  lemma NoRest(s: seq<Vec>, k: nat)
    requires IsRest(s, k, [])
    ensures k == |s|
  {
  }

  lemma {:induction false} RestStarts(s: seq<Vec>, k: nat, rest: seq<Vec>)
    requires IsRest(s, k, rest) && rest != []
    ensures k < |s| && s[k] == rest[0] && IsRest(s, k + 1, rest[1..])
  {
  }

  // What is left of the walk at a segment: its vector, and then that of the segments behind or nothing.
  lemma {:induction false} WalkStep(want: seq<Vec>, k: nat, rest: Chain, i: nat, left: nat)
    requires IsRest(want, k, Walk(rest, i, left))
    ensures rest.End? ==> k == |want| && Segments(rest) == 0 && Size(rest) == 0
    ensures rest.Seg? ==>
      && Segments(rest) == 1 + Segments(rest.next) && Size(rest) == |rest.data| + Size(rest.next)
      && k < |want|
      && (if left <= |rest.data| then want[k] == Vec(i, 0, left) && k + 1 == |want|
          else want[k] == Vec(i, 0, |rest.data|)
               && IsRest(want, k + 1, Walk(rest.next, i + 1, left - |rest.data|)))
  {
    hide IsRest;
    if rest.End? {
      NoRest(want, k);
    } else {
      RestStarts(want, k, Walk(rest, i, left));
      if left <= |rest.data| {
        NoRest(want, k + 1);
      }
    }
  }

  // v is o with the first n of `want` stored from position `from` on.
  ghost predicate Filled(v: seq<Vec>, o: seq<Vec>, from: nat, want: seq<Vec>, n: nat) {
    && |v| == |o| && n <= |want| && from + n <= |v|
    && v[..from] == o[..from] && v[from..from + n] == want[..n] && v[from + n..] == o[from + n..]
  }

  lemma NothingFilled(v: seq<Vec>, from: nat, want: seq<Vec>)
    requires from <= |v|
    ensures Filled(v, v, from, want, 0)
  {
  }

  lemma {:induction false} FillOne(v: seq<Vec>, o: seq<Vec>, from: nat, want: seq<Vec>, n: nat, x: Vec)
    requires Filled(v, o, from, want, n) && n < |want| && x == want[n] && from + n < |v|
    ensures Filled(v[from + n := x], o, from, want, n + 1)
  {
    var w := v[from + n := x];
    assert w[from..from + n + 1] == v[from..from + n] + [x];
    assert w[from + n + 1..] == v[from + n..][1..] == o[from + n..][1..];
  }

  // The loop over the segments after the first.
  method FillRest(rest: Chain, from: nat, toFill: nat, vec: array<Vec>) returns (i: nat, left: nat)
    requires toFill > 0 && from + Segments(rest) <= vec.Length
    modifies vec
    ensures i == from + |Walk(rest, from, toFill)| <= vec.Length
    ensures if rest.Seg? then Fewest(rest, toFill, i - from) else i == from
    ensures Filled(vec[..], old(vec[..]), from, Walk(rest, from, toFill), i - from)
    ensures left == if toFill <= Size(rest) then 0 else toFill - Size(rest)
  {
    hide IsRest, Fewest, Walk, Segments, Size, Filled;
    ghost var o, want := vec[..], Walk(rest, from, toFill);
    WalkCount(rest, from, toFill);
    WholeIsRest(want);
    WalkStep(want, 0, rest, from, toFill);
    NothingFilled(o, from, want);
    left, i := toFill, from;
    var nseg := rest;
    while nseg.Seg?
      invariant from <= i <= from + |want| && i + Segments(nseg) <= vec.Length
      invariant left > 0 && toFill - Size(rest) == left - Size(nseg)
      invariant IsRest(want, i - from, Walk(nseg, i, left))
      invariant Filled(vec[..], o, from, want, i - from)
      decreases nseg
    {
      var seglen := |nseg.data|;
      WalkStep(want, i - from, nseg, i, left);
      FillOne(vec[..], o, from, want, i - from, want[i - from]);
      if left <= seglen {
        vec[i] := Vec(i, 0, left);
        left := 0;
        i := i + 1;
        break;
      }
      vec[i] := Vec(i, 0, seglen);
      left := left - seglen;
      nseg := nseg.next;
      i := i + 1;
    }
    if left > 0 {
      WalkStep(want, i - from, nseg, i, left);
    }
  }

  lemma {:induction false} Joined(v: seq<Vec>, o: seq<Vec>, first: Vec, rest: seq<Vec>)
    requires o != [] && Filled(v, o[0 := first], 1, rest, |rest|)
    ensures |v| == |o| > |rest| && v[..1 + |rest|] == [first] + rest && v[1 + |rest|..] == o[1 + |rest|..]
  {
    assert v[..1] == [first];
    assert v[..1 + |rest|] == v[..1] + v[1..1 + |rest|];
    assert v[1 + |rest|..] == o[0 := first][1 + |rest|..];
  }

  // Fills vec[..ret] and leaves the rest of vec alone; `complete` is the closing assertion of the source.
  method MbufToVec(mb: Chain, nbSegs: nat, ofs: u32, len: u32, vec: array<Vec>, num: u32)
    returns (ret: int, complete: bool)
    requires mb.Seg? && ofs < |mb.data| && nbSegs == Segments(mb)
    requires num <= vec.Length
    modifies vec
    ensures nbSegs > num ==> ret == 0 - nbSegs && vec[..] == old(vec[..])
    ensures nbSegs <= num ==>
      && 1 <= ret <= nbSegs && Fewest(mb, ofs + len, ret)
      && vec[..ret] == Pieces(mb, ofs, len) && vec[ret..] == old(vec[ret..])
      && (complete <==> ofs + len <= |Packet(mb)|)
  {
    hide Fewest, Filled, Inside;
    PiecesInOrder(mb, ofs, len);
    PiecesCount(mb, ofs, len);
    PacketSize(mb);
    if nbSegs > num {
      return 0 - nbSegs, true;
    }
    var seglen := |mb.data| - ofs;
    if len <= seglen {
      vec[0] := Vec(0, ofs, len);
      return 1, true;
    }
    vec[0] := Vec(0, ofs, seglen);
    var i, left := FillRest(mb.next, 1, len - seglen, vec);
    Joined(vec[..], old(vec[..]), Vec(0, ofs, seglen), Walk(mb.next, 1, len - seglen));
    return i, left == 0;
  }
}
