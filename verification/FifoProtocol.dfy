/**
 The ring of include/rte_avp_fifo.h shared by one producer and one consumer. Every access to shared
 memory is a step of its own: each side takes its own position and a snapshot of the other side's, which
 may grow stale, copies one slot at a time and publishes its position at the end. Steps of the two sides
 interleave freely under sequential consistency.
 */
module FifoProtocol {
  import opened Common
  import opened Words
  import opened Fifo

  datatype Producer<T> =
    | PIdle
    | PLoaded(data: seq<T>, fifoWrite: nat)
    | PCopy(data: seq<T>, i: nat, fifoWrite: nat, fifoRead: nat)

  datatype Consumer<T> =
    | CIdle
    | CLoaded(num: nat, newRead: nat)
    | CCopy(num: nat, data: seq<T>, newRead: nat, fifoWrite: nat)

  // The last six fields are history: everything copied in and out so far, how much of it has been
  // published, and how much had been at each side's last snapshot. No step depends on them.
  datatype Ring<T> = Ring(
    buffer: seq<T>, write: nat, read: nat, len: nat,
    producer: Producer<T>, consumer: Consumer<T>,
    sent: seq<T>, received: seq<T>,
    published: nat, released: nat, seenPublished: nat, seenReleased: nat)

  ghost predicate Init<T>(s: Ring<T>) {
    && IsPow2(s.len) && s.len <= |s.buffer|
    && s.write == 0 && s.read == 0 && s.producer.PIdle? && s.consumer.CIdle?
    && s.sent == [] && s.received == []
    && s.published == s.released == s.seenPublished == s.seenReleased == 0
  }

  datatype Step<T> =
    | PutCall(items: seq<T>)
    | PutSnapshot
    | PutCopy
    | PutPublish
    | GetCall(num: nat)
    | GetSnapshot
    | GetCopy
    | GetPublish

  // The loop test of each side: nothing asked for is left, or the other side's snapshot is reached.
  predicate PutDone<T>(s: Ring<T>)
    requires s.producer.PCopy? && s.len > 0
  {
    s.producer.i >= |s.producer.data| || And(s.producer.fifoWrite + 1, s.len - 1) == s.producer.fifoRead
  }

  predicate GetDone<T>(s: Ring<T>)
    requires s.consumer.CCopy?
  {
    |s.consumer.data| >= s.consumer.num || s.consumer.newRead == s.consumer.fifoWrite
  }

  // That a copy stays inside the buffer is no restriction: NeverStuck proves it of every reachable state.
  predicate Enabled<T>(s: Ring<T>, a: Step<T>) {
    match a
    case PutCall(_) => s.producer.PIdle?
    case PutSnapshot => s.producer.PLoaded?
    case PutCopy => s.producer.PCopy? && s.len > 0 && !PutDone(s) && s.producer.fifoWrite < |s.buffer|
    case PutPublish => s.producer.PCopy? && s.len > 0 && PutDone(s)
    case GetCall(_) => s.consumer.CIdle?
    case GetSnapshot => s.consumer.CLoaded?
    case GetCopy => s.consumer.CCopy? && s.len > 0 && !GetDone(s) && s.consumer.newRead < |s.buffer|
    case GetPublish => s.consumer.CCopy? && GetDone(s)
  }

  function Next<T>(s: Ring<T>, a: Step<T>): Ring<T>
    requires Enabled(s, a)
  {
    match a
    case PutCall(items) =>
      s.(producer := PLoaded(items, s.write))
    case PutSnapshot =>
      s.(producer := PCopy(s.producer.data, 0, s.producer.fifoWrite, s.read), seenReleased := s.released)
    case PutCopy =>
      var p := s.producer;
      s.(buffer := s.buffer[p.fifoWrite := p.data[p.i]],
         producer := PCopy(p.data, p.i + 1, And(p.fifoWrite + 1, s.len - 1), p.fifoRead),
         sent := s.sent + [p.data[p.i]])
    case PutPublish =>
      s.(write := s.producer.fifoWrite, producer := PIdle, published := |s.sent|)
    case GetCall(num) =>
      s.(consumer := CLoaded(num, s.read))
    case GetSnapshot =>
      s.(consumer := CCopy(s.consumer.num, [], s.consumer.newRead, s.write), seenPublished := s.published)
    case GetCopy =>
      var c := s.consumer;
      var x := s.buffer[c.newRead];
      s.(consumer := CCopy(c.num, c.data + [x], And(c.newRead + 1, s.len - 1), c.fifoWrite),
         received := s.received + [x])
    case GetPublish =>
      s.(read := s.consumer.newRead, consumer := CIdle, released := |s.received|)
  }

  /** Where item number k is kept */

  // The index after n steps round a cycle.
  function Turns(n: nat, len: nat): (p: nat)
    requires len > 0
    ensures p < len
    decreases n
  {
    if n == 0 then 0 else NextIndex(Turns(n - 1, len), len)
  }

  function Pos(k: nat, len: nat): (p: nat)
    requires len > 0
    ensures p < len
  {
    Turns(k, len)
  }

  lemma PosNext(k: nat, len: nat)
    requires len > 0
    ensures Pos(k, len) < len && Pos(k + 1, len) == NextIndex(Pos(k, len), len)
  {
  }

  lemma {:induction false} PosAhead(k: nat, d: nat, len: nat)
    requires d < len
    ensures Pos(k + d, len) == Slot(Pos(k, len), d, len)
    decreases d
  {
    if d > 0 {
      PosAhead(k, d - 1, len);
      PosNext(k + d - 1, len);
      assert k + d - 1 == k + (d - 1);
    }
  }

  lemma {:induction false} PosOneRound(k: nat, len: nat)
    requires len > 0
    ensures Pos(k + len, len) == Pos(k, len)
  {
    PosAhead(k, len - 1, len);
    assert k + len - 1 == k + (len - 1);
  }

  lemma {:induction false} PosDistinct(k: nat, n: nat, len: nat)
    requires k < n < k + len
    ensures Pos(k, len) != Pos(n, len)
  {
    PosAhead(k, n - k, len);
  }

  /** The invariant */

  ghost predicate Sizes<T>(s: Ring<T>) {
    && IsPow2(s.len) && 0 < s.len <= |s.buffer|
    && s.released <= |s.received| <= s.published <= |s.sent| < s.released + s.len
    && s.write == Pos(s.published, s.len)
    && s.read == Pos(s.released, s.len)
  }

  ghost predicate ProducerInv<T>(s: Ring<T>)
    requires s.len > 0
  {
    match s.producer
    case PIdle => |s.sent| == s.published
    case PLoaded(_, fw) => |s.sent| == s.published && fw == Pos(|s.sent|, s.len)
    case PCopy(data, i, fw, fr) =>
      && fw == Pos(|s.sent|, s.len)
      && s.seenReleased <= s.released && fr == Pos(s.seenReleased, s.len)
      && |s.sent| < s.seenReleased + s.len
      && i <= |data| && |s.sent| == s.published + i && s.sent[s.published..] == data[..i]
  }

  ghost predicate ConsumerInv<T>(s: Ring<T>)
    requires s.len > 0
  {
    match s.consumer
    case CIdle => |s.received| == s.released
    case CLoaded(_, nr) => |s.received| == s.released && nr == Pos(|s.received|, s.len)
    case CCopy(num, data, nr, fw) =>
      && nr == Pos(|s.received|, s.len)
      && |s.received| <= s.seenPublished <= s.published && fw == Pos(s.seenPublished, s.len)
      && |data| <= num && |s.received| == s.released + |data| && s.received[s.released..] == data
  }

  // Every item not yet released is in its slot.
  ghost predicate Stored<T>(s: Ring<T>)
    requires s.len > 0
  {
    forall k: nat :: s.released <= k < |s.sent| ==>
      Pos(k, s.len) < |s.buffer| && s.buffer[Pos(k, s.len)] == s.sent[k]
  }

  ghost predicate Inv<T>(s: Ring<T>) {
    Sizes(s) && ProducerInv(s) && ConsumerInv(s) && Stored(s) && s.received <= s.sent
  }

  lemma {:induction false} InitInv<T>(s: Ring<T>)
    requires Init(s)
    ensures Inv(s)
  {
  }

  // A snapshot that says the ring is not full is enough, however stale.
  lemma {:induction false} NotFull<T>(s: Ring<T>)
    requires Inv(s) && s.producer.PCopy? && !PutDone(s)
    ensures |s.sent| + 1 < s.seenReleased + s.len
    ensures And(s.producer.fifoWrite + 1, s.len - 1) == Pos(|s.sent| + 1, s.len)
  {
    NextIndexMask(s.producer.fifoWrite, s.len);
    if |s.sent| + 1 == s.seenReleased + s.len {
      PosOneRound(s.seenReleased, s.len);
    }
  }

  // The slot about to be overwritten differs from every slot whose item the consumer has yet to copy,
  // published or not.
  lemma {:induction false} NeverOverwrites<T>(s: Ring<T>, k: nat)
    requires Inv(s) && s.producer.PCopy? && !PutDone(s) && |s.received| <= k < |s.sent|
    ensures s.producer.fifoWrite != Pos(k, s.len)
  {
    NotFull(s);
    PosDistinct(k, |s.sent|, s.len);
  }

  // Each side can always go on, whatever the other one does, with any call and inside the buffer.
  lemma {:induction false} NeverStuck<T>(s: Ring<T>)
    requires Inv(s)
    ensures s.producer.PIdle? ==> forall items :: Enabled(s, PutCall(items))
    ensures s.producer.PLoaded? ==> Enabled(s, PutSnapshot)
    ensures s.consumer.CIdle? ==> forall num :: Enabled(s, GetCall(num))
    ensures s.consumer.CLoaded? ==> Enabled(s, GetSnapshot)
    ensures s.producer.PCopy? ==> if PutDone(s) then Enabled(s, PutPublish) else Enabled(s, PutCopy)
    ensures s.consumer.CCopy? ==> if GetDone(s) then Enabled(s, GetPublish) else Enabled(s, GetCopy)
    ensures s.producer.PIdle? || s.producer.PLoaded? || s.producer.fifoWrite < s.len
    ensures s.consumer.CIdle? || s.consumer.CLoaded? || s.consumer.newRead < s.len
  {
  }

  lemma {:induction false} PutCopyStored<T>(s: Ring<T>)
    requires Inv(s) && Enabled(s, PutCopy)
    ensures Stored(Next(s, PutCopy))
  {
    hide Pos, IsPow2, ConsumerInv;
    var t := Next(s, PutCopy);
    NotFull(s);
    forall k: nat | t.released <= k < |t.sent|
      ensures Pos(k, t.len) < |t.buffer| && t.buffer[Pos(k, t.len)] == t.sent[k]
    {
      if k < |s.sent| {
        assert s.buffer[Pos(k, s.len)] == s.sent[k];
        PosDistinct(k, |s.sent|, s.len);
      }
    }
  }

  lemma {:induction false} PutCopyProducer<T>(s: Ring<T>)
    requires Inv(s) && Enabled(s, PutCopy)
    ensures ProducerInv(Next(s, PutCopy))
    ensures |s.sent| + 1 < s.released + s.len
  {
    hide Pos, IsPow2, ConsumerInv, Stored;
    var t := Next(s, PutCopy);
    NotFull(s);
    var d, i := s.producer.data, s.producer.i;
    assert t.sent[t.published..] == s.sent[s.published..] + [d[i]];
    assert d[..i + 1] == d[..i] + [d[i]];
  }

  lemma {:induction false} PutCopyInv<T>(s: Ring<T>)
    requires Inv(s) && Enabled(s, PutCopy)
    ensures Inv(Next(s, PutCopy))
  {
    hide Pos, IsPow2, Stored, ProducerInv, And;
    PutCopyStored(s);
    PutCopyProducer(s);
  }

  // The item copied is the next one sent.
  lemma {:induction false} GetCopyItem<T>(s: Ring<T>)
    requires Inv(s) && Enabled(s, GetCopy)
    ensures |s.received| < s.published && s.buffer[s.consumer.newRead] == s.sent[|s.received|]
  {
    hide Pos, IsPow2, ProducerInv;
    assert |s.received| < s.seenPublished;
    assert s.buffer[Pos(|s.received|, s.len)] == s.sent[|s.received|];
  }

  lemma {:induction false} GetCopyInv<T>(s: Ring<T>)
    requires Inv(s) && Enabled(s, GetCopy)
    ensures Inv(Next(s, GetCopy))
  {
    hide Pos, IsPow2, Stored;
    var t := Next(s, GetCopy);
    GetCopyItem(s);
    StoredKept(s, t);
    assert |s.received| < s.seenPublished;
    NextIndexMask(s.consumer.newRead, s.len);
    PosNext(|s.received|, s.len);
    assert t.received == t.sent[..|t.received|];
    assert t.received[t.released..] == s.received[s.released..] + [s.sent[|s.received|]];
  }

  lemma {:induction false} StoredKept<T>(s: Ring<T>, t: Ring<T>)
    requires s.len > 0 && Stored(s)
    requires t.buffer == s.buffer && t.sent == s.sent && t.len == s.len && s.released <= t.released
    ensures Stored(t)
  {
  }

  lemma {:induction false} StepInv<T>(s: Ring<T>, a: Step<T>)
    requires Inv(s) && Enabled(s, a)
    ensures Inv(Next(s, a))
  {
    hide Pos, IsPow2;
    match a
    case PutCopy => PutCopyInv(s);
    case GetCopy => GetCopyInv(s);
    case PutSnapshot =>
      assert Next(s, a).sent[s.published..] == [] == s.producer.data[..0];
    case GetSnapshot => assert Next(s, a).received[s.released..] == [];
    case _ =>
  }

  /** All runs */

  // A run: the states passed through, each reached from the one before by an enabled step.
  ghost predicate IsRun<T>(run: seq<Ring<T>>, steps: seq<Step<T>>) {
    && |run| == |steps| + 1
    && Init(run[0])
    && forall i {:trigger steps[i]} :: 0 <= i < |steps| ==>
         Enabled(run[i], steps[i]) && run[i + 1] == Next(run[i], steps[i])
  }

  lemma {:induction false} RunInv<T>(run: seq<Ring<T>>, steps: seq<Step<T>>, n: nat)
    requires IsRun(run, steps) && n < |run|
    ensures Inv(run[n])
    decreases n
  {
    if n == 0 {
      InitInv(run[0]);
    } else {
      RunInv(run, steps, n - 1);
      StepInv(run[n - 1], steps[n - 1]);
    }
  }

  // In every state of every run the items received are a prefix of the items sent, a copy hits no slot
  // still to be read, and at most len - 1 items are under way.
  lemma {:induction false} RunIsSafe<T>(run: seq<Ring<T>>, steps: seq<Step<T>>, n: nat)
    requires IsRun(run, steps) && n < |run|
    ensures run[n].received <= run[n].sent
    ensures |run[n].sent| - |run[n].received| < run[n].len
    ensures n < |steps| && steps[n].PutCopy? ==>
      forall k: nat :: |run[n].received| <= k < |run[n].sent| ==>
        run[n].len > 0 && run[n].producer.fifoWrite != Pos(k, run[n].len)
  {
    RunInv(run, steps, n);
    if n < |steps| && steps[n].PutCopy? {
      forall k: nat | |run[n].received| <= k < |run[n].sent|
        ensures run[n].producer.fifoWrite != Pos(k, run[n].len)
      {
        NeverOverwrites(run[n], k);
      }
    }
  }

  /** What the two sides see of the queue */

  // In every state the buffer and the shared positions hold exactly the items published and not yet
  // released, in order.
  lemma {:induction false} QueueIsPublished<T>(s: Ring<T>)
    requires Inv(s)
    ensures s.read < s.len && s.write < s.len
    ensures Queue(s.buffer, s.read, s.write, s.len) == s.sent[s.released..s.published]
  {
    hide Turns, IsPow2, ProducerInv, ConsumerInv;
    var n := s.published - s.released;
    PosAhead(s.released, n, s.len);
    var q := Queue(s.buffer, s.read, s.write, s.len);
    forall k | 0 <= k < n
      ensures q[k] == s.sent[s.released + k]
    {
      PosAhead(s.released, k, s.len);
      assert s.buffer[Pos(s.released + k, s.len)] == s.sent[s.released + k];
    }
  }

  // A put stops once it has copied all its items or filled the room its snapshot shows, not before.
  lemma {:induction false} PutCount<T>(s: Ring<T>)
    requires Inv(s) && Enabled(s, PutPublish)
    ensures s.seenReleased <= s.released && s.published - s.seenReleased < s.len
    ensures s.producer.i == Min(|s.producer.data|, s.len - 1 - (s.published - s.seenReleased))
  {
    NextIndexMask(s.producer.fifoWrite, s.len);
    PosNext(|s.sent|, s.len);
    if s.producer.i < |s.producer.data| && |s.sent| + 1 < s.seenReleased + s.len {
      PosDistinct(s.seenReleased, |s.sent| + 1, s.len);
    }
  }

  // A get stops once it has copied as many items as asked for or all its snapshot shows, not before.
  lemma {:induction false} GetCount<T>(s: Ring<T>)
    requires Inv(s) && Enabled(s, GetPublish)
    ensures s.released <= s.seenPublished <= s.published
    ensures |s.consumer.data| == Min(s.consumer.num, s.seenPublished - s.released)
  {
    if |s.received| < s.seenPublished {
      PosDistinct(|s.received|, s.seenPublished, s.len);
    }
  }

  lemma {:induction false} PutOnQueue<T>(s: Ring<T>)
    requires Inv(s) && Enabled(s, PutPublish)
    ensures var room := s.len - 1 - (s.published - s.seenReleased);
            room >= 0
            && s.sent[s.released..] == s.sent[s.released..s.published]
                                       + s.producer.data[..Min(|s.producer.data|, room)]
  {
    hide Stored, Pos, IsPow2, ConsumerInv;
    PutCount(s);
    assert s.sent[s.released..] == s.sent[s.released..s.published] + s.sent[s.published..];
  }

  lemma {:induction false} GetOnQueue<T>(s: Ring<T>)
    requires Inv(s) && Enabled(s, GetPublish)
    ensures var n := Min(s.consumer.num, s.seenPublished - s.released);
            && s.released + n == |s.received| <= s.published
            && s.consumer.data == s.sent[s.released..s.published][..n]
            && s.sent[|s.received|..s.published] == s.sent[s.released..s.published][n..]
  {
    hide Stored, Pos, IsPow2, ProducerInv;
    GetCount(s);
    assert s.sent[s.released..|s.received|] == s.received[s.released..];
  }

  lemma {:induction false} QueueBounds<T>(s: Ring<T>)
    requires Inv(s)
    ensures s.released <= s.published <= |s.sent|
  {
  }

  // So a put takes effect when it publishes, appending as many of its items as fitted at its snapshot,
  // and a get when it publishes, removing as many items as were asked for and there at its snapshot;
  // every other step leaves the queue alone.
  lemma {:induction false} StepOnQueue<T>(s: Ring<T>, a: Step<T>)
    requires Inv(s) && Enabled(s, a)
    ensures s.released <= s.published <= |s.sent|
    ensures var t := Next(s, a);
      var before := s.sent[s.released..s.published];
      && Inv(t)
      && t.released <= t.published <= |t.sent|
      && var after := t.sent[t.released..t.published];
      match a
      case PutPublish =>
        var room := s.len - 1 - (s.published - s.seenReleased);
        room >= 0 && after == before + s.producer.data[..Min(|s.producer.data|, room)]
      case GetPublish =>
        var n := Min(s.consumer.num, s.seenPublished - s.released);
        0 <= n <= |before| && s.consumer.data == before[..n] && after == before[n..]
      case _ => after == before
  {
    hide Inv, Min, GetDone, PutDone;
    StepInv(s, a);
    QueueBounds(s);
    QueueBounds(Next(s, a));
    match a
    case PutPublish => PutOnQueue(s);
    case GetPublish => GetOnQueue(s);
    case _ =>
  }
}
