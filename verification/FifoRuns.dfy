/**
 What the calls of the producer and the consumer of include/rte_avp_fifo.h do to the queue that the shared
 buffer and positions stand for, over whole runs and from the arguments of the calls.
 */
module FifoRuns {
  import opened Common
  import opened Words
  import opened Fifo
  import opened FifoProtocol

  predicate InBounds<T>(s: Ring<T>) {
    s.read < s.len <= |s.buffer| && s.write < s.len
  }

  // What anyone who looks at the shared buffer and positions sees.
  function Shared<T>(s: Ring<T>): seq<T> {
    if InBounds(s) then Queue(s.buffer, s.read, s.write, s.len) else []
  }

  // The arguments of the last put and the last get called in the first n steps.
  function LastItems<T>(steps: seq<Step<T>>, n: nat): seq<T>
    requires n <= |steps|
    decreases n
  {
    if n == 0 then [] else if steps[n - 1].PutCall? then steps[n - 1].items else LastItems(steps, n - 1)
  }

  function LastNum<T>(steps: seq<Step<T>>, n: nat): nat
    requires n <= |steps|
    decreases n
  {
    if n == 0 then 0 else if steps[n - 1].GetCall? then steps[n - 1].num else LastNum(steps, n - 1)
  }

  // The length of the queue when the producer, or the consumer, last took its snapshot.
  function PutView<T>(run: seq<Ring<T>>, steps: seq<Step<T>>, n: nat): nat
    requires n <= |steps| && |run| == |steps| + 1
    decreases n
  {
    if n == 0 then 0 else if steps[n - 1].PutSnapshot? then |Shared(run[n - 1])| else PutView(run, steps, n - 1)
  }

  function GetView<T>(run: seq<Ring<T>>, steps: seq<Step<T>>, n: nat): nat
    requires n <= |steps| && |run| == |steps| + 1
    decreases n
  {
    if n == 0 then 0 else if steps[n - 1].GetSnapshot? then |Shared(run[n - 1])| else GetView(run, steps, n - 1)
  }

  lemma {:induction false} SharedIsPublished<T>(s: Ring<T>)
    requires Inv(s)
    ensures InBounds(s) && s.released <= s.published <= |s.sent| && Shared(s) == s.sent[s.released..s.published]
  {
    QueueIsPublished(s);
  }

  // Each side works for its last call, with the queue's length at its last snapshot.
  ghost predicate PutKnows<T>(run: seq<Ring<T>>, steps: seq<Step<T>>, n: nat)
    requires n <= |steps| && |run| == |steps| + 1
  {
    var s := run[n];
    && (!s.producer.PIdle? ==> s.producer.data == LastItems(steps, n))
    && (s.producer.PCopy? ==> s.published - s.seenReleased == PutView(run, steps, n))
  }

  ghost predicate GetKnows<T>(run: seq<Ring<T>>, steps: seq<Step<T>>, n: nat)
    requires n <= |steps| && |run| == |steps| + 1
  {
    var s := run[n];
    && (!s.consumer.CIdle? ==> s.consumer.num == LastNum(steps, n))
    && (s.consumer.CCopy? ==> s.seenPublished - s.released == GetView(run, steps, n))
  }

  lemma {:induction false} RunLength<T>(run: seq<Ring<T>>, steps: seq<Step<T>>, n: nat)
    requires IsRun(run, steps) && n < |run|
    ensures run[n].len == run[0].len
    decreases n
  {
    hide PutDone, GetDone;
    if n > 0 {
      RunLength(run, steps, n - 1);
      assert Enabled(run[n - 1], steps[n - 1]) && run[n] == Next(run[n - 1], steps[n - 1]);
    }
  }

  lemma {:induction false} RunPutKnows<T>(run: seq<Ring<T>>, steps: seq<Step<T>>, n: nat)
    requires IsRun(run, steps) && n < |run|
    ensures PutKnows(run, steps, n)
    decreases n
  {
    hide Inv, PutDone, GetDone, Shared, InBounds;
    if n > 0 {
      RunPutKnows(run, steps, n - 1);
      assert Enabled(run[n - 1], steps[n - 1]) && run[n] == Next(run[n - 1], steps[n - 1]);
      if steps[n - 1].PutSnapshot? {
        RunInv(run, steps, n - 1);
        SharedIsPublished(run[n - 1]);
      }
    }
  }

  lemma {:induction false} RunGetKnows<T>(run: seq<Ring<T>>, steps: seq<Step<T>>, n: nat)
    requires IsRun(run, steps) && n < |run|
    ensures GetKnows(run, steps, n)
    decreases n
  {
    hide Inv, PutDone, GetDone, Shared, InBounds;
    if n > 0 {
      RunGetKnows(run, steps, n - 1);
      assert Enabled(run[n - 1], steps[n - 1]) && run[n] == Next(run[n - 1], steps[n - 1]);
      if steps[n - 1].GetSnapshot? {
        RunInv(run, steps, n - 1);
        SharedIsPublished(run[n - 1]);
      }
    }
  }

  // Whatever the other side does meanwhile, a put appends to the queue, in one step, the first items of its
  // call, as many as there were free places at its snapshot, and returns their number; a get takes from its
  // front and returns as many items as it was called for, or as there were at its snapshot. No other step
  // changes the queue.
  lemma {:induction false} RunOnQueue<T>(run: seq<Ring<T>>, steps: seq<Step<T>>, n: nat)
    requires IsRun(run, steps) && n < |steps|
    ensures InBounds(run[n]) && InBounds(run[n + 1]) && run[n].len == run[0].len
    ensures var q, q' := Shared(run[n]), Shared(run[n + 1]);
      match steps[n]
      case PutPublish =>
        var items, room := LastItems(steps, n), run[0].len - 1 - PutView(run, steps, n);
        && run[n].producer.PCopy? && room >= 0 && run[n].producer.i == Min(|items|, room)
        && q' == q + items[..Min(|items|, room)]
      case GetPublish =>
        && run[n].consumer.CCopy? && |run[n].consumer.data| == Min(LastNum(steps, n), GetView(run, steps, n))
        && q == run[n].consumer.data + q'
      case _ => q' == q
  {
    hide Inv, PutDone, GetDone, Shared, InBounds, Min, LastItems, LastNum, PutView, GetView;
    RunInv(run, steps, n);
    RunLength(run, steps, n);
    RunPutKnows(run, steps, n);
    RunGetKnows(run, steps, n);
    assert Enabled(run[n], steps[n]) && run[n + 1] == Next(run[n], steps[n]);
    StepOnQueue(run[n], steps[n]);
    SharedIsPublished(run[n]);
    SharedIsPublished(run[n + 1]);
    if steps[n].PutPublish? {
      PutCount(run[n]);
    } else if steps[n].GetPublish? {
      GetCount(run[n]);
      var q := Shared(run[n]);
      assert q == q[..|run[n].consumer.data|] + q[|run[n].consumer.data|..];
    }
  }

  /** The ring as a channel */

  // What a put accepts, and a get returns, in the step in which it publishes.
  function PutAt<T>(s: Ring<T>, steps: seq<Step<T>>, n: nat): seq<T>
    requires n < |steps|
  {
    if steps[n].PutPublish? && s.producer.PCopy? && s.producer.i <= |LastItems(steps, n)|
    then LastItems(steps, n)[..s.producer.i] else []
  }

  function GotAt<T>(s: Ring<T>, steps: seq<Step<T>>, n: nat): seq<T>
    requires n < |steps|
  {
    if steps[n].GetPublish? && s.consumer.CCopy? then s.consumer.data else []
  }

  // What the puts of the first n steps have accepted, and the gets returned.
  function Accepted<T>(run: seq<Ring<T>>, steps: seq<Step<T>>, n: nat): seq<T>
    requires n <= |steps| && |run| == |steps| + 1
    decreases n
  {
    if n == 0 then [] else Accepted(run, steps, n - 1) + PutAt(run[n - 1], steps, n - 1)
  }

  function Delivered<T>(run: seq<Ring<T>>, steps: seq<Step<T>>, n: nat): seq<T>
    requires n <= |steps| && |run| == |steps| + 1
    decreases n
  {
    if n == 0 then [] else Delivered(run, steps, n - 1) + GotAt(run[n - 1], steps, n - 1)
  }

  lemma {:induction false} StepConserves<T>(run: seq<Ring<T>>, steps: seq<Step<T>>, n: nat)
    requires IsRun(run, steps) && n < |steps|
    ensures Shared(run[n]) + PutAt(run[n], steps, n) == GotAt(run[n], steps, n) + Shared(run[n + 1])
  {
    hide Shared, LastItems, PutView, GetView, LastNum, InBounds;
    RunOnQueue(run, steps, n);
  }

  lemma Regroup<T>(d: seq<T>, q: seq<T>, p: seq<T>, g: seq<T>, q': seq<T>)
    requires q + p == g + q'
    ensures (d + q) + p == (d + g) + q'
  {
    assert (d + q) + p == d + (q + p);
    assert d + (g + q') == (d + g) + q';
  }

  // In every state of every run what has been accepted is what has been returned, in order, followed by
  // what is in the queue: nothing is lost, doubled, reordered or made up.
  lemma {:induction false} RunIsFifo<T>(run: seq<Ring<T>>, steps: seq<Step<T>>, n: nat)
    requires IsRun(run, steps) && n < |run|
    ensures Accepted(run, steps, n) == Delivered(run, steps, n) + Shared(run[n])
    decreases n
  {
    hide Shared, PutAt, GotAt, Enabled;
    if n == 0 {
      EmptyAtFirst(run[0]);
    } else {
      var s := run[n - 1];
      RunIsFifo(run, steps, n - 1);
      StepConserves(run, steps, n - 1);
      Regroup(Delivered(run, steps, n - 1), Shared(s), PutAt(s, steps, n - 1), GotAt(s, steps, n - 1), Shared(run[n]));
    }
  }

  lemma EmptyAtFirst<T>(s: Ring<T>)
    requires Init(s)
    ensures Shared(s) == []
  {
  }
}
