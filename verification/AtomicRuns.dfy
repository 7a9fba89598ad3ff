/**
 What every run of the 64-bit atomics of include/rte_atomic_32.h adds up to: the operations are
 linearizable, each call takes effect exactly once, and the counter is the sum of the calls.
 */
module AtomicRuns {
  import opened Words
  import opened Atomic64

  /** Every effect belongs to one call */

  // Entry k is the effect of a call that has returned, or of one that is about to.
  ghost predicate HasCall(s: Machine, k: nat) {
    || (exists r :: 0 <= r < |s.answered| && s.answered[r].entry == k)
    || (exists t :: 0 <= t < |s.threads| && s.threads[t].Finished? && s.threads[t].entry == k)
  }

  ghost predicate AllHaveCalls(s: Machine) {
    forall k: nat :: k < |s.log| ==> HasCall(s, k)
  }

  lemma {:induction false} HasCallStep(s: Machine, a: Step, k: nat)
    requires Enabled(s, a) && HasCall(s, k)
    ensures HasCall(Next(s, a), k)
  {
    var n := Next(s, a);
    if exists r :: 0 <= r < |s.answered| && s.answered[r].entry == k {
      var r :| 0 <= r < |s.answered| && s.answered[r].entry == k;
      assert n.answered[r] == s.answered[r];
    } else {
      var t :| 0 <= t < |s.threads| && s.threads[t].Finished? && s.threads[t].entry == k;
      if a == Leave(t) {
        assert n.answered[|s.answered|].entry == k;
      } else {
        assert n.threads[t] == s.threads[t];
      }
    }
  }

  lemma {:induction false} AllHaveCallsStep(s: Machine, a: Step)
    requires Enabled(s, a) && AllHaveCalls(s)
    ensures AllHaveCalls(Next(s, a))
  {
    var n := Next(s, a);
    forall k: nat | k < |n.log|
      ensures HasCall(n, k)
    {
      if k < |s.log| {
        HasCallStep(s, a, k);
      } else {
        assert n.threads[a.t].Finished? && n.threads[a.t].entry == k;
      }
    }
  }

  // The call step of thread t with operation op that the run made when the clock showed `invoked`.
  ghost predicate Made(run: seq<Machine>, steps: seq<Step>, n: nat, t: nat, op: Op, invoked: nat)
    requires |run| == |steps| + 1 && n < |run|
  {
    var i := invoked - run[0].clock;
    0 <= i < n && steps[i] == Call(t, op)
  }

  ghost predicate InProgress(th: Thread) {
    th.Calling? || th.HalfLoaded? || th.Loaded?
  }

  // A call in progress was made in the run and has not taken effect.
  ghost predicate CallOpen(run: seq<Machine>, steps: seq<Step>, n: nat, t: nat)
    requires |run| == |steps| + 1 && n < |run| && t < |run[n].threads|
  {
    var s, th := run[n], run[n].threads[t];
    InProgress(th) ==>
      && Made(run, steps, n, t, th.op, th.invoked)
      && forall k: nat :: k < |s.log| ==> s.log[k].invoked != th.invoked
  }

  // Every effect is that of a call made in the run, and no call has two.
  ghost predicate OnePerCall(run: seq<Machine>, steps: seq<Step>, n: nat)
    requires |run| == |steps| + 1 && n < |run|
  {
    var s := run[n];
    && (forall k: nat :: k < |s.log| ==> Made(run, steps, n, s.log[k].thread, s.log[k].op, s.log[k].invoked))
    && (forall j: nat, k: nat :: j < k < |s.log| ==> s.log[j].invoked != s.log[k].invoked)
  }

  ghost predicate CallsInv(run: seq<Machine>, steps: seq<Step>, n: nat)
    requires |run| == |steps| + 1 && n < |run|
  {
    && run[n].clock == run[0].clock + n
    && OnePerCall(run, steps, n)
    && forall t: nat :: t < |run[n].threads| ==> CallOpen(run, steps, n, t)
  }

  lemma {:induction false} OnePerCallStep(run: seq<Machine>, steps: seq<Step>, n: nat)
    requires IsRun(run, steps) && n < |steps| && CallsInv(run, steps, n)
    ensures OnePerCall(run, steps, n + 1)
  {
    var s, a, m := run[n], steps[n], run[n + 1];
    assert m == Next(s, a) && CallOpen(run, steps, n, a.t);
    forall k: nat | k < |m.log|
      ensures Made(run, steps, n + 1, m.log[k].thread, m.log[k].op, m.log[k].invoked)
    {
      if k < |s.log| {
        assert Made(run, steps, n, s.log[k].thread, s.log[k].op, s.log[k].invoked);
      }
    }
  }

  lemma {:induction false} CallOpenStep(run: seq<Machine>, steps: seq<Step>, n: nat, u: nat)
    requires IsRun(run, steps) && n < |steps| && CallsInv(run, steps, n) && u < |run[n + 1].threads|
    ensures CallOpen(run, steps, n + 1, u)
  {
    var s, a, m := run[n], steps[n], run[n + 1];
    assert m == Next(s, a) && CallOpen(run, steps, n, u) && CallOpen(run, steps, n, a.t);
    if InProgress(m.threads[u]) {
      forall k: nat | k < |m.log|
        ensures m.log[k].invoked != m.threads[u].invoked
      {
        if k < |s.log| {
          assert Made(run, steps, n, s.log[k].thread, s.log[k].op, s.log[k].invoked);
        }
      }
    }
  }

  lemma {:induction false} RunCalls(run: seq<Machine>, steps: seq<Step>, n: nat)
    requires IsRun(run, steps) && n < |run|
    ensures CallsInv(run, steps, n) && AllHaveCalls(run[n])
    decreases n
  {
    if n > 0 {
      RunCalls(run, steps, n - 1);
      assert Enabled(run[n - 1], steps[n - 1]) && run[n] == Next(run[n - 1], steps[n - 1]);
      AllHaveCallsStep(run[n - 1], steps[n - 1]);
      OnePerCallStep(run, steps, n - 1);
      forall t: nat | t < |run[n].threads|
        ensures CallOpen(run, steps, n, t)
      {
        CallOpenStep(run, steps, n - 1, t);
      }
    }
  }

  // A pending effect is not the effect of a call that has returned.
  ghost predicate PendingApart(s: Machine) {
    forall t, r :: 0 <= t < |s.threads| && s.threads[t].Finished? && 0 <= r < |s.answered| ==>
      s.threads[t].entry != s.answered[r].entry
  }

  lemma {:induction false} PendingIsApart(s: Machine)
    requires Inv(s)
    ensures PendingApart(s)
  {
    forall t, r | 0 <= t < |s.threads| && s.threads[t].Finished? && 0 <= r < |s.answered|
      ensures s.threads[t].entry != s.answered[r].entry
    {
      assert ThreadInv(s, t) && ReturnInv(s, s.answered[r]);
    }
  }

  // A call that returned before another was made precedes it, whether that one has returned or not.
  lemma {:induction false} ReturnedPrecedes(s: Machine)
    requires Inv(s)
    ensures forall q, k :: 0 <= q < |s.answered| && 0 <= k < |s.log| ==>
      (s.answered[q].at <= s.log[k].invoked ==> s.answered[q].entry < k)
  {
    forall q, k | 0 <= q < |s.answered| && 0 <= k < |s.log| && s.answered[q].at <= s.log[k].invoked
      ensures s.answered[q].entry < k
    {
      assert ReturnInv(s, s.answered[q]);
      var e := s.answered[q].entry;
      assert s.log[k].invoked < s.log[k].at && s.log[e].at < s.answered[q].at;
    }
  }

  // Every effect does to the counter, and returns, what its operation promises.
  lemma {:induction false} EffectsMean(s: Machine)
    requires Inv(s)
    ensures forall k: nat :: k < |s.log| ==>
      Meant(s.log[k].op, CounterAt(s, k), CounterAt(s, k + 1), s.log[k].result)
  {
    forall k: nat | k < |s.log|
      ensures Meant(s.log[k].op, CounterAt(s, k), CounterAt(s, k + 1), s.log[k].result)
    {
      assert OneStep(s, k);
      OpIsMeant(s.log[k].op, CounterAt(s, k));
    }
  }

  // So does every call that has returned.
  lemma {:induction false} ReturnsMean(s: Machine)
    requires Inv(s)
    ensures forall r :: 0 <= r < |s.answered| ==>
      && s.answered[r].entry < |s.log|
      && var k := s.answered[r].entry;
         Meant(s.answered[r].op, CounterAt(s, k), CounterAt(s, k + 1), s.answered[r].result)
  {
    hide Meant;
    EffectsMean(s);
    forall r | 0 <= r < |s.answered|
      ensures ReturnInv(s, s.answered[r])
    {
    }
  }

  // Linearizability. In every state of every run the log is a legal sequential history of the one-step
  // operations ending in the counter, each doing and returning what its caller was promised. Every call that
  // has returned is one entry of its own, made and finished before and after it, with the result that entry
  // gives; and a call that returned before another was made precedes it, also if that one has not returned
  // yet. Conversely every entry is the effect of exactly one call: of one made by a step of the run, no two of
  // the same, and of one that has returned or is about to.
  lemma {:induction false} RunIsLinearizable(run: seq<Machine>, steps: seq<Step>, n: nat)
    requires IsRun(run, steps) && n < |run|
    ensures Sequential(run[n])
    ensures forall k: nat :: k < |run[n].log| ==>
      Meant(run[n].log[k].op, CounterAt(run[n], k), CounterAt(run[n], k + 1), run[n].log[k].result)
    ensures forall r :: 0 <= r < |run[n].answered| ==> ReturnInv(run[n], run[n].answered[r])
    ensures forall q, r :: 0 <= q < r < |run[n].answered| ==>
      run[n].answered[q].entry != run[n].answered[r].entry
    ensures forall q, r :: 0 <= q < |run[n].answered| && 0 <= r < |run[n].answered| ==>
      (run[n].answered[q].at <= run[n].answered[r].invoked ==>
         run[n].answered[q].entry < run[n].answered[r].entry)
    ensures forall q, k :: 0 <= q < |run[n].answered| && 0 <= k < |run[n].log| ==>
      (run[n].answered[q].at <= run[n].log[k].invoked ==> run[n].answered[q].entry < k)
    ensures OnePerCall(run, steps, n) && AllHaveCalls(run[n]) && PendingApart(run[n])
  {
    RunInv(run, steps, n);
    RunCalls(run, steps, n);
    EffectsMean(run[n]);
    ReturnedPrecedes(run[n]);
    PendingIsApart(run[n]);
    var s := run[n];
    forall q, r | 0 <= q < |s.answered| && 0 <= r < |s.answered|
      ensures s.answered[q].at <= s.answered[r].invoked ==> s.answered[q].entry < s.answered[r].entry
      ensures q < r ==> s.answered[q].entry != s.answered[r].entry
    {
      assert ReturnInv(s, s.answered[q]) && ReturnInv(s, s.answered[r]);
    }
  }

  /** The counter as a sum */

  predicate Stores(op: Op) {
    op.Exchange? || op.Init? || op.Set?
  }

  // By how much a call that stores no value of its own moves the counter, from its operation and result.
  function Moves(op: Op, result: u64): u64 {
    match op
    case Add(inc) => inc
    case AddReturn(inc) => inc
    case Sub(dec) => Minus64(0, dec)
    case SubReturn(dec) => Minus64(0, dec)
    case TestAndSet => result
    case _ => 0
  }

  function Amount(e: Event): u64 {
    Moves(e.op, e.result)
  }

  function Total(log: seq<Event>, lo: nat, hi: nat): nat
    requires lo <= hi <= |log|
    decreases hi
  {
    if lo == hi then 0 else Total(log, lo, hi - 1) + Amount(log[hi - 1])
  }

  lemma {:induction false} AmountMoves(e: Event)
    requires !Stores(e.op) && e.result == Result(e.op, e.before)
    ensures After(e.op, e.before) == Plus64(e.before, Amount(e))
  {
  }

  lemma {:induction false} SumStep(x: nat, e: Event)
    requires !Stores(e.op) && e.result == Result(e.op, e.before) && e.before == Wrap64(x)
    ensures After(e.op, e.before) == Wrap64(x + Amount(e))
  {
    AmountMoves(e);
    Wrap64Plus(x, Amount(e));
  }

  // Over any stretch without a store the counter moves by everything added and subtracted, mod 2^64.
  lemma {:induction false} CounterIsSum(s: Machine, lo: nat, hi: nat)
    requires Sequential(s) && lo <= hi <= |s.log|
    requires forall k :: lo <= k < hi ==> !Stores(s.log[k].op)
    ensures CounterAt(s, hi) == Wrap64(CounterAt(s, lo) + Total(s.log, lo, hi))
    decreases hi
  {
    if lo == hi {
      Wrap64Small(CounterAt(s, lo));
    } else {
      CounterIsSum(s, lo, hi - 1);
      assert OneStep(s, hi - 1);
      SumStep(CounterAt(s, lo) + Total(s.log, lo, hi - 1), s.log[hi - 1]);
    }
  }

  // The argument of a call that stores one.
  function Stored(op: Op): u64
    requires Stores(op)
  {
    if op.Set? then op.newValue else if op.Exchange? then op.val else 0
  }

  lemma {:induction false} SumSinceStore(s: Machine, m: nat)
    requires Sequential(s) && m < |s.log| && Stores(s.log[m].op)
    requires forall k :: m < k < |s.log| ==> !Stores(s.log[k].op)
    ensures s.cnt == Wrap64(Stored(s.log[m].op) + Total(s.log, m + 1, |s.log|))
  {
    CounterIsSum(s, m + 1, |s.log|);
    assert OneStep(s, m);
  }

  /** The sum is that of the calls */

  // What the calls that took effect from entry lo on move the counter by: those that have returned ...
  function ReturnedTotal(rs: seq<Return>, lo: nat): nat
    decreases |rs|
  {
    if rs == [] then 0
    else
      var r := rs[|rs| - 1];
      ReturnedTotal(rs[..|rs| - 1], lo) + if r.entry >= lo then Moves(r.op, r.result) else 0
  }

  // ... and those that are about to.
  function Pending(th: Thread, lo: nat): nat {
    if th.Finished? && th.entry >= lo then Moves(th.op, th.result) else 0
  }

  function PendingTotal(ths: seq<Thread>, lo: nat): nat
    decreases |ths|
  {
    if ths == [] then 0 else PendingTotal(ths[..|ths| - 1], lo) + Pending(ths[|ths| - 1], lo)
  }

  function CallsTotal(s: Machine, lo: nat): nat {
    ReturnedTotal(s.answered, lo) + PendingTotal(s.threads, lo)
  }

  function LogTotal(s: Machine, lo: nat): nat {
    if lo <= |s.log| then Total(s.log, lo, |s.log|) else 0
  }

  lemma {:induction false} PendingAfter(ths: seq<Thread>, t: nat, th: Thread, lo: nat)
    requires t < |ths|
    ensures PendingTotal(ths[t := th], lo) + Pending(ths[t], lo) == PendingTotal(ths, lo) + Pending(th, lo)
    decreases |ths|
  {
    hide Pending;
    var n, m := ths[t := th], |ths| - 1;
    if t == m {
      assert n[..m] == ths[..m];
    } else {
      assert n[..m] == ths[..m][t := th];
      PendingAfter(ths[..m], t, th, lo);
    }
  }

  lemma {:induction false} TotalOfLonger(log: seq<Event>, e: Event, lo: nat, hi: nat)
    requires lo <= hi <= |log|
    ensures Total(log + [e], lo, hi) == Total(log, lo, hi)
    decreases hi
  {
    if lo < hi {
      TotalOfLonger(log, e, lo, hi - 1);
    }
  }

  lemma {:induction false} StepTotals(s: Machine, a: Step, lo: nat)
    requires Enabled(s, a)
    ensures CallsTotal(Next(s, a), lo) - CallsTotal(s, lo) == LogTotal(Next(s, a), lo) - LogTotal(s, lo)
  {
    var n, t := Next(s, a), a.t;
    PendingAfter(s.threads, t, n.threads[t], lo);
    assert n.threads == s.threads[t := n.threads[t]];
    if |n.log| > |s.log| {
      assert n.log == s.log + [n.log[|s.log|]];
      if lo <= |s.log| {
        TotalOfLonger(s.log, n.log[|s.log|], lo, |s.log|);
      }
    }
    if a.Leave? {
      assert n.answered[..|s.answered|] == s.answered;
    }
  }

  lemma {:induction false} NothingPending(ths: seq<Thread>, lo: nat)
    requires forall t :: 0 <= t < |ths| ==> ths[t].Idle?
    ensures PendingTotal(ths, lo) == 0
    decreases |ths|
  {
    if ths != [] {
      NothingPending(ths[..|ths| - 1], lo);
    }
  }

  lemma {:induction false} RunTotals(run: seq<Machine>, steps: seq<Step>, n: nat, lo: nat)
    requires IsRun(run, steps) && n < |run|
    ensures CallsTotal(run[n], lo) == LogTotal(run[n], lo)
    decreases n
  {
    if n == 0 {
      NothingPending(run[0].threads, lo);
    } else {
      RunTotals(run, steps, n - 1, lo);
      assert Enabled(run[n - 1], steps[n - 1]) && run[n] == Next(run[n - 1], steps[n - 1]);
      StepTotals(run[n - 1], steps[n - 1], lo);
    }
  }

  // In every state of every run the counter is the argument of the last set or exchange, or 0 if an init is
  // the last to store, plus everything that the calls since then have added and subtracted, each once,
  // mod 2^64.
  lemma {:induction false} CounterSinceLastStore(run: seq<Machine>, steps: seq<Step>, n: nat, m: nat)
    requires IsRun(run, steps) && n < |run| && m < |run[n].log| && Stores(run[n].log[m].op)
    requires forall k :: m < k < |run[n].log| ==> !Stores(run[n].log[k].op)
    ensures var op := run[n].log[m].op;
            var stored := if op.Set? then op.newValue else if op.Exchange? then op.val else 0;
            run[n].cnt == Wrap64(stored + CallsTotal(run[n], m + 1))
  {
    RunInv(run, steps, n);
    SumSinceStore(run[n], m);
    RunTotals(run, steps, n, m + 1);
  }

  // Without any store it is the initial value plus everything the calls have added and subtracted.
  lemma {:induction false} CounterWithoutStores(run: seq<Machine>, steps: seq<Step>, n: nat)
    requires IsRun(run, steps) && n < |run|
    requires forall k :: 0 <= k < |run[n].log| ==> !Stores(run[n].log[k].op)
    ensures run[n].cnt == Wrap64(run[0].initial + CallsTotal(run[n], 0))
  {
    RunInv(run, steps, n);
    SameInitial(run, steps, n);
    CounterIsSum(run[n], 0, |run[n].log|);
    RunTotals(run, steps, n, 0);
  }

  lemma {:induction false} SameInitial(run: seq<Machine>, steps: seq<Step>, n: nat)
    requires IsRun(run, steps) && n < |run|
    ensures run[n].initial == run[0].initial
    decreases n
  {
    if n > 0 {
      SameInitial(run, steps, n - 1);
      assert Enabled(run[n - 1], steps[n - 1]) && run[n] == Next(run[n - 1], steps[n - 1]);
    }
  }

  // So N returned calls of add(1), and nothing else, leave the counter N higher.
  lemma {:induction false} AddsOfOne(run: seq<Machine>, steps: seq<Step>, n: nat)
    requires IsRun(run, steps) && n < |run|
    requires forall t :: 0 <= t < |run[n].threads| ==> run[n].threads[t].Idle?
    requires forall r :: 0 <= r < |run[n].answered| ==> run[n].answered[r].op == Add(1)
    ensures run[n].cnt == Wrap64(run[0].initial + |run[n].answered|)
  {
    var s := run[n];
    RunInv(run, steps, n);
    RunCalls(run, steps, n);
    forall k | 0 <= k < |s.log|
      ensures !Stores(s.log[k].op)
    {
      assert HasCall(s, k);
      var r :| 0 <= r < |s.answered| && s.answered[r].entry == k;
      assert ReturnInv(s, s.answered[r]);
    }
    CounterWithoutStores(run, steps, n);
    NothingPending(s.threads, 0);
    OnesTotal(s.answered);
  }

  lemma {:induction false} OnesTotal(rs: seq<Return>)
    requires forall r :: 0 <= r < |rs| ==> rs[r].op == Add(1)
    ensures ReturnedTotal(rs, 0) == |rs|
    decreases |rs|
  {
    if rs != [] {
      OnesTotal(rs[..|rs| - 1]);
    }
  }

  /** How often a loop can fail */

  // The operations of other threads among the first hi of the log that changed the counter.
  function OthersChanges(log: seq<Event>, t: nat, hi: nat): nat
    requires hi <= |log|
    decreases hi
  {
    if hi == 0 then 0
    else OthersChanges(log, t, hi - 1) + if log[hi - 1].thread != t && Changes(log[hi - 1]) then 1 else 0
  }

  // The failed retries of thread t in the first n steps.
  function Failures(run: seq<Machine>, steps: seq<Step>, n: nat, t: nat): nat
    requires |run| == |steps| + 1 && n <= |steps|
    decreases n
  {
    if n == 0 then 0 else Failures(run, steps, n - 1, t) + if Fails(run[n - 1], steps[n - 1], t) then 1 else 0
  }

  predicate Fails(s: Machine, a: Step, t: nat) {
    a == Cas(t) && t < |s.threads| && s.threads[t].Loaded? && s.cnt != s.threads[t].tmp
  }

  lemma {:induction false} ChangesGrow(log: seq<Event>, t: nat, lo: nat, hi: nat)
    requires lo <= hi <= |log|
    ensures OthersChanges(log, t, lo) <= OthersChanges(log, t, hi) <= OthersChanges(log, t, lo) + (hi - lo)
    ensures (exists k: nat :: lo <= k < hi && Changes(log[k]) && log[k].thread != t) ==>
      OthersChanges(log, t, lo) < OthersChanges(log, t, hi)
    decreases hi
  {
    if lo < hi {
      ChangesGrow(log, t, lo, hi - 1);
    }
  }

  lemma {:induction false} ChangesKept(log: seq<Event>, e: Event, t: nat, hi: nat)
    requires hi <= |log|
    ensures OthersChanges(log + [e], t, hi) == OthersChanges(log, t, hi)
    decreases hi
  {
    if hi > 0 {
      ChangesKept(log, e, t, hi - 1);
    }
  }

  // Where thread t's present attempt began, or the end of the log between attempts.
  function Began(s: Machine, t: nat): nat
    requires t < |s.threads|
  {
    var th := s.threads[t];
    if th.HalfLoaded? || th.Loaded? then th.since else |s.log|
  }

  lemma {:induction false} BeganInside(s: Machine, t: nat)
    requires Inv(s) && t < |s.threads|
    ensures Began(s, t) <= |s.log|
  {
    assert ThreadInv(s, t);
  }

  // A step leaves the changes before the attempt's beginning, and a failure is paid for by one more.
  lemma {:induction false} FailureIsPaid(s: Machine, a: Step, t: nat)
    requires Inv(s) && Enabled(s, a) && t < |s.threads|
    ensures Began(s, t) <= |s.log|
    ensures var n := Next(s, a);
            t < |n.threads| && Began(n, t) <= |n.log|
            && OthersChanges(s.log, t, Began(s, t)) + (if Fails(s, a, t) then 1 else 0)
               <= OthersChanges(n.log, t, Began(n, t))
  {
    var n := Next(s, a);
    assert ThreadInv(s, t);
    BeganInside(s, t);
    if |n.log| > |s.log| {
      var e := n.log[|s.log|];
      assert n.log == s.log + [e];
      ChangesKept(s.log, e, t, Began(s, t));
      ChangesGrow(n.log, t, Began(s, t), |n.log|);
    } else {
      assert n.log == s.log;
      ChangesGrow(s.log, t, Began(s, t), |s.log|);
    }
  }

  // In every run a thread fails at most as often as other threads' operations have changed the counter.
  lemma {:induction false} FailuresBounded(run: seq<Machine>, steps: seq<Step>, n: nat, t: nat)
    requires IsRun(run, steps) && n < |run| && t < |run[n].threads|
    ensures Failures(run, steps, n, t) <= OthersChanges(run[n].log, t, |run[n].log|) <= |run[n].log|
  {
    RunInv(run, steps, n);
    FailuresPaid(run, steps, n, t);
    BeganInside(run[n], t);
    ChangesGrow(run[n].log, t, Began(run[n], t), |run[n].log|);
    ChangesGrow(run[n].log, t, 0, |run[n].log|);
  }

  lemma {:induction false} FailuresPaid(run: seq<Machine>, steps: seq<Step>, n: nat, t: nat)
    requires IsRun(run, steps) && n < |run| && t < |run[n].threads|
    ensures Began(run[n], t) <= |run[n].log|
    ensures Failures(run, steps, n, t) <= OthersChanges(run[n].log, t, Began(run[n], t))
    decreases n
  {
    if n == 0 {
      assert run[0].threads[t].Idle?;
    } else {
      assert Enabled(run[n - 1], steps[n - 1]) && run[n] == Next(run[n - 1], steps[n - 1]);
      RunInv(run, steps, n - 1);
      FailuresPaid(run, steps, n - 1, t);
      FailureIsPaid(run[n - 1], steps[n - 1], t);
    }
  }
}
