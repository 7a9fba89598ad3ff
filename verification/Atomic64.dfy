/**
 The 64-bit atomics of include/rte_atomic_32.h: any number of threads run load-then-compare-and-swap
 loops on one counter. A plain 64-bit load is two 32-bit loads, in either order, so the value a loop
 works with may never have been the counter's; only the compare-and-swap is atomic. The specification
 is the one-step behaviour of include/rte_atomic_64.h.
 */
module Atomic64 {
  import opened Words

  /** The operations, as one step on the counter */

  datatype Op =
    | Exchange(val: u64)
    | Init
    | Read
    | Set(newValue: u64)
    | Add(inc: u64)
    | Sub(dec: u64)
    | AddReturn(inc: u64)
    | SubReturn(dec: u64)
    | TestAndSet

  // The counter after the operation; subtracting is adding the negated amount. Unsigned 64-bit arithmetic
  // is also that of int64_t in two's complement.
  function After(op: Op, v: u64): u64 {
    match op
    case Exchange(val) => val
    case Init => 0
    case Read => v
    case Set(x) => x
    case Add(inc) => Plus64(v, inc)
    case Sub(dec) => Plus64(v, Minus64(0, dec))
    case AddReturn(inc) => Plus64(v, inc)
    case SubReturn(dec) => Plus64(v, Minus64(0, dec))
    case TestAndSet => if v == 0 then 1 else v
  }

  // What it returns; 0 where it returns nothing.
  function Result(op: Op, v: u64): u64 {
    match op
    case Exchange(_) => v
    case Read => v
    case AddReturn(inc) => Plus64(v, inc)
    case SubReturn(dec) => Plus64(v, Minus64(0, dec))
    case TestAndSet => if v == 0 then 1 else 0
    case _ => 0
  }

  // What an operation promises its caller about the counter before and after it and the value returned.
  predicate Meant(op: Op, before: u64, after: u64, result: u64) {
    match op
    case Exchange(val) => after == val && result == before
    case Init => after == 0
    case Read => after == before && result == before
    case Set(x) => after == x
    case Add(inc) => after == Wrap64(before + inc)
    case Sub(dec) => after == Wrap64(before - dec)
    case AddReturn(inc) => after == Wrap64(before + inc) && result == after
    case SubReturn(dec) => after == Wrap64(before - dec) && result == after
    case TestAndSet => if before == 0 then after == 1 && result == 1 else after == before && result == 0
  }

  lemma {:induction false} OpIsMeant(op: Op, v: u64)
    ensures Meant(op, v, After(op, v), Result(op, v))
  {
    hide Wrap64;
    Wrap64Small(v);
    match op
    case Add(inc) => Wrap64Plus(v, inc);
    case Sub(dec) => Wrap64Plus(v, dec);
    case AddReturn(inc) => Wrap64Plus(v, inc);
    case SubReturn(dec) => Wrap64Plus(v, dec);
    case _ =>
  }

  /** The loops */

  // The third argument of the loop's compare-and-swap, from the value loaded.
  function NewValue(op: Op, tmp: u64): u64 {
    match op
    case Exchange(val) => val
    case Init => 0
    case Read => tmp
    case Set(x) => x
    case Add(inc) => Plus64(tmp, inc)
    case Sub(dec) => Minus64(tmp, dec)
    case AddReturn(inc) => Plus64(tmp, inc)
    case SubReturn(dec) => Minus64(tmp, dec)
    case TestAndSet => 1
  }

  // What the function returns once its compare-and-swap has succeeded.
  function Returned(op: Op, tmp: u64): u64 {
    match op
    case Exchange(_) => tmp
    case Read => tmp
    case AddReturn(inc) => Plus64(tmp, inc)
    case SubReturn(dec) => Minus64(tmp, dec)
    case TestAndSet => 1
    case _ => 0
  }

  lemma {:induction false} LoopComputesOp(op: Op, v: u64)
    requires op.TestAndSet? ==> v == 0
    ensures NewValue(op, v) == After(op, v) && Returned(op, v) == Result(op, v)
    ensures Meant(op, v, NewValue(op, v), Returned(op, v))
  {
    OpIsMeant(op, v);
  }

  // Each call carries the time it was made, and a load how many operations had taken effect when it
  // began: history that no step depends on.
  datatype Thread =
    | Idle
    | Calling(op: Op, invoked: nat)
    | HalfLoaded(op: Op, invoked: nat, low: bool, half: u32, since: nat)
    | Loaded(op: Op, invoked: nat, tmp: u64, since: nat)
    | Finished(op: Op, invoked: nat, result: u64, entry: nat)

  // An operation that has taken effect: the counter before it, what it will return, and when.
  datatype Event = Event(thread: nat, op: Op, before: u64, result: u64, invoked: nat, at: nat)

  // A call that has returned, and the event in which it took effect.
  datatype Return = Return(thread: nat, op: Op, result: u64, invoked: nat, at: nat, entry: nat)

  datatype Machine = Machine(
    cnt: u64, threads: seq<Thread>,
    initial: u64, clock: nat, log: seq<Event>, answered: seq<Return>)

  ghost predicate Initial(s: Machine) {
    && s.cnt == s.initial && s.log == [] && s.answered == []
    && forall t :: 0 <= t < |s.threads| ==> s.threads[t].Idle?
  }

  datatype Step =
    | Call(t: nat, op: Op)
    | LoadFirstHalf(t: nat, low: bool)
    | LoadOtherHalf(t: nat)
    | Cas(t: nat)
    | Leave(t: nat)

  function Half(x: u64, low: bool): u32 {
    if low then x % TWO_32 else x / TWO_32
  }

  function Join(low: u32, high: u32): u64 {
    high * TWO_32 + low
  }

  predicate Enabled(s: Machine, a: Step) {
    && a.t < |s.threads|
    && var th := s.threads[a.t];
    match a
    case Call(_, _) => th.Idle?
    case LoadFirstHalf(_, _) => th.Calling? && !th.op.TestAndSet?
    case LoadOtherHalf(_) => th.HalfLoaded?
    case Cas(_) => th.Loaded? || (th.Calling? && th.op.TestAndSet?)
    case Leave(_) => th.Finished?
  }

  // The value a compare-and-swap expects: what was loaded, or 0 in test-and-set, which loads nothing.
  function Expected(th: Thread): u64
    requires th.Loaded? || th.Calling?
  {
    if th.Loaded? then th.tmp else 0
  }

  function TakeEffect(s: Machine, t: nat, op: Op, invoked: nat, cnt: u64, result: u64): Machine
    requires t < |s.threads|
  {
    s.(cnt := cnt,
       threads := s.threads[t := Finished(op, invoked, result, |s.log|)],
       log := s.log + [Event(t, op, s.cnt, result, invoked, s.clock)],
       clock := s.clock + 1)
  }

  function Next(s: Machine, a: Step): Machine
    requires Enabled(s, a)
  {
    var t, th := a.t, s.threads[a.t];
    match a
    case Call(_, op) =>
      s.(threads := s.threads[t := Calling(op, s.clock)], clock := s.clock + 1)
    case LoadFirstHalf(_, low) =>
      s.(threads := s.threads[t := HalfLoaded(th.op, th.invoked, low, Half(s.cnt, low), |s.log|)],
         clock := s.clock + 1)
    case LoadOtherHalf(_) =>
      var other := Half(s.cnt, !th.low);
      var tmp := if th.low then Join(th.half, other) else Join(other, th.half);
      s.(threads := s.threads[t := Loaded(th.op, th.invoked, tmp, th.since)], clock := s.clock + 1)
    case Cas(_) =>
      if s.cnt == Expected(th) then
        TakeEffect(s, t, th.op, th.invoked, NewValue(th.op, Expected(th)), Returned(th.op, Expected(th)))
      else if th.op.TestAndSet? then
        // test-and-set does not retry: it reports failure
        TakeEffect(s, t, th.op, th.invoked, s.cnt, 0)
      else
        s.(threads := s.threads[t := Calling(th.op, th.invoked)], clock := s.clock + 1)
    case Leave(_) =>
      s.(threads := s.threads[t := Idle],
         answered := s.answered + [Return(t, th.op, th.result, th.invoked, s.clock, th.entry)],
         clock := s.clock + 1)
  }

  /** The invariant */

  // The counter after the first k operations of the log.
  function CounterAt(s: Machine, k: nat): u64
    requires k <= |s.log|
  {
    if k < |s.log| then s.log[k].before else s.cnt
  }

  // Entry k is its operation done in one step.
  ghost predicate OneStep(s: Machine, k: nat)
    requires k < |s.log|
  {
    && CounterAt(s, k + 1) == After(s.log[k].op, CounterAt(s, k))
    && s.log[k].result == Result(s.log[k].op, CounterAt(s, k))
  }

  // The log is a sequential history: every operation finds the counter its predecessors left, the last
  // one leaves the counter there is, and each returns what it returns in one step.
  ghost predicate Sequential(s: Machine) {
    && CounterAt(s, 0) == s.initial
    && forall k: nat :: k < |s.log| ==> OneStep(s, k)
  }

  ghost predicate Ordered(s: Machine) {
    && (forall k :: 0 <= k < |s.log| ==> s.log[k].invoked < s.log[k].at < s.clock)
    && (forall j, k :: 0 <= j < k < |s.log| ==> s.log[j].at < s.log[k].at)
  }

  predicate Changes(e: Event) {
    After(e.op, e.before) != e.before
  }

  // Since the first `since` operations another thread has changed the counter.
  ghost predicate ChangedByOther(log: seq<Event>, since: nat, t: nat) {
    exists k: nat :: since <= k < |log| && Changes(log[k]) && log[k].thread != t
  }

  ghost predicate NoneSince(log: seq<Event>, since: nat, t: nat) {
    since <= |log| && forall k: nat :: since <= k < |log| ==> log[k].thread != t
  }

  ghost predicate ThreadInv(s: Machine, t: nat)
    requires t < |s.threads|
  {
    match s.threads[t]
    case Idle => true
    case Calling(_, invoked) => invoked < s.clock
    case HalfLoaded(op, invoked, low, half, since) =>
      && invoked < s.clock && !op.TestAndSet? && NoneSince(s.log, since, t)
      && (half == Half(s.cnt, low) || ChangedByOther(s.log, since, t))
    case Loaded(op, invoked, tmp, since) =>
      && invoked < s.clock && !op.TestAndSet? && NoneSince(s.log, since, t)
      && (tmp == s.cnt || ChangedByOther(s.log, since, t))
    case Finished(op, invoked, result, entry) =>
      && entry < |s.log|
      && s.log[entry].thread == t && s.log[entry].op == op && s.log[entry].result == result
      && s.log[entry].invoked == invoked
      && forall r :: 0 <= r < |s.answered| && s.answered[r].thread == t ==> s.answered[r].entry < entry
  }

  // A call that has returned took effect in between and returned what that effect says.
  ghost predicate ReturnInv(s: Machine, r: Return) {
    && r.entry < |s.log|
    && var e := s.log[r.entry];
    e.thread == r.thread && e.op == r.op && e.result == r.result && e.invoked == r.invoked
    && r.invoked < e.at < r.at < s.clock
  }

  ghost predicate ReturnsInv(s: Machine) {
    && (forall r :: 0 <= r < |s.answered| ==> ReturnInv(s, s.answered[r]))
    && (forall q, r :: 0 <= q < r < |s.answered| && s.answered[q].thread == s.answered[r].thread ==>
          s.answered[q].entry < s.answered[r].entry)
  }

  ghost predicate Inv(s: Machine) {
    && Sequential(s)
    && Ordered(s)
    && ReturnsInv(s)
    && forall t: nat :: t < |s.threads| ==> ThreadInv(s, t)
  }

  lemma {:induction false} JoinHalves(x: u64)
    ensures Join(Half(x, true), Half(x, false)) == x
  {
  }

  lemma {:induction false} ChangedGrows(log: seq<Event>, e: Event, since: nat, t: nat)
    requires ChangedByOther(log, since, t)
    ensures ChangedByOther(log + [e], since, t)
  {
    var k: nat :| since <= k < |log| && Changes(log[k]) && log[k].thread != t;
    assert (log + [e])[k] == log[k];
  }

  // The machine after operation op of thread t has taken effect in one step.
  ghost function Effect(s: Machine, t: nat, op: Op, invoked: nat): Machine
    requires t < |s.threads|
  {
    TakeEffect(s, t, op, invoked, After(op, s.cnt), Result(op, s.cnt))
  }

  // An operation taking effect: whoever is loading meanwhile either still sees the counter or has been
  // overtaken by it.
  lemma {:induction false} OthersAfterEffect(s: Machine, t: nat, u: nat, op: Op, invoked: nat)
    requires Inv(s) && t < |s.threads| && u < |s.threads| && t != u
    ensures ThreadInv(Effect(s, t, op, invoked), u)
  {
    var n := Effect(s, t, op, invoked);
    var e := n.log[|s.log|];
    assert ThreadInv(s, u);
    assert n.threads[u] == s.threads[u];
    match s.threads[u] {
      case HalfLoaded(_, _, low, half, since) =>
        if ChangedByOther(s.log, since, u) {
          ChangedGrows(s.log, e, since, u);
        } else if n.cnt != s.cnt {
          assert Changes(n.log[|s.log|]);
        }
      case Loaded(_, _, tmp, since) =>
        if ChangedByOther(s.log, since, u) {
          ChangedGrows(s.log, e, since, u);
        } else if n.cnt != s.cnt {
          assert Changes(n.log[|s.log|]);
        }
      case _ =>
    }
  }

  lemma {:induction false} EffectSequential(s: Machine, t: nat, op: Op, invoked: nat)
    requires Sequential(s) && t < |s.threads|
    ensures Sequential(Effect(s, t, op, invoked))
  {
    var n := Effect(s, t, op, invoked);
    forall k: nat | k < |n.log|
      ensures OneStep(n, k)
    {
      if k < |s.log| {
        assert OneStep(s, k);
      }
    }
  }

  lemma {:induction false} EffectReturns(s: Machine, t: nat, op: Op, invoked: nat)
    requires ReturnsInv(s) && t < |s.threads|
    ensures ReturnsInv(Effect(s, t, op, invoked))
  {
    var n := Effect(s, t, op, invoked);
    forall r | 0 <= r < |n.answered|
      ensures ReturnInv(n, n.answered[r])
    {
      assert ReturnInv(s, s.answered[r]);
    }
  }

  lemma {:induction false} EffectThread(s: Machine, t: nat, op: Op, invoked: nat)
    requires ReturnsInv(s) && t < |s.threads|
    ensures ThreadInv(Effect(s, t, op, invoked), t)
  {
    forall r | 0 <= r < |s.answered|
      ensures s.answered[r].entry < |s.log|
    {
      assert ReturnInv(s, s.answered[r]);
    }
  }

  lemma {:induction false} EffectInv(s: Machine, t: nat, op: Op, invoked: nat)
    requires Inv(s) && t < |s.threads| && invoked < s.clock
    ensures Inv(Effect(s, t, op, invoked))
  {
    var n := Effect(s, t, op, invoked);
    EffectSequential(s, t, op, invoked);
    EffectReturns(s, t, op, invoked);
    EffectThread(s, t, op, invoked);
    forall u: nat | u < |n.threads|
      ensures ThreadInv(n, u)
    {
      if u != t {
        OthersAfterEffect(s, t, u, op, invoked);
      }
    }
    assert Ordered(n);
  }

  lemma {:induction false} SameHistory(s: Machine, n: Machine)
    requires Sequential(s) && n.log == s.log && n.cnt == s.cnt && n.initial == s.initial
    ensures Sequential(n)
  {
    forall k: nat | k < |n.log|
      ensures OneStep(n, k)
    {
      assert OneStep(s, k);
    }
  }

  // A step of one thread that changes neither the counter nor the log.
  lemma {:induction false} LocalInv(s: Machine, t: nat, th: Thread)
    requires Inv(s) && t < |s.threads|
    requires ThreadInv(s.(threads := s.threads[t := th], clock := s.clock + 1), t)
    ensures Inv(s.(threads := s.threads[t := th], clock := s.clock + 1))
  {
    var n := s.(threads := s.threads[t := th], clock := s.clock + 1);
    SameHistory(s, n);
    forall r | 0 <= r < |n.answered|
      ensures ReturnInv(n, n.answered[r])
    {
      assert ReturnInv(s, s.answered[r]);
    }
    forall u: nat | u < |n.threads|
      ensures ThreadInv(n, u)
    {
      if u != t {
        assert ThreadInv(s, u);
      }
    }
  }

  lemma {:induction false} LeaveReturns(s: Machine, t: nat)
    requires Inv(s) && Enabled(s, Leave(t))
    ensures ReturnsInv(Next(s, Leave(t)))
  {
    var n := Next(s, Leave(t));
    assert ThreadInv(s, t);
    forall r | 0 <= r < |n.answered|
      ensures ReturnInv(n, n.answered[r])
    {
      if r < |s.answered| {
        assert ReturnInv(s, s.answered[r]);
      }
    }
  }

  lemma {:induction false} LeaveInv(s: Machine, t: nat)
    requires Inv(s) && Enabled(s, Leave(t))
    ensures Inv(Next(s, Leave(t)))
  {
    var n := Next(s, Leave(t));
    LeaveReturns(s, t);
    SameHistory(s, n);
    forall u: nat | u < |n.threads|
      ensures ThreadInv(n, u)
    {
      assert ThreadInv(s, u);
    }
  }

  lemma {:induction false} LoadInv(s: Machine, t: nat)
    requires Inv(s) && Enabled(s, LoadOtherHalf(t))
    ensures Inv(Next(s, LoadOtherHalf(t)))
  {
    assert ThreadInv(s, t);
    JoinHalves(s.cnt);
    LocalInv(s, t, Next(s, LoadOtherHalf(t)).threads[t]);
  }

  // A compare-and-swap that finds what it expects is the whole operation in one step, as is a failed
  // test-and-set; any other failure changes nothing.
  lemma {:induction false} CasIsEffect(s: Machine, t: nat)
    requires Inv(s) && Enabled(s, Cas(t))
    ensures var th := s.threads[t];
      Next(s, Cas(t)) == if s.cnt == Expected(th) || th.op.TestAndSet?
        then Effect(s, t, th.op, th.invoked)
        else s.(threads := s.threads[t := Calling(th.op, th.invoked)], clock := s.clock + 1)
  {
    var th := s.threads[t];
    assert ThreadInv(s, t);
    if s.cnt == Expected(th) {
      LoopComputesOp(th.op, s.cnt);
    }
  }

  lemma {:induction false} CasInv(s: Machine, t: nat)
    requires Inv(s) && Enabled(s, Cas(t))
    ensures Inv(Next(s, Cas(t)))
  {
    var th := s.threads[t];
    assert ThreadInv(s, t);
    CasIsEffect(s, t);
    if s.cnt == Expected(th) || th.op.TestAndSet? {
      EffectInv(s, t, th.op, th.invoked);
    } else {
      LocalInv(s, t, Calling(th.op, th.invoked));
    }
  }

  lemma {:induction false} StepInv(s: Machine, a: Step)
    requires Inv(s) && Enabled(s, a)
    ensures Inv(Next(s, a))
  {
    assert ThreadInv(s, a.t);
    match a
    case Call(t, op) => LocalInv(s, t, Calling(op, s.clock));
    case LoadFirstHalf(t, low) => LocalInv(s, t, Next(s, a).threads[t]);
    case LoadOtherHalf(t) => LoadInv(s, t);
    case Cas(t) => CasInv(s, t);
    case Leave(t) => LeaveInv(s, t);
  }

  // Every thread can always go on, whatever the others do, with any call and with either half first.
  lemma {:induction false} NeverStuck(s: Machine, t: nat)
    requires Inv(s) && t < |s.threads|
    ensures match s.threads[t]
            case Idle => forall op :: Enabled(s, Call(t, op))
            case Calling(op, _) =>
              if op.TestAndSet? then Enabled(s, Cas(t)) else forall low :: Enabled(s, LoadFirstHalf(t, low))
            case HalfLoaded(_, _, _, _, _) => Enabled(s, LoadOtherHalf(t))
            case Loaded(_, _, _, _) => Enabled(s, Cas(t))
            case Finished(_, _, _, _) => Enabled(s, Leave(t))
  {
  }

  /** All runs */

  ghost predicate IsRun(run: seq<Machine>, steps: seq<Step>) {
    && |run| == |steps| + 1
    && Initial(run[0])
    && forall i {:trigger steps[i]} :: 0 <= i < |steps| ==>
         Enabled(run[i], steps[i]) && run[i + 1] == Next(run[i], steps[i])
  }

  lemma {:induction false} RunInv(run: seq<Machine>, steps: seq<Step>, n: nat)
    requires IsRun(run, steps) && n < |run|
    ensures Inv(run[n])
    decreases n
  {
    if n > 0 {
      RunInv(run, steps, n - 1);
      StepInv(run[n - 1], steps[n - 1]);
    }
  }

  // Lock-freedom. When a loop's compare-and-swap fails, an operation of another thread has taken effect
  // and changed the counter since this loop began to load.
  lemma {:induction false} FailureMeansProgress(run: seq<Machine>, steps: seq<Step>, n: nat)
    requires IsRun(run, steps) && n < |steps| && steps[n].Cas?
    requires var th := run[n].threads[steps[n].t]; th.Loaded? && run[n].cnt != th.tmp
    ensures var th := run[n].threads[steps[n].t];
      exists k: nat :: th.since <= k < |run[n].log| && run[n].log[k].thread != steps[n].t
        && CounterAt(run[n], k + 1) != CounterAt(run[n], k)
  {
    RunInv(run, steps, n);
    var s, t := run[n], steps[n].t;
    assert ThreadInv(s, t);
    var k: nat :| s.threads[t].since <= k < |s.log| && Changes(s.log[k]) && s.log[k].thread != t;
    assert OneStep(s, k);
  }

  // A run from the initial machine s0 ends in s.
  ghost predicate Reaches(s0: Machine, s: Machine) {
    exists run: seq<Machine>, steps: seq<Step> ::
      IsRun(run, steps) && run[0] == s0 && run[|steps|] == s
  }

  lemma {:induction false} ReachesItself(s0: Machine)
    requires Initial(s0)
    ensures Reaches(s0, s0)
  {
    assert IsRun([s0], []);
  }

  lemma {:induction false} ReachesNext(s0: Machine, s: Machine, a: Step)
    requires Reaches(s0, s) && Enabled(s, a)
    ensures Reaches(s0, Next(s, a))
  {
    var run: seq<Machine>, steps: seq<Step> :| IsRun(run, steps) && run[0] == s0 && run[|steps|] == s;
    var longer := run + [Next(s, a)];
    assert IsRun(longer, steps + [a]);
  }

  // The reader has the low half, the other thread both.
  lemma {:induction false} TornHalfway(s0: Machine)
    requires Initial(s0) && |s0.threads| == 2 && s0.cnt == 0xFFFF_FFFF
    ensures Reaches(s0, s0.(threads := [HalfLoaded(Read, s0.clock, true, 0xFFFF_FFFF, 0),
                                        Loaded(Add(1), s0.clock + 2, 0xFFFF_FFFF, 0)],
                            clock := s0.clock + 5))
  {
    hide Reaches;
    ReachesItself(s0);
    ReachesNext(s0, s0, Call(0, Read));
    var s := Next(s0, Call(0, Read));
    ReachesNext(s0, s, LoadFirstHalf(0, true));
    s := Next(s, LoadFirstHalf(0, true));
    ReachesNext(s0, s, Call(1, Add(1)));
    s := Next(s, Call(1, Add(1)));
    ReachesNext(s0, s, LoadFirstHalf(1, true));
    s := Next(s, LoadFirstHalf(1, true));
    ReachesNext(s0, s, LoadOtherHalf(1));
    JoinHalves(s0.cnt);
    assert Next(s, LoadOtherHalf(1)).threads == [HalfLoaded(Read, s0.clock, true, 0xFFFF_FFFF, 0),
                                                 Loaded(Add(1), s0.clock + 2, 0xFFFF_FFFF, 0)];
  }

  // Torn loads do happen: a reader that takes the low half before, and the high half after, another
  // thread adds 1 to 0xFFFF_FFFF works with a value the counter never had.
  lemma {:induction false} TornLoad(s0: Machine)
    requires Initial(s0) && |s0.threads| == 2 && s0.cnt == 0xFFFF_FFFF
    ensures exists s: Machine ::
      && Reaches(s0, s)
      && |s.threads| == 2 && s.threads[0].Loaded?
      && forall k: nat :: k <= |s.log| ==> CounterAt(s, k) != s.threads[0].tmp
  {
    hide Reaches;
    TornHalfway(s0);
    var s := s0.(threads := [HalfLoaded(Read, s0.clock, true, 0xFFFF_FFFF, 0),
                             Loaded(Add(1), s0.clock + 2, 0xFFFF_FFFF, 0)],
                 clock := s0.clock + 5);
    ReachesNext(s0, s, Cas(1));
    s := Next(s, Cas(1));
    assert s.log == [Event(1, Add(1), 0xFFFF_FFFF, 0, s0.clock + 2, s0.clock + 5)];
    assert s.cnt == TWO_32;
    ReachesNext(s0, s, LoadOtherHalf(0));
    s := Next(s, LoadOtherHalf(0));
    assert s.threads[0].tmp == 0x1_FFFF_FFFF;
  }
}
