/**
 The retry loops of include/rte_atomic_32.h as one thread runs them, while other threads store into the
 counter at the points between its accesses to memory.
 */
module AtomicLoop {
  import opened Common
  import opened Words
  import opened Atomic64

  // The values that a script of other threads' actions stores.
  function Values(script: seq<Option<u64>>): seq<u64>
    decreases |script|
  {
    if script == [] then []
    else (if script[0].Some? then [script[0].value] else []) + Values(script[1..])
  }

  class Counter {
    var cnt: u64
    // What the other threads still do at this thread's next accesses: store a value, or nothing.
    var others: seq<Option<u64>>
    // Every value the counter has held, in order, the present one last.
    ghost var held: seq<u64>

    ghost predicate Valid()
      reads this
    {
      held != [] && held[|held| - 1] == cnt
    }

    constructor (value: u64, script: seq<Option<u64>>)
      ensures Valid() && cnt == value && others == script && held == [value]
    {
      cnt, others, held := value, script, [value];
    }

    // The values held so far and still to come if this thread stores no more.
    ghost function Course(): seq<u64>
      reads this
    {
      held + Values(others)
    }

    method Interfere()
      requires Valid()
      modifies this
      ensures Valid() && Course() == old(Course()) && old(held) <= held
      ensures |others| == if |old(others)| == 0 then 0 else |old(others)| - 1
    {
      if others != [] {
        var next := others[0];
        others := others[1..];
        if next.Some? {
          cnt := next.value;
          held := held + [next.value];
          assert old(held) + ([next.value] + Values(others)) == held + Values(others);
        }
      }
    }

    // The plain load of a 64-bit word: two loads of 32 bits.
    method Load() returns (tmp: u64)
      requires Valid()
      modifies this
      ensures Valid() && Course() == old(Course()) && old(held) <= held
      ensures |others| == if |old(others)| == 0 then 0 else |old(others)| - 1
      ensures |old(others)| == 0 ==> tmp == cnt
    {
      var low := Half(cnt, true);
      Interfere();
      tmp := Join(low, Half(cnt, false));
      JoinHalves(cnt);
    }

    // The compare-and-swap: one access that compares with what the counter holds at that moment.
    method CmpSet(exp: u64, src: u64) returns (success: bool)
      requires Valid()
      modifies this
      ensures Valid() && |others| <= |old(others)|
      ensures !success ==> Course() == old(Course()) && old(held) <= held && cnt != exp
      ensures success ==>
        && |held| >= 2 && old(held) <= held[..|held| - 1] && held[|held| - 2] == exp && cnt == src
        && held[..|held| - 1] + Values(others) == old(Course())
      ensures |old(others)| == 0 ==> (success <==> old(cnt) == exp)
    {
      Interfere();
      success := cnt == exp;
      if success {
        cnt := src;
        held := held + [src];
        assert held[..|held| - 1] + Values(others) == old(Course());
      }
    }

    // Every operation but test-and-set: load, and compare-and-swap until that succeeds. It ends once the
    // others leave the counter alone. Its one store puts what the operation is specified to leave after
    // the very value held just before, and returns what the operation returns for it; all other values
    // held meanwhile are the others' own, whatever the loads have seen.
    method Perform(op: Op) returns (result: u64)
      requires Valid() && !op.TestAndSet?
      modifies this
      ensures Valid() && |held| >= 2 && old(held) <= held[..|held| - 1]
      ensures cnt == After(op, held[|held| - 2]) && result == Result(op, held[|held| - 2])
      ensures Meant(op, held[|held| - 2], cnt, result)
      ensures held[..|held| - 1] + Values(others) == old(Course())
    {
      var success := false;
      var tmp: u64 := 0;
      while !success
        invariant Valid()
        invariant !success ==> Course() == old(Course()) && old(held) <= held
        invariant success ==>
          && |held| >= 2 && old(held) <= held[..|held| - 1] && held[|held| - 2] == tmp && cnt == NewValue(op, tmp)
          && held[..|held| - 1] + Values(others) == old(Course())
        decreases !success, |others|
      {
        tmp := Load();
        success := CmpSet(tmp, NewValue(op, tmp));
      }
      LoopComputesOp(op, tmp);
      result := Returned(op, tmp);
    }
  }
}
