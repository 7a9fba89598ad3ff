/**
 The scan of include/rte_bitmap.h as the code runs it, whatever array1 says about empty lines: the line
 being read, then the next marked line, whose read is not checked. It does what BitmapScan asks for when
 the two levels are in step, and otherwise exactly when the marked line is not empty.
 */
module BitmapRawScan {
  import opened Words
  import opened BitmapSpec
  import opened BitmapScan
  import opened BitmapSearch

  // The first marked line in [lo, hi), or hi.
  function FirstMarked(a1: Slabs, lo: nat, hi: nat): (r: nat)
    requires lo <= hi <= |a1| * 64
    ensures lo <= r <= hi && (r < hi ==> Has(a1, r))
    decreases hi - lo
  {
    if lo == hi || Has(a1, lo) then lo else FirstMarked(a1, lo + 1, hi)
  }

  // The next marked line, cyclically, after `line`; |a1| * 64 when there is none.
  function NextMarked(a1: Slabs, line: nat): (r: nat)
    requires line < |a1| * 64
    ensures r <= |a1| * 64 && (r < |a1| * 64 ==> Has(a1, r))
  {
    var r := FirstMarked(a1, line + 1, |a1| * 64);
    if r < |a1| * 64 then r else
      var w := FirstMarked(a1, 0, line + 1);
      if w <= line then w else |a1| * 64
  }

  lemma {:induction false} FirstMarkedIsFirst(a1: Slabs, lo: nat, hi: nat)
    requires lo <= hi <= |a1| * 64
    ensures BitsClear(a1, lo, FirstMarked(a1, lo, hi))
    decreases hi - lo
  {
    if lo < hi && !Has(a1, lo) {
      FirstMarkedIsFirst(a1, lo + 1, hi);
    }
  }

  lemma {:induction false} NextMarkedIsNext(a1: Slabs, line: nat)
    requires line < |a1| * 64
    ensures var l := NextMarked(a1, line);
            if l < |a1| * 64 then NextBit(a1, line, l) else BitsClear(a1, 0, |a1| * 64)
  {
    FirstMarkedIsFirst(a1, line + 1, |a1| * 64);
    FirstMarkedIsFirst(a1, 0, line + 1);
  }

  lemma {:induction false} NextBitIsNextMarked(a1: Slabs, line: nat, found: nat)
    requires line < |a1| * 64 && NextBit(a1, line, found)
    ensures NextMarked(a1, line) == found
  {
    NextMarkedIsNext(a1, line);
  }

  lemma {:induction false} NoBitIsNoneMarked(a1: Slabs, line: nat)
    requires line < |a1| * 64 && BitsClear(a1, 0, |a1| * 64)
    ensures NextMarked(a1, line) == |a1| * 64
  {
  }

  // The line being read has a non-zero slab left.
  predicate FoundInLine(s: State)
    requires s.within < 8 && (s.within != 0 ==> 8 * s.line + 8 <= |s.a2|)
  {
    s.within != 0 && ReadAnswer(s.a2, 8 * s.line + s.within, 8 * s.line + 8).Found?
  }

  // The new state, whether the scan claims to have found something, and what it writes.
  type Outcome = (State, bool, Answer)

  // What follows when the line being read has nothing left: l is the next marked line. If that line is
  // empty, the scan claims success and writes nothing.
  function Elsewhere(s: State, l: nat): Outcome
    requires 0 < |s.a1| && (l < |s.a1| * 64 ==> 8 * l + 8 <= |s.a2|)
  {
    if l >= |s.a1| * 64 then (s.(line := NextIndex(s.line / 64, |s.a1|) * 64, within := 0), false, Empty)
    else
      (s.(line := l, within := ReadIndex(s.a2, 8 * l, 8 * l + 8) % 8), true, ReadAnswer(s.a2, 8 * l, 8 * l + 8))
  }

  function RawScan(s: State): Outcome
    requires 0 < |s.a1| && s.line < |s.a1| * 64 && |s.a2| % 8 == 0
    requires s.within < 8 && (s.within != 0 ==> 8 * s.line + 8 <= |s.a2|)
    requires forall l: nat :: l < |s.a1| * 64 && Has(s.a1, l) ==> l < |s.a2| / 8
  {
    if FoundInLine(s) then
      var i := 8 * s.line + s.within;
      (s.(within := ReadIndex(s.a2, i, 8 * s.line + 8) % 8), true, ReadAnswer(s.a2, i, 8 * s.line + 8))
    else Elsewhere(s, NextMarked(s.a1, s.line))
  }

  lemma {:induction false} MarkedCanScan(s: State)
    requires Marked(s)
    ensures 0 < |s.a1|
    ensures var l := NextMarked(s.a1, s.line); l < |s.a1| * 64 ==> 8 * l + 8 <= |s.a2|
  {
  }

  lemma {:induction false} RawScanKeepsMarked(s: State)
    requires Marked(s)
    ensures Marked(RawScan(s).0) && RawScan(s).0.a1 == s.a1 && RawScan(s).0.a2 == s.a2
  {
    MarkedCanScan(s);
    var l := NextMarked(s.a1, s.line);
    if l < |s.a1| * 64 {
      ReadIndexInLine(s.a2, l, 8 * l);
    }
    if s.within != 0 {
      ReadIndexInLine(s.a2, s.line, 8 * s.line + s.within);
    }
  }

  // The next marked line is one the scan may go to: there is none, or it holds a set bit.
  predicate NextIsUsed(s: State)
    requires s.line < |s.a1| * 64
  {
    var l := NextMarked(s.a1, s.line);
    l < |s.a1| * 64 ==> LineUsed(s.a2, l)
  }

  // The right outcome: the slab, or a failure when there is none.
  function RightOutcome(s: State): Outcome
    requires 0 < |s.a1|
  {
    var (n, answer) := BitmapScan.Scan(s);
    (n, answer.Found?, answer)
  }

  // In the line: the slab read is the cyclically next one.
  lemma {:induction false} InLineIsRight(s: State)
    requires Marked(s) && FoundInLine(s)
    ensures RawScan(s) == RightOutcome(s)
  {
    var i := 8 * s.line + s.within;
    FirstUsedIsFirst(s.a2, i, 8 * s.line + 8);
    NextUsedUnique(s.a2, Cursor(s), FirstUsed(s.a2, i, 8 * s.line + 8));
  }

  // When the rest of the line is zero, what comes next is what comes after the line.
  lemma {:induction false} LineReadSkips(s: State)
    requires Marked(s) && !FoundInLine(s)
    ensures var d := 8 * s.line + 8;
            NextUsed(s.a2, Cursor(s)) == NextUsed(s.a2, if d < |s.a2| then d else 0)
  {
    if s.within != 0 {
      FirstUsedIsFirst(s.a2, Cursor(s), 8 * s.line + 8);
      NextUsedSkips(s.a2, Cursor(s), 8 * s.line + 8);
    }
  }

  lemma {:induction false} UsedLineIsRight(s: State)
    requires Marked(s) && !FoundInLine(s)
    requires var l := NextMarked(s.a1, s.line); l < |s.a1| * 64 && LineUsed(s.a2, l)
    ensures RawScan(s) == RightOutcome(s)
  {
    hide Cursor, FoundInLine, LineUsed, NextMarked, IsPow2;
    MarkedCanScan(s);
    NextMarkedIsNext(s.a1, s.line);
    LineReadSkips(s);
    NextBitHoldsNextSlab(s.a1, s.a2, s.line, NextMarked(s.a1, s.line));
  }

  lemma {:induction false} NoneMarkedIsRight(s: State)
    requires Marked(s) && !FoundInLine(s) && NextMarked(s.a1, s.line) == |s.a1| * 64
    ensures RawScan(s) == RightOutcome(s)
  {
    hide Cursor, FoundInLine, LineUsed, NextMarked, IsPow2;
    MarkedCanScan(s);
    NextMarkedIsNext(s.a1, s.line);
    ClearBitsAreZeroLines(s.a1, s.a2, 0, |s.a1| * 64);
    NextUsedIsNext(s.a2, Cursor(s));
  }

  lemma {:induction false} UnusedLineIsZero(a2: Slabs, l: nat)
    requires 8 * l + 8 <= |a2|
    ensures FirstUsed(a2, 8 * l, 8 * l + 8) < 8 * l + 8 <==> LineUsed(a2, l)
  {
    FirstUsedIsFirst(a2, 8 * l, 8 * l + 8);
  }

  lemma {:induction false} EmptyLineIsWrong(s: State)
    requires Marked(s) && !FoundInLine(s) && NextMarked(s.a1, s.line) < |s.a1| * 64 && !NextIsUsed(s)
    ensures RawScan(s) == (s.(line := NextMarked(s.a1, s.line), within := 0), true, Empty) != RightOutcome(s)
  {
    hide BitmapScan.Scan, Cursor, NextUsed, FoundInLine, LineUsed, NextMarked, IsPow2, ReadAnswer, ReadIndex;
    MarkedCanScan(s);
    EmptyLineRead(s.a2, NextMarked(s.a1, s.line));
  }

  lemma {:induction false} EmptyLineRead(a2: Slabs, l: nat)
    requires 8 * l + 8 <= |a2| && !LineUsed(a2, l)
    ensures ReadAnswer(a2, 8 * l, 8 * l + 8) == Empty && ReadIndex(a2, 8 * l, 8 * l + 8) % 8 == 0
  {
    UnusedLineIsZero(a2, l);
  }

  // A scan does the right thing exactly when it finds its slab in the line it is reading, or the next
  // marked line holds a set bit; otherwise it claims success, writes neither position nor slab and leaves
  // that line as visited and used up.
  lemma {:induction false} ScanRightExactly(s: State)
    requires Marked(s)
    ensures RawScan(s) == RightOutcome(s) <==> FoundInLine(s) || NextIsUsed(s)
    ensures RawScan(s) != RightOutcome(s) ==>
      RawScan(s) == (s.(line := NextMarked(s.a1, s.line), within := 0), true, Empty)
  {
    hide Elsewhere, RightOutcome, RawScan, FoundInLine, LineUsed, UsedAreMarked, IsPow2;
    if FoundInLine(s) {
      InLineIsRight(s);
    } else if NextMarked(s.a1, s.line) == |s.a1| * 64 {
      NoneMarkedIsRight(s);
    } else if NextIsUsed(s) {
      UsedLineIsRight(s);
    } else {
      EmptyLineIsWrong(s);
    }
  }

  // A scan fails exactly when no line is marked, and then leaves the first line of the next array1 slab as
  // visited and used up.
  lemma {:induction false} RawScanFails(s: State)
    requires Marked(s)
    ensures 0 < |s.a1| && (!RawScan(s).1 <==> BitsClear(s.a1, 0, |s.a1| * 64))
    ensures !RawScan(s).1 ==>
      RawScan(s) == (s.(line := (s.line / 64 + 1) % |s.a1| * 64, within := 0), false, Empty)
  {
    MarkedCanScan(s);
    NextMarkedIsNext(s.a1, s.line);
    NextIndexIsMod(s.line / 64, |s.a1|);
    if FoundInLine(s) {
      FoundLineIsMarked(s);
    }
  }

  lemma {:induction false} FoundLineIsMarked(s: State)
    requires Marked(s) && FoundInLine(s)
    ensures Has(s.a1, s.line)
  {
    var p := FirstUsed(s.a2, 8 * s.line + s.within, 8 * s.line + 8);
    assert LineUsed(s.a2, s.line) by {
      assert s.a2[p] != 0;
    }
  }

  // With both levels in step it always does the right thing.
  lemma {:induction false} ValidScanIsRight(s: State)
    requires Valid(s)
    ensures RawScan(s) == RightOutcome(s)
  {
    ValidIsMarked(s);
    ScanRightExactly(s);
  }

  // After a zero slab has been or-ed into an empty bitmap the scan claims success and writes nothing.
  lemma {:induction false} ScanAfterZeroSlab()
    ensures var s := Reset(State(Zeros(1), Zeros(8), 0, 0));
            var z := SetSlab(s, 0, 0);
            Marked(z) && Members(z.a2) == {} && RawScan(z) == (z.(line := 0, within := 0), true, Empty)
  {
    var s := Reset(State(Zeros(1), Zeros(8), 0, 0));
    var z := SetSlab(s, 0, 0);
    ZeroSlabBreaksLevels();
    ValidIsMarked(s);
    SetSlabKeepsMarked(s, 0, 0);
    MarkedCanScan(z);
    HasWithBit(s.a1, 0, 0);
    BitsOfOrZero(0);
    assert z.a2 == s.a2;
    FirstMarkedIsFirst(z.a1, 0, 64);
    assert NextMarked(z.a1, 63) == 0;
    UnusedLineIsZero(z.a2, 0);
  }

  /** Runs with any slabs */

  predicate InRange(s: State, op: Op) {
    match op
    case SetOp(pos) => pos < |s.a2| * 64
    case SetSlabOp(pos, _) => pos < |s.a2| * 64
    case ClearOp(pos) => pos < |s.a2| * 64
    case ResetOp => true
    case ScanOp => true
  }

  ghost function RawStep(s: State, op: Op): (t: State)
    requires Marked(s) && InRange(s, op)
    ensures Marked(t) && |t.a1| == |s.a1| && |t.a2| == |s.a2|
  {
    match op
    case SetOp(pos) => SetKeepsMarked(s, pos); ValidSizes(s, pos); Set(s, pos)
    case SetSlabOp(pos, slab) => SetSlabKeepsMarked(s, pos, slab); ValidSizes(s, pos); SetSlab(s, pos, slab)
    case ClearOp(pos) => ClearKeepsMarked(s, pos); ValidSizes(s, pos); Clear(s, pos)
    case ResetOp => SizesOf(s); ResetIsValid(s); ValidIsMarked(Reset(s)); Reset(s)
    case ScanOp => RawScanKeepsMarked(s); RawScan(s).0
  }

  ghost predicate AllInRange(s: State, ops: seq<Op>) {
    forall i :: 0 <= i < |ops| ==> InRange(s, ops[i])
  }

  ghost function RawRun(s: State, ops: seq<Op>): (t: State)
    requires Marked(s) && AllInRange(s, ops)
    ensures Marked(t) && |t.a1| == |s.a1| && |t.a2| == |s.a2|
    decreases ops
  {
    if ops == [] then s else
      assert InRange(s, ops[0]);
      var t := RawStep(s, ops[0]);
      StillInRange(s, t, ops);
      RawRun(t, ops[1..])
  }

  lemma {:induction false} StillInRange(s: State, t: State, ops: seq<Op>)
    requires AllInRange(s, ops) && ops != [] && |t.a2| == |s.a2|
    ensures AllInRange(t, ops[1..])
  {
    forall i | 0 <= i < |ops| - 1
      ensures InRange(t, ops[1..][i])
    {
      assert InRange(s, ops[i + 1]);
    }
  }

  lemma {:induction false} RawStepRefinesSet(s: State, op: Op)
    requires Marked(s) && InRange(s, op)
    ensures Members(RawStep(s, op).a2) == SetStep(|s.a2|, Members(s.a2), op)
  {
    match op
    case SetOp(pos) => MembersWithBit(s.a2, pos);
    case SetSlabOp(pos, slab) => MembersWithSlab(s.a2, pos, slab);
    case ClearOp(pos) => MembersWithoutBit(s.a2, pos);
    case ResetOp => MembersOfZeros(|s.a2|);
    case ScanOp => RawScanKeepsMarked(s);
  }

  // Also with zero slabs every run keeps all used lines marked and is right about the set of positions.
  lemma {:induction false} RawRunRefinesSet(s: State, ops: seq<Op>)
    requires Marked(s) && AllInRange(s, ops)
    ensures Marked(RawRun(s, ops)) && Members(RawRun(s, ops).a2) == SetRun(|s.a2|, Members(s.a2), ops)
    decreases ops
  {
    if ops != [] {
      assert InRange(s, ops[0]);
      var t := RawStep(s, ops[0]);
      StillInRange(s, t, ops);
      RawStepRefinesSet(s, ops[0]);
      RawRunRefinesSet(t, ops[1..]);
    }
  }
}
