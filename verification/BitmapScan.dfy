/**
 The scan of include/rte_bitmap.h: what one call returns, that repeated calls on an unchanged bitmap
 enumerate its non-zero slabs in order and start over, and that the scan is fair to a slab that stays
 non-zero while others come and go.
 */
module BitmapScan {
  import opened Words
  import opened BitmapSpec

  datatype Answer = Empty | Found(pos: nat, slab: u64)

  // The first non-zero slab in a[lo..hi], or hi.
  function FirstUsed(a: Slabs, lo: nat, hi: nat): (r: nat)
    requires lo <= hi <= |a|
    ensures lo <= r <= hi
    ensures r < hi ==> a[r] != 0
    decreases hi - lo
  {
    if lo == hi || a[lo] != 0 then lo else FirstUsed(a, lo + 1, hi)
  }

  // The first non-zero slab at or cyclically after c; |a| when there is none.
  function NextUsed(a: Slabs, c: nat): (r: nat)
    requires c <= |a|
    ensures r <= |a| && (r < |a| ==> a[r] != 0)
  {
    var r := FirstUsed(a, c, |a|);
    if r < |a| then r else
      var w := FirstUsed(a, 0, c);
      if w < c then w else |a|
  }

  ghost predicate AllZero(a: Slabs, lo: nat, hi: nat)
    requires hi <= |a|
  {
    forall i: nat :: lo <= i < hi ==> a[i] == 0
  }

  lemma {:induction false} FirstUsedIsFirst(a: Slabs, lo: nat, hi: nat)
    requires lo <= hi <= |a|
    ensures AllZero(a, lo, FirstUsed(a, lo, hi))
    decreases hi - lo
  {
    if lo < hi && a[lo] == 0 {
      FirstUsedIsFirst(a, lo + 1, hi);
    }
  }

  // Everything from c round to the slab found is zero, and nothing is found only if all is zero.
  lemma {:induction false} NextUsedIsNext(a: Slabs, c: nat)
    requires c <= |a|
    ensures var r := NextUsed(a, c);
            && (r == |a| <==> AllZero(a, 0, |a|))
            && (c <= r < |a| ==> AllZero(a, c, r))
            && (r < c ==> AllZero(a, c, |a|) && AllZero(a, 0, r))
  {
    FirstUsedIsFirst(a, c, |a|);
    FirstUsedIsFirst(a, 0, c);
  }

  // ... which determines it.
  lemma {:induction false} NextUsedUnique(a: Slabs, c: nat, r: nat)
    requires c <= |a| && r < |a| && a[r] != 0
    requires if c <= r then AllZero(a, c, r) else AllZero(a, c, |a|) && AllZero(a, 0, r)
    ensures NextUsed(a, c) == r
  {
    NextUsedIsNext(a, c);
  }

  // The slab the next scan looks at first.
  function Cursor(s: State): (c: nat)
    ensures c <= |s.a2|
    ensures 0 < |s.a2| ==> c < |s.a2|
  {
    var c := if s.within != 0 then 8 * s.line + s.within else 8 * s.line + 8;
    if c < |s.a2| then c else 0
  }

  function Scan(s: State): (r: (State, Answer))
    requires 0 < |s.a1|
  {
    var p := NextUsed(s.a2, Cursor(s));
    if p < |s.a2| then
      (s.(line := p / 8, within := (p + 1) % 8), Found(64 * p, s.a2[p]))
    else
      (s.(line := NextIndex(s.line / 64, |s.a1|) * 64, within := 0), Empty)
  }

  lemma {:induction false} ScanKeepsValid(s: State)
    requires Valid(s)
    ensures Valid(Scan(s).0)
    ensures Scan(s).0.a1 == s.a1 && Scan(s).0.a2 == s.a2
  {
  }

  // After a successful scan the line visited is that of the slab returned, the slabs of the line up to and
  // with it are used up, and the cursor is just past it.
  lemma {:induction false} CursorAfterScan(s: State)
    requires 0 < |s.a1| && |s.a2| % 8 == 0 && Scan(s).1.Found?
    ensures var p, t := NextUsed(s.a2, Cursor(s)), Scan(s).0;
            && 8 * t.line <= p < 8 * t.line + 8
            && 8 * t.line + (if t.within == 0 then 8 else t.within) == p + 1
            && Cursor(t) == if p + 1 < |s.a2| then p + 1 else 0
  {
    var p := NextUsed(s.a2, Cursor(s));
    assert (p + 1) % 8 == (if p % 8 == 7 then 0 else p % 8 + 1);
  }

  // The scan reports the empty bitmap exactly when no position is a member; otherwise it reports a
  // slab-aligned position inside array2 with the non-zero slab found there.
  lemma {:induction false} ScanAnswers(s: State)
    requires Valid(s)
    ensures Scan(s).1 == Empty <==> Members(s.a2) == {}
    ensures Scan(s).1.Found? ==>
      var pos := Scan(s).1.pos;
      pos % 64 == 0 && pos < |s.a2| * 64 && pos < TWO_32
      && Scan(s).1.slab == s.a2[pos / 64] != 0
  {
    hide Members, NextUsed, Cursor, TwoLevel, IsPow2;
    NoMembers(s.a2);
    NextUsedIsNext(s.a2, Cursor(s));
    PositionOfSlab(NextUsed(s.a2, Cursor(s)));
  }

  // A failed scan has gone once round array1 and one slab further: it leaves the first line of the slab
  // behind the present one as visited and used up.
  lemma {:induction false} CursorAfterFailure(s: State)
    requires Valid(s) && Members(s.a2) == {}
    ensures 0 < |s.a1|
    ensures Scan(s) == (s.(line := (s.line / 64 + 1) % |s.a1| * 64, within := 0), Empty)
  {
    hide Members, NextUsed, Cursor, TwoLevel, IsPow2;
    ScanAnswers(s);
    NextIndexIsMod(s.line / 64, |s.a1|);
  }

  lemma {:induction false} PositionOfSlab(p: nat)
    ensures 64 * p % 64 == 0 && 64 * p / 64 == p
  {
  }

  /** Enumeration */

  // The non-zero slabs among the first n, in ascending order.
  ghost function Used(a: Slabs, n: nat): (u: seq<nat>)
    requires n <= |a|
    decreases n
  {
    if n == 0 then []
    else if a[n - 1] != 0 then Used(a, n - 1) + [n - 1]
    else Used(a, n - 1)
  }

  lemma {:induction false} UsedIsExact(a: Slabs, n: nat)
    requires n <= |a|
    ensures forall i :: 0 <= i < |Used(a, n)| ==> Used(a, n)[i] < n && a[Used(a, n)[i]] != 0
    ensures forall i, j :: 0 <= i < j < |Used(a, n)| ==> Used(a, n)[i] < Used(a, n)[j]
    ensures forall p: nat :: p < n && a[p] != 0 ==> p in Used(a, n)
    decreases n
  {
    if n > 0 {
      UsedIsExact(a, n - 1);
    }
  }

  lemma {:induction false} UsedPrefix(a: Slabs, m: nat, n: nat)
    requires m <= n <= |a|
    ensures Used(a, m) <= Used(a, n)
    decreases n
  {
    if m < n {
      UsedPrefix(a, m, n - 1);
    }
  }

  lemma {:induction false} UsedSkipsZeros(a: Slabs, m: nat, n: nat)
    requires m <= n <= |a| && AllZero(a, m, n)
    ensures Used(a, m) == Used(a, n)
    decreases n
  {
    if m < n {
      UsedSkipsZeros(a, m, n - 1);
    }
  }

  // The slab found from c is the one whose rank is the number of non-zero slabs before c, cyclically.
  lemma {:induction false} NextUsedByRank(a: Slabs, c: nat)
    requires c <= |a| && NextUsed(a, c) < |a|
    ensures var u := Used(a, |a|);
            var k := |Used(a, c)|;
            k <= |u| && 0 < |u| && NextUsed(a, c) == u[if k < |u| then k else 0]
            && |Used(a, NextUsed(a, c))| == (if k < |u| then k else 0)
  {
    var r := NextUsed(a, c);
    NextUsedIsNext(a, c);
    UsedPrefix(a, r + 1, |a|);
    UsedPrefix(a, c, |a|);
    if c <= r {
      UsedSkipsZeros(a, c, r);
    } else {
      UsedSkipsZeros(a, c, |a|);
      UsedSkipsZeros(a, 0, r);
    }
  }

  // The state after n scans with nothing else in between.
  ghost function AfterScans(s: State, n: nat): (t: State)
    requires Valid(s)
    ensures Valid(t) && t.a1 == s.a1 && t.a2 == s.a2
    decreases n
  {
    if n == 0 then s else
      var t := AfterScans(s, n - 1);
      ScanKeepsValid(t);
      Scan(t).0
  }

  // The index reached from k after n steps round a cycle of m.
  ghost function Turn(k: nat, n: nat, m: nat): (j: nat)
    requires 0 < m
    ensures j < m
    decreases n
  {
    if n == 0 then (if k < m then k else 0) else
      var j := Turn(k, n - 1, m);
      if j + 1 < m then j + 1 else 0
  }

  // The cursor after n scans from c when the slabs do not change.
  ghost function CursorAfter(a: Slabs, c: nat, n: nat): (d: nat)
    requires c < |a|
    ensures d < |a|
    decreases n
  {
    if n == 0 then c else
      var p := NextUsed(a, CursorAfter(a, c, n - 1));
      if p + 1 < |a| then p + 1 else 0
  }

  // From a cursor with k non-zero slabs before it, scan number n finds the (k + n)-th non-zero slab,
  // counted cyclically.
  lemma {:induction false} CursorsEnumerate(a: Slabs, c: nat, n: nat)
    requires c < |a| && NextUsed(a, c) < |a|
    ensures var u := Used(a, |a|);
            0 < |u| && NextUsed(a, CursorAfter(a, c, n)) == u[Turn(|Used(a, c)|, n, |u|)]
    decreases n
  {
    hide NextUsed, Used;
    var d := CursorAfter(a, c, n);
    SomeUsed(a, c, d);
    NextUsedByRank(a, d);
    NoneUsed(a);
    if n > 0 {
      CursorsEnumerate(a, c, n - 1);
      RankOf(a, Turn(|Used(a, c)|, n - 1, |Used(a, |a|)|));
    }
  }

  lemma NoneUsed(a: Slabs)
    ensures Used(a, 0) == []
  {
  }

  lemma SomeUsed(a: Slabs, c: nat, d: nat)
    requires c <= |a| && d <= |a| && NextUsed(a, c) < |a|
    ensures NextUsed(a, d) < |a|
  {
    NextUsedIsNext(a, c);
    NextUsedIsNext(a, d);
  }

  // A scan of a bitmap with a non-zero slab moves the cursor just past the next one.
  lemma {:induction false} ScanMovesCursor(t: State)
    requires Valid(t) && NextUsed(t.a2, Cursor(t)) < |t.a2|
    ensures 0 < |t.a1|
    ensures var p := NextUsed(t.a2, Cursor(t)); Cursor(Scan(t).0) == if p + 1 < |t.a2| then p + 1 else 0
  {
    CursorAfterScan(t);
  }

  lemma {:induction false} AfterScansCursor(s: State, n: nat)
    requires Valid(s) && NextUsed(s.a2, Cursor(s)) < |s.a2|
    ensures Cursor(AfterScans(s, n)) == CursorAfter(s.a2, Cursor(s), n)
    decreases n
  {
    hide Scan, Cursor, NextUsed, Valid;
    if n > 0 {
      var t := AfterScans(s, n - 1);
      AfterScansCursor(s, n - 1);
      SomeUsed(s.a2, Cursor(s), Cursor(t));
      ScanMovesCursor(t);
    }
  }

  // Just past the j-th non-zero slab there are j + 1 of them.
  lemma {:induction false} RankOf(a: Slabs, j: nat)
    requires j < |Used(a, |a|)|
    ensures var p := Used(a, |a|)[j];
            p < |a| && |Used(a, p + 1)| == j + 1
  {
    UsedIsExact(a, |a|);
    var u := Used(a, |a|);
    var p := u[j];
    UsedPrefix(a, p, |a|);
    UsedPrefix(a, p + 1, |a|);
    var k := |Used(a, p)|;
    assert Used(a, p + 1) == Used(a, p) + [p];
    assert u[k] == p;
  }

  lemma {:induction false} TurnIsMod(n: nat, m: nat)
    requires 0 < m
    ensures Turn(0, n, m) == n % m
    decreases n
  {
    if n == 0 {
      DivModUnique(0, m, 0, 0);
    } else {
      TurnIsMod(n - 1, m);
      ModNext(n - 1, m);
    }
  }

  // Non-zero slab number n, counted round and round.
  ghost function NthUsed(a: Slabs, n: nat): (p: nat)
    requires Used(a, |a|) != []
    ensures p < |a|
  {
    UsedIsExact(a, |a|);
    Used(a, |a|)[n % |Used(a, |a|)|]
  }

  // From the first line on, scan number n of an unchanged bitmap with K > 0 non-zero slabs returns
  // non-zero slab number n mod K: each once in ascending order, and then all over again.
  lemma {:induction false} ScansEnumerate(s: State, n: nat)
    requires Valid(s) && Members(s.a2) != {} && Cursor(s) == 0
    ensures Used(s.a2, |s.a2|) != []
    ensures var p := NthUsed(s.a2, n);
            Scan(AfterScans(s, n)).1 == Found(64 * p, s.a2[p])
  {
    ScanAnswers(s);
    AfterScansCursor(s, n);
    CursorsEnumerate(s.a2, 0, n);
    TurnIsMod(n, |Used(s.a2, |s.a2|)|);
    assert NextUsed(s.a2, Cursor(AfterScans(s, n))) == NthUsed(s.a2, n);
  }

  // The end of array1's range is followed by the first line.
  lemma {:induction false} RewoundCursor(s: State)
    requires 0 < |s.a1| && |s.a2| <= |s.a1| * 512 && s.line == |s.a1| * 64 - 1 && s.within == 0
    ensures Cursor(s) == 0
  {
    assert 8 * (|s.a1| * 64 - 1) + 8 == |s.a1| * 512;
  }

  // Reset, and initialisation, put the cursor there.
  lemma ResetRewinds(s: State)
    requires 0 < |s.a1| && |s.a2| <= |s.a1| * 512
    ensures Cursor(Reset(s)) == 0
  {
    RewoundCursor(Reset(s));
  }

  // What they leave behind.
  lemma {:induction false} RewoundIsValid(s: State)
    requires Sizes(|s.a1|, |s.a2|) && 0 < |s.a1| && s == Reset(s)
    ensures Valid(s) && Marked(s) && Cursor(s) == 0 && Members(s.a2) == {}
  {
    hide Cursor, Members, IsPow2;
    ResetIsValid(s);
    ValidIsMarked(s);
    ResetRewinds(s);
    MembersOfZeros(|s.a2|);
  }

  /** Runs */

  datatype Op = SetOp(pos: nat) | SetSlabOp(pos: nat, slab: u64) | ClearOp(pos: nat) | ResetOp | ScanOp

  // Positions lie in the bitmap, and a zero slab is or-ed into lines in use only.
  predicate Legal(s: State, op: Op) {
    match op
    case SetOp(pos) => pos < |s.a2| * 64
    case SetSlabOp(pos, slab) => pos < |s.a2| * 64 && (slab != 0 || LineUsed(s.a2, pos / 512))
    case ClearOp(pos) => pos < |s.a2| * 64
    case ResetOp => true
    case ScanOp => true
  }

  ghost function Step(s: State, op: Op): (t: State)
    requires Valid(s) && Legal(s, op)
    ensures Valid(t) && |t.a1| == |s.a1| && |t.a2| == |s.a2|
  {
    match op
    case SetOp(pos) => SetKeepsValid(s, pos); Set(s, pos)
    case SetSlabOp(pos, slab) => SetSlabValidExactly(s, pos, slab); SetSlab(s, pos, slab)
    case ClearOp(pos) => ClearKeepsValid(s, pos); Clear(s, pos)
    case ResetOp => ValidIsMarked(s); SizesOf(s); ResetIsValid(s); Reset(s)
    case ScanOp => ScanKeepsValid(s); Scan(s).0
  }

  // Every operation is legal in the state it meets.
  ghost predicate AllLegal(s: State, ops: seq<Op>)
    requires Valid(s)
    decreases ops
  {
    ops != [] ==> Legal(s, ops[0]) && AllLegal(Step(s, ops[0]), ops[1..])
  }

  ghost function Run(s: State, ops: seq<Op>): (t: State)
    requires Valid(s) && AllLegal(s, ops)
    ensures Valid(t) && |t.a1| == |s.a1| && |t.a2| == |s.a2|
    decreases ops
  {
    if ops == [] then s else
      var t := Step(s, ops[0]);
      Run(t, ops[1..])
  }

  // The same run on a plain set of positions below n * 64.
  ghost function SetStep(n: nat, m: set<nat>, op: Op): set<nat> {
    match op
    case SetOp(pos) => m + {pos}
    case SetSlabOp(pos, slab) => m + SlabMembers(n, pos, slab)
    case ClearOp(pos) => m - {pos}
    case ResetOp => {}
    case ScanOp => m
  }

  ghost function SetRun(n: nat, m: set<nat>, ops: seq<Op>): set<nat>
    decreases ops
  {
    if ops == [] then m else SetRun(n, SetStep(n, m, ops[0]), ops[1..])
  }

  // Every run refines the run on the set: bits are set and cleared nowhere else, and the two levels
  // stay in step (Valid is ensured by Run).
  lemma {:induction false} RunRefinesSet(s: State, ops: seq<Op>)
    requires Valid(s) && AllLegal(s, ops)
    ensures Members(Run(s, ops).a2) == SetRun(|s.a2|, Members(s.a2), ops)
    decreases ops
  {
    if ops != [] {
      var t := Step(s, ops[0]);
      StepRefinesSet(s, ops[0]);
      RunRefinesSet(t, ops[1..]);
    }
  }

  lemma {:induction false} StepRefinesSet(s: State, op: Op)
    requires Valid(s) && Legal(s, op)
    ensures Members(Step(s, op).a2) == SetStep(|s.a2|, Members(s.a2), op)
  {
    match op
    case SetOp(pos) => MembersWithBit(s.a2, pos);
    case SetSlabOp(pos, slab) => MembersWithSlab(s.a2, pos, slab);
    case ClearOp(pos) => MembersWithoutBit(s.a2, pos);
    case ResetOp => MembersOfZeros(|s.a2|);
    case ScanOp =>
  }

  /** After a failed scan */

  predicate OnlyChanges(ops: seq<Op>) {
    forall i :: 0 <= i < |ops| ==> !ops[i].ScanOp? && !ops[i].ResetOp?
  }

  lemma {:induction false} ChangesKeepCursor(s: State, ops: seq<Op>)
    requires Valid(s) && AllLegal(s, ops) && OnlyChanges(ops)
    ensures Run(s, ops).line == s.line && Run(s, ops).within == s.within
    decreases ops
  {
    if ops != [] {
      var t := Step(s, ops[0]);
      assert !ops[0].ScanOp? && !ops[0].ResetOp?;
      assert OnlyChanges(ops[1..]);
      ChangesKeepCursor(t, ops[1..]);
    }
  }

  // p is the first non-zero slab behind a line, cyclically; the line itself comes last.
  ghost predicate FirstBehind(a: Slabs, line: nat, p: nat) {
    && p < |a| && a[p] != 0
    && var d := if 8 * line + 8 < |a| then 8 * line + 8 else 0;
    if d <= p then AllZero(a, d, p) else AllZero(a, d, |a|) && AllZero(a, 0, p)
  }

  // What is set after a failed scan is found from behind the line it left on, not from the start.
  lemma {:induction false} ScanAfterFailure(s: State, ops: seq<Op>)
    requires Valid(s) && Members(s.a2) == {} && OnlyChanges(ops)
    requires AllLegal(Step(s, ScanOp), ops)
    ensures var u := Run(Step(s, ScanOp), ops);
            Members(u.a2) != {} ==>
              && 0 < |s.a1| && Scan(u).1.Found? && Scan(u).1.slab == u.a2[Scan(u).1.pos / 64]
              && FirstBehind(u.a2, (s.line / 64 + 1) % |s.a1| * 64, Scan(u).1.pos / 64)
  {
    hide Members, NextUsed, TwoLevel, IsPow2;
    CursorAfterFailure(s);
    var u := Run(Step(s, ScanOp), ops);
    ChangesKeepCursor(Step(s, ScanOp), ops);
    ScanAnswers(u);
    NextUsedIsNext(u.a2, Cursor(u));
    PositionOfSlab(NextUsed(u.a2, Cursor(u)));
  }

  lemma {:induction false} TwoLines()
    ensures var a := WithBit(WithBit(Zeros(16), 0), 512);
            && |a| == 16 && a[8] == 1 && forall p: nat :: 8 <= p < 16 && a[p] != 0 ==> p == 8
  {
    var b := WithBit(Zeros(16), 0);
    assert b[8] == 0 && SlabWithBit(0, 0) == 1;
  }

  // So with 1024 bits, a failed scan after a reset and then 0 and 512 set, 512 comes first.
  lemma {:induction false} FirstLineComesLast()
    ensures var s := Reset(State(Zeros(1), Zeros(16), 0, 0));
            var ops := [SetOp(0), SetOp(512)];
            && Valid(s) && Scan(s).1 == Empty && AllLegal(Step(s, ScanOp), ops)
            && 0 < |Run(Step(s, ScanOp), ops).a1|
            && Scan(Run(Step(s, ScanOp), ops)).1 == Found(512, 1)
  {
    hide Members, NextUsed, Cursor, TwoLevel, WithBit;
    var s := Reset(State(Zeros(1), Zeros(16), 0, 0));
    var ops := [SetOp(0), SetOp(512)];
    assert Pow2(0) == |s.a1|;
    ResetIsValid(s);
    MembersOfZeros(16);
    ScanAnswers(s);
    var t := Step(s, ScanOp);
    var t1 := Step(t, SetOp(0));
    assert ops[1..] == [SetOp(512)];
    assert Run(t, ops) == Step(t1, SetOp(512));
    TwoLines();
    NoMembers(Run(t, ops).a2);
    ScanAfterFailure(s, ops);
  }

  /** Fairness */

  // How many slabs the cursor has to pass before it reaches slab p.
  function Distance(s: State, p: nat): (d: nat)
    requires p < |s.a2|
    ensures d < |s.a2|
  {
    var c := Cursor(s);
    if c <= p then p - c else p + |s.a2| - c
  }

  // A scan returns slab p, if non-zero, or else comes strictly nearer to it.
  lemma {:induction false} ScanApproaches(s: State, p: nat)
    requires Valid(s) && p < |s.a2| && s.a2[p] != 0
    ensures Scan(s).1.Found?
    ensures Scan(s).1 == Found(64 * p, s.a2[p]) || Distance(Scan(s).0, p) < Distance(s, p)
  {
    NextUsedIsNext(s.a2, Cursor(s));
    CursorAfterScan(s);
  }

  predicate NoReset(ops: seq<Op>) {
    forall i :: 0 <= i < |ops| ==> !ops[i].ResetOp?
  }

  function Scans(ops: seq<Op>): nat {
    if ops == [] then 0 else (if ops[0].ScanOp? then 1 else 0) + Scans(ops[1..])
  }

  // Slab p is non-zero before every step of the run.
  ghost predicate StaysUsed(s: State, ops: seq<Op>, p: nat)
    requires Valid(s) && AllLegal(s, ops) && p < |s.a2|
    decreases ops
  {
    ops != [] ==>
      var t := Step(s, ops[0]);
      s.a2[p] != 0 && StaysUsed(t, ops[1..], p)
  }

  // Some scan of the run returns slab p with the contents it has at that moment.
  ghost predicate Returned(s: State, ops: seq<Op>, p: nat)
    requires Valid(s) && AllLegal(s, ops) && p < |s.a2|
    decreases ops
  {
    ops != [] && (
      || (ops[0].ScanOp? && Scan(s).1 == Found(64 * p, s.a2[p]))
      || (var t := Step(s, ops[0]);
          Returned(t, ops[1..], p)))
  }

  lemma {:induction false} FairWithinDistance(s: State, ops: seq<Op>, p: nat)
    requires Valid(s) && AllLegal(s, ops) && NoReset(ops) && p < |s.a2|
    requires StaysUsed(s, ops, p) && Scans(ops) > Distance(s, p)
    ensures Returned(s, ops, p)
    decreases ops
  {
    var t := Step(s, ops[0]);
    if ops[0].ScanOp? {
      ScanApproaches(s, p);
    } else {
      assert !ops[0].ResetOp?;
      assert Cursor(t) == Cursor(s);
    }
    if !(ops[0].ScanOp? && Scan(s).1 == Found(64 * p, s.a2[p])) {
      assert NoReset(ops[1..]);
      FairWithinDistance(t, ops[1..], p);
    }
  }

  // Whatever is set and cleared in between, a slab that stays non-zero is returned by one of any
  // |array2| scans.
  lemma ScanIsFair(s: State, ops: seq<Op>, p: nat)
    requires Valid(s) && AllLegal(s, ops) && NoReset(ops) && p < |s.a2|
    requires StaysUsed(s, ops, p) && Scans(ops) >= |s.a2|
    ensures Returned(s, ops, p)
  {
    FairWithinDistance(s, ops, p);
  }
}
