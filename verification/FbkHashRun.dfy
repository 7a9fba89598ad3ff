/**
 Runs of table operations against runs on the finite map the table stands for. The bounded buckets show
 in the map as well: a new key is refused exactly when its bucket already holds its number of keys.
 */
module FbkHashRun {
  import opened Common
  import opened Words
  import opened FbkHash
  import opened FbkHashRoom
  import opened FbkHashOps

  datatype Op = Add(key: u32, value: u16) | Delete(key: u32) | Lookup(key: u32) | ClearAll

  // One operation on the slots and the counter.
  function Apply(c: Config, s: Tab, op: Op): (r: (Tab, int))
    requires ConfigOk(c) && |s.t| == c.entries
    ensures |r.0.t| == c.entries
  {
    match op
    case Add(key, value) =>
      BucketInRange(c, key);
      AddTo(s, GetBucket(c, key), c.entriesPerBucket, key, value)
    case Delete(key) =>
      BucketInRange(c, key);
      DeleteFrom(s, GetBucket(c, key), c.entriesPerBucket, key)
    case Lookup(key) =>
      BucketInRange(c, key);
      (s, LookIn(s.t, GetBucket(c, key), c.entriesPerBucket, key))
    case ClearAll => (Tab(Cleared(c.entries), 0), 0)
  }

  // One operation on the map.
  ghost function MapApply(c: Config, m: map<u32, u16>, op: Op): (map<u32, u16>, int) {
    match op
    case Add(key, value) => if key !in m && NoRoom(c, m, key) then (m, -ENOSPC) else (m[key := value], 0)
    case Delete(key) => (m - {key}, if key in m then 0 else -ENOENT)
    case Lookup(key) => (m, if key in m then m[key] else -ENOENT)
    case ClearAll => (map[], 0)
  }

  ghost predicate Conforms(c: Config, m: map<u32, u16>, op: Op) {
    op.Delete? ==> DeleteConforms(c, m, op.key)
  }

  function RunTable(c: Config, s: Tab, ops: seq<Op>): (Tab, seq<int>)
    requires ConfigOk(c) && |s.t| == c.entries
    decreases |ops|
  {
    if ops == [] then (s, [])
    else
      var (n, ret) := Apply(c, s, ops[0]);
      var (f, rets) := RunTable(c, n, ops[1..]);
      (f, [ret] + rets)
  }

  ghost function RunMap(c: Config, m: map<u32, u16>, ops: seq<Op>): (map<u32, u16>, seq<int>)
    decreases |ops|
  {
    if ops == [] then (m, [])
    else
      var (n, ret) := MapApply(c, m, ops[0]);
      var (f, rets) := RunMap(c, n, ops[1..]);
      (f, [ret] + rets)
  }

  /** Deletes that do not conform */

  // What the table answers: a delete that does not conform reports success.
  ghost function Answer(c: Config, m: map<u32, u16>, op: Op): int {
    if Conforms(c, m, op) then MapApply(c, m, op).1 else 0
  }

  // How many deletes that do not conform there have been since the table was last cleared.
  ghost function Drift(c: Config, m: map<u32, u16>, d: nat, op: Op): nat {
    if op.ClearAll? then 0 else if Conforms(c, m, op) then d else d + 1
  }

  ghost function Answers(c: Config, m: map<u32, u16>, ops: seq<Op>): seq<int>
    decreases |ops|
  {
    if ops == [] then [] else [Answer(c, m, ops[0])] + Answers(c, MapApply(c, m, ops[0]).0, ops[1..])
  }

  ghost function Drifts(c: Config, m: map<u32, u16>, d: nat, ops: seq<Op>): nat
    decreases |ops|
  {
    if ops == [] then d else Drifts(c, MapApply(c, m, ops[0]).0, Drift(c, m, d, ops[0]), ops[1..])
  }

  // The slots are right, and the counter falls short of the number of active ones by d, mod 2^32.
  ghost predicate GoodBut(c: Config, s: Tab, d: nat) {
    SlotsOk(c, s.t) && |s.t| == c.entries && Short(s) == Wrap32(d)
  }

  lemma {:induction false} CounterOfShort(n: u32, used: u32, d: nat)
    requires Minus32(n, used) == Wrap32(d)
    ensures used == Wrap32(n - d)
  {
    var q := 0 - d / TWO_32;
    Wrap32Unique(n - d, if used <= n then q else q - 1, used);
  }

  lemma {:induction false} AddRefines(c: Config, s: Tab, d: nat, key: u32, value: u16)
    requires GoodBut(c, s, d)
    ensures var (n, ret) := Apply(c, s, Add(key, value));
            GoodBut(c, n, d) && (Contents(n.t), ret) == MapApply(c, Contents(s.t), Add(key, value))
  {
    hide Distinct, TableInv, Contents, Full, NoRoom, Short, Wrap32;
    AddMeans(c, s, key, value);
  }

  lemma {:induction false} DeleteRefines(c: Config, s: Tab, d: nat, key: u32)
    requires GoodBut(c, s, d)
    ensures var (n, ret) := Apply(c, s, Delete(key));
            var m := Contents(s.t);
            && GoodBut(c, n, Drift(c, m, d, Delete(key)))
            && Contents(n.t) == m - {key} && ret == Answer(c, m, Delete(key))
  {
    hide Distinct, TableInv, Contents, Full, NoRoom, Short, Wrap32;
    DeleteMeans(c, s, key);
    Wrap32Plus(d, 1);
  }

  // Every operation does to the table what it does to the map.
  lemma {:induction false} ApplyRefines(c: Config, s: Tab, d: nat, op: Op)
    requires GoodBut(c, s, d)
    ensures var (n, ret) := Apply(c, s, op);
            var m := Contents(s.t);
            && GoodBut(c, n, Drift(c, m, d, op))
            && Contents(n.t) == MapApply(c, m, op).0 && ret == Answer(c, m, op)
  {
    hide Distinct, TableInv, Contents, NoRoom;
    match op
    case Add(key, value) => AddRefines(c, s, d, key, value);
    case Delete(key) => DeleteRefines(c, s, d, key);
    case Lookup(key) => LookupMeans(c, s.t, key);
    case ClearAll => ClearedInv(c);
  }

  lemma {:induction false} RunRefinesMapFrom(c: Config, s: Tab, d: nat, ops: seq<Op>)
    requires GoodBut(c, s, d)
    ensures var (f, rets) := RunTable(c, s, ops);
            var m := Contents(s.t);
            && GoodBut(c, f, Drifts(c, m, d, ops))
            && Contents(f.t) == RunMap(c, m, ops).0 && rets == Answers(c, m, ops)
    decreases |ops|
  {
    hide TableInv, Contents, Conforms, MapApply, Drift, Answer, Short;
    if ops != [] {
      ApplyRefines(c, s, d, ops[0]);
      RunRefinesMapFrom(c, Apply(c, s, ops[0]).0, Drift(c, Contents(s.t), d, ops[0]), ops[1..]);
    }
  }

  // From any good table every run ends in the table of the final map and answers as the map does except
  // for deletes that do not conform; the counter falls short of the map's size by the number of those
  // since the last clear_all, mod 2^32.
  lemma {:induction false} RunRefinesMap(c: Config, s: Tab, ops: seq<Op>)
    requires Good(c, s) && |s.t| == c.entries
    ensures var (f, rets) := RunTable(c, s, ops);
            var m := Contents(s.t);
            && TableInv(c, f.t) && Contents(f.t) == RunMap(c, m, ops).0
            && rets == Answers(c, m, ops)
            && f.used == Wrap32(|Contents(f.t)| - Drifts(c, m, 0, ops))
  {
    hide Contents, Conforms, MapApply, TableInv;
    GoodIfNotShort(c, s);
    RunRefinesMapFrom(c, s, 0, ops);
    var f := RunTable(c, s, ops).0;
    CountOfGood(c, f.t);
    CounterOfShort(CountActive(f.t), f.used, Drifts(c, Contents(s.t), 0, ops));
  }

  ghost predicate AllConform(c: Config, m: map<u32, u16>, ops: seq<Op>)
    decreases |ops|
  {
    ops == [] || (Conforms(c, m, ops[0]) && AllConform(c, MapApply(c, m, ops[0]).0, ops[1..]))
  }

  lemma {:induction false} AnswersExactly(c: Config, m: map<u32, u16>, ops: seq<Op>)
    ensures Answers(c, m, ops) == RunMap(c, m, ops).1 <==> AllConform(c, m, ops)
    ensures AllConform(c, m, ops) ==> Drifts(c, m, 0, ops) == 0
    decreases |ops|
  {
    hide NoRoom;
    if ops != [] {
      var n := MapApply(c, m, ops[0]).0;
      AnswersExactly(c, n, ops[1..]);
      assert Answers(c, m, ops)[0] == Answer(c, m, ops[0]) && Answers(c, m, ops)[1..] == Answers(c, n, ops[1..]);
      assert RunMap(c, m, ops).1[0] == MapApply(c, m, ops[0]).1;
      assert RunMap(c, m, ops).1[1..] == RunMap(c, n, ops[1..]).1;
      assert Answer(c, m, ops[0]) == MapApply(c, m, ops[0]).1 <==> Conforms(c, m, ops[0]);
    }
  }

  // A run answers throughout as the map does exactly when all its deletes conform, and then its counter
  // is the size of the map.
  lemma {:induction false} RunConformsExactly(c: Config, s: Tab, ops: seq<Op>)
    requires Good(c, s) && |s.t| == c.entries
    ensures var (f, rets) := RunTable(c, s, ops);
            && (rets == RunMap(c, Contents(s.t), ops).1 <==> AllConform(c, Contents(s.t), ops))
            && (AllConform(c, Contents(s.t), ops) ==> Good(c, f) && f.used == |Contents(f.t)|)
  {
    hide Contents, TableInv, Conforms, MapApply;
    RunRefinesMap(c, s, ops);
    AnswersExactly(c, Contents(s.t), ops);
    var f := RunTable(c, s, ops).0;
    CountOfGood(c, f.t);
    Wrap32Small(CountActive(f.t));
  }

  lemma {:induction false} CountOfGood(c: Config, t: Slots)
    requires ConfigOk(c) && TableInv(c, t)
    ensures CountActive(t) == |Contents(t)| < TWO_32 && |t| == c.entries
  {
    CountIsSize(t);
  }

  // Deleting the absent key 0 from a fresh table reports a deletion and drives the counter below zero.
  lemma {:induction false} DeleteOfAbsentZero(c: Config)
    requires ConfigOk(c)
    ensures var s := Tab(Cleared(c.entries), 0);
            Good(c, s) && Apply(c, s, Delete(0)) == (Tab(Cleared(c.entries), TWO_32 - 1), 0)
  {
    hide Distinct, TableInv;
    var s := Tab(Cleared(c.entries), 0);
    ClearedInv(c);
    DeleteMeans(c, s, 0);
    BucketInRange(c, 0);
    assert s.t[GetBucket(c, 0)] == EMPTY;
  }
}
