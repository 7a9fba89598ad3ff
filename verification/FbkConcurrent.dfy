/**
 One bucket of the hash table with its one writer and a concurrent lookup, one store or one entry read
 per step. Entries are stored and read whole; a delete is two stores, and between them the moved entry
 is in the bucket twice.
 */
module FbkConcurrent {
  import opened Common
  import opened Words
  import opened FbkHash
  import opened FbkHashOps

  // Clearing: the delete of `key` has copied the entry at `last` to `at` and has yet to zero `last`.
  datatype Writer = Idle | Clearing(at: nat, last: nat, key: u32)

  datatype Reader = Looking(key: u32, i: nat) | Hit(key: u32, value: u16) | Missed(key: u32)

  // The bucket, both threads, and the map that the effects of the writer's operations add up to.
  datatype World = World(t: Slots, w: Writer, r: Reader, m: map<u32, u16>)

  datatype Event = Add(key: u32, value: u16) | Move(key: u32) | Zero | Read

  // The add's one store, or none when the bucket is full of other keys.
  ghost predicate Adds(s: World, n: World, key: u32, value: u16) {
    && s.w.Idle?
    && var r := FindSlot(s.t, 0, |s.t|, key);
       n == if r == |s.t| then s
            else s.(t := s.t[r := Bound(s.t[r], key, value)], m := s.m[key := value])
  }

  // The delete's first store, or nothing when no slot has the key. Unless the entry is its own last
  // entry, this is where the key leaves the bucket.
  ghost predicate Moves(s: World, n: World, key: u32) {
    && s.w.Idle?
    && var r := FindKey(s.t, 0, |s.t|, key);
       n == if r == |s.t| then s
            else var last := LastUsed(s.t, r, |s.t|);
                 s.(t := s.t[r := s.t[last]], w := Clearing(r, last, key),
                    m := if r == last then s.m else s.m - {key})
  }

  // The delete's second store.
  ghost predicate Zeroes(s: World, n: World) {
    && s.w.Clearing? && s.w.last < |s.t|
    && n == s.(t := s.t[s.w.last := EMPTY], w := Idle,
               m := if s.w.at == s.w.last then s.m - {s.w.key} else s.m)
  }

  // One iteration of the lookup.
  ghost predicate Reads(s: World, n: World) {
    && s.r.Looking? && s.r.i < |s.t|
    && var e, key, i := s.t[s.r.i], s.r.key, s.r.i;
       n == s.(r := if !Active(e) then Missed(key)
                    else if e.key == key then Hit(key, e.value)
                    else if i + 1 == |s.t| then Missed(key)
                    else Looking(key, i + 1))
  }

  ghost predicate Step(s: World, ev: Event, n: World) {
    match ev
    case Add(key, value) => Adds(s, n, key, value)
    case Move(key) => Moves(s, n, key)
    case Zero => Zeroes(s, n)
    case Read => Reads(s, n)
  }

  // The stores of an operation, one after the other, are what the sequential operation does, and its effect
  // on the map is that of the operation, for a delete all at one of its two stores.
  lemma {:induction false} StoresAreOperations(s: World, mid: World, n: World, key: u32, value: u16)
    ensures Adds(s, n, key, value) ==>
      && n.t == AddTo(Tab(s.t, 0), 0, |s.t|, key, value).0.t
      && n.m == if AddTo(Tab(s.t, 0), 0, |s.t|, key, value).1 == 0 then s.m[key := value] else s.m
    ensures Moves(s, mid, key) && Zeroes(mid, n) ==>
      && n.t == DeleteFrom(Tab(s.t, 0), 0, |s.t|, key).0.t
      && n.m == s.m - {key} && (mid.m == s.m || mid.m == n.m)
  {
  }

  // The writer's stores leave the reader alone, and the reader changes nothing but its own place.
  lemma {:induction false} ThreadsApart(s: World, ev: Event, n: World)
    requires Step(s, ev, n)
    ensures if ev.Read? then n == s.(r := n.r) else n.r == s.r
  {
  }

  // A read of the lookup is one step of the sequential search: it goes on, or ends with its answer.
  lemma {:induction false} ReadIsSearch(s: World, n: World)
    requires Reads(s, n)
    ensures var t, key, i := s.t, s.r.key, s.r.i;
            var answer := LookIn(t[i..], 0, |t| - i, key);
            match n.r
            case Looking(_, j) => j == i + 1 < |t| && LookIn(t[j..], 0, |t| - j, key) == answer
            case Hit(_, v) => answer == v
            case Missed(_) => answer == -ENOENT
  {
    var t, key, i := s.t, s.r.key, s.r.i;
    ShiftedSearch(t, i, i, key);
    if n.r.Looking? {
      ShiftedSearch(t, i + 1, i + 1, key);
    }
  }

  lemma {:induction false} ShiftedSearch(t: Slots, lo: nat, i: nat, key: u32)
    requires lo <= i <= |t|
    ensures FindSlot(t[lo..], i - lo, |t| - lo, key) + lo == FindSlot(t, i, |t|, key)
    decreases |t| - i
  {
    if i < |t| {
      ShiftedSearch(t, lo, i + 1, key);
    }
  }

  ghost predicate Has(t: Slots, lo: nat, key: u32) {
    exists i: nat :: lo <= i < |t| && Active(t[i]) && t[i].key == key
  }

  // Every active entry is in the map with its value, and every key of the map has an entry.
  ghost predicate Represents(t: Slots, m: map<u32, u16>) {
    && (forall i: nat :: i < |t| && Active(t[i]) ==> t[i].key in m && m[t[i].key] == t[i].value)
    && (forall k: u32 :: k in m ==> Has(t, 0, k))
  }

  // A key is in two places only in the middle of a delete.
  ghost predicate Twins(t: Slots, w: Writer) {
    forall i: nat, j: nat :: i < j < |t| && Active(t[i]) && Active(t[j]) && t[i].key == t[j].key ==>
      w.Clearing? && i == w.at && j == w.last
  }

  ghost predicate ClearingOk(t: Slots, w: Writer, m: map<u32, u16>) {
    w.Clearing? ==>
      && w.at <= w.last < |t| && t[w.at] == t[w.last]
      && (forall j: nat :: w.last < j < |t| ==> !Active(t[j]))
      && (w.at == w.last && Active(t[w.at]) ==> t[w.at].key == w.key)
      && (!Active(t[w.last]) ==> w.at == w.last && w.key !in m)
  }

  ghost predicate Inv(s: World) {
    && |s.t| > 0
    && Packed(s.t, 0, |s.t|)
    && (forall i: nat :: i < |s.t| && !Active(s.t[i]) ==> s.t[i] == EMPTY)
    && Twins(s.t, s.w)
    && ClearingOk(s.t, s.w, s.m)
    && Represents(s.t, s.m)
    && (s.r.Looking? ==> s.r.i < |s.t|)
  }

  lemma {:induction false} HasAt(t: Slots, lo: nat, i: nat)
    requires lo <= i < |t| && Active(t[i])
    ensures Has(t, lo, t[i].key)
  {
  }

  // The add's store touches the only slot that can hold the key.
  lemma {:induction false} AddIsOnly(s: World, key: u32)
    requires Inv(s) && s.w.Idle?
    ensures var r := FindSlot(s.t, 0, |s.t|, key); r < |s.t| ==> OnlyAt(s.t, r, key)
  {
    hide Represents;
    var r := FindSlot(s.t, 0, |s.t|, key);
    forall j: nat | r < |s.t| && j < |s.t| && j != r && Active(s.t[j])
      ensures s.t[j].key != key
    {
      if Active(s.t[r]) {
        assert s.t[r].key == key;
      }
    }
  }

  lemma {:induction false} AddRepresents(t: Slots, m: map<u32, u16>, r: nat, e: Entry)
    requires Represents(t, m) && r < |t| && Active(e) && OnlyAt(t, r, e.key)
    requires Active(t[r]) ==> t[r].key == e.key
    ensures Represents(t[r := e], m[e.key := e.value])
  {
    var n, m' := t[r := e], m[e.key := e.value];
    assert n[r] == e;
    forall k: u32 | k in m'
      ensures Has(n, 0, k)
    {
      if k == e.key {
        HasAt(n, 0, r);
      } else {
        var i: nat :| i < |t| && Active(t[i]) && t[i].key == k;
        HasAt(n, 0, i);
      }
    }
  }

  lemma {:induction false} AddKeeps(s: World, n: World, key: u32, value: u16)
    requires Inv(s) && Adds(s, n, key, value)
    ensures Inv(n)
  {
    hide Represents;
    AddIsOnly(s, key);
    var r := FindSlot(s.t, 0, |s.t|, key);
    if r < |s.t| {
      var e := Bound(s.t[r], key, value);
      assert n.t[r] == e;
      AddRepresents(s.t, s.m, r, e);
    }
  }

  lemma {:induction false} MoveRepresents(t: Slots, m: map<u32, u16>, r: nat, last: nat)
    requires Represents(t, m) && Twins(t, Idle) && r < last < |t| && Active(t[r]) && Active(t[last])
    ensures Represents(t[r := t[last]], m - {t[r].key})
  {
    var n, m' := t[r := t[last]], m - {t[r].key};
    forall i: nat | i < |n| && Active(n[i])
      ensures n[i].key in m' && m'[n[i].key] == n[i].value
    {
      assert n[i] == t[if i == r then last else i];
    }
    forall k: u32 | k in m'
      ensures Has(n, 0, k)
    {
      var i: nat :| i < |t| && Active(t[i]) && t[i].key == k;
      assert i != r;
      HasAt(n, 0, i);
    }
  }

  lemma {:induction false} MoveTwins(t: Slots, r: nat, last: nat, key: u32)
    requires Twins(t, Idle) && r < last < |t| && Active(t[r]) && Active(t[last])
    ensures Twins(t[r := t[last]], Clearing(r, last, key))
  {
    var n := t[r := t[last]];
    forall i: nat, j: nat | i < j < |n| && Active(n[i]) && Active(n[j]) && n[i].key == n[j].key
      ensures i == r && j == last
    {
      var i', j' := if i == r then last else i, if j == r then last else j;
      assert n[i] == t[i'] && n[j] == t[j'];
      assert i' == j' || i' < j' || j' < i';
    }
  }

  // A delete whose entry is the last one, or a free slot, starts with a store that changes nothing.
  lemma {:induction false} MoveOntoItself(s: World, r: nat, key: u32)
    requires Inv(s) && s.w.Idle? && r < |s.t| && r == FindKey(s.t, 0, |s.t|, key)
    requires r == LastUsed(s.t, r, |s.t|)
    ensures Inv(s.(w := Clearing(r, r, key)))
  {
    assert forall j: nat :: r < j < |s.t| ==> !Active(s.t[j]);
    assert !Active(s.t[r]) ==> !Has(s.t, 0, key);
  }

  lemma {:induction false} MoveOverAnother(s: World, n: World, r: nat, last: nat, key: u32)
    requires Inv(s) && s.w.Idle? && r < last < |s.t| && last == LastUsed(s.t, r, |s.t|)
    requires s.t[r].key == key
    requires n == s.(t := s.t[r := s.t[last]], w := Clearing(r, last, key), m := s.m - {key})
    ensures Inv(n)
  {
    assert Active(s.t[r]) && Active(s.t[last]);
    assert forall j: nat :: last < j < |s.t| ==> !Active(s.t[j]);
    MoveRepresents(s.t, s.m, r, last);
    MoveTwins(s.t, r, last, key);
  }

  lemma {:induction false} MoveKeeps(s: World, n: World, key: u32)
    requires Inv(s) && Moves(s, n, key)
    ensures Inv(n)
  {
    hide Inv;
    var r := FindKey(s.t, 0, |s.t|, key);
    if r < |s.t| {
      var last := LastUsed(s.t, r, |s.t|);
      if r == last {
        MoveOntoItself(s, r, key);
        assert n.t == s.t;
      } else {
        MoveOverAnother(s, n, r, last, key);
      }
    }
  }

  lemma {:induction false} ZeroKeeps(s: World, n: World)
    requires Inv(s) && Zeroes(s, n)
    ensures Inv(n)
  {
    var at, last := s.w.at, s.w.last;
    forall k: u32 | k in n.m
      ensures Has(n.t, 0, k)
    {
      var i: nat :| i < |s.t| && Active(s.t[i]) && s.t[i].key == k;
      if i == last {
        assert at != last;
        HasAt(n.t, 0, at);
      } else {
        HasAt(n.t, 0, i);
      }
    }
  }

  // The invariant holds at every step: the bucket stands for the map even between a delete's stores.
  lemma {:induction false} StepKeeps(s: World, ev: Event, n: World)
    requires Inv(s) && Step(s, ev, n)
    ensures Inv(n)
  {
    match ev
    case Add(key, value) => AddKeeps(s, n, key, value);
    case Move(key) => MoveKeeps(s, n, key);
    case Zero => ZeroKeeps(s, n);
    case Read =>
  }

  // Neither thread ever has to wait for the other.
  lemma {:induction false} NeverStuck(s: World, key: u32, value: u16)
    requires Inv(s)
    ensures s.w.Idle? ==> (exists n :: Step(s, Add(key, value), n)) && (exists n :: Step(s, Move(key), n))
    ensures s.w.Clearing? ==> exists n :: Step(s, Zero, n)
    ensures s.r.Looking? ==> exists n :: Step(s, Read, n)
  {
    var t := s.t;
    if s.w.Idle? {
      var r, d := FindSlot(t, 0, |t|, key), FindKey(t, 0, |t|, key);
      var added := if r == |t| then s else s.(t := t[r := Bound(t[r], key, value)], m := s.m[key := value]);
      assert Step(s, Add(key, value), added);
      var last := if d == |t| then 0 else LastUsed(t, d, |t|);
      var moved := if d == |t| then s else
        s.(t := t[d := t[last]], w := Clearing(d, last, key), m := if d == last then s.m else s.m - {key});
      assert Step(s, Move(key), moved);
    } else {
      var zeroed := s.(t := t[s.w.last := EMPTY], w := Idle, m := if s.w.at == s.w.last then s.m - {s.w.key} else s.m);
      assert Step(s, Zero, zeroed);
    }
    if s.r.Looking? {
      var e, k := t[s.r.i], s.r.key;
      var read := s.(r := if !Active(e) then Missed(k) else if e.key == k then Hit(k, e.value)
                          else if s.r.i + 1 == |t| then Missed(k) else Looking(k, s.r.i + 1));
      assert Step(s, Read, read);
    }
  }

  // Outside a delete the map is the one the bucket's slots stand for.
  lemma {:induction false} IdleIsContents(s: World)
    requires Inv(s) && s.w.Idle?
    ensures Distinct(s.t) && Contents(s.t) == s.m
  {
    assert Distinct(s.t) by {
      forall i: nat, j: nat | i < |s.t| && j < |s.t| && Active(s.t[i]) && Active(s.t[j]) && s.t[i].key == s.t[j].key
        ensures i == j
      {
        assert i < j || i == j || j < i;
      }
    }
    forall k: u32, v: u16
      ensures Binds(s.t, k, v) <==> k in s.m && s.m[k] == v
    {
      if k in s.m {
        assert Has(s.t, 0, k);
        var i: nat :| i < |s.t| && Active(s.t[i]) && s.t[i].key == k;
        assert s.t[i].value == s.m[k];
      }
    }
    ContentsAre(s.t, s.m);
  }

  /** Runs */

  ghost predicate StepAt(ss: seq<World>, evs: seq<Event>, k: nat)
    requires |ss| == |evs| + 1 && k < |evs|
  {
    Step(ss[k], evs[k], ss[k + 1])
  }

  ghost predicate Run(ss: seq<World>, evs: seq<Event>) {
    |ss| == |evs| + 1 && Inv(ss[0]) && forall k: nat :: k < |evs| ==> StepAt(ss, evs, k)
  }

  lemma {:induction false} RunKeeps(ss: seq<World>, evs: seq<Event>, k: nat)
    requires Run(ss, evs) && k < |ss|
    ensures Inv(ss[k])
  {
    if k > 0 {
      RunKeeps(ss, evs, k - 1);
      assert StepAt(ss, evs, k - 1);
      StepKeeps(ss[k - 1], evs[k - 1], ss[k]);
    }
  }

  // The reader keeps its key.
  lemma {:induction false} SameKey(ss: seq<World>, evs: seq<Event>, k: nat)
    requires Run(ss, evs) && k < |ss|
    ensures ss[k].r.key == ss[0].r.key
  {
    if k > 0 {
      SameKey(ss, evs, k - 1);
      assert StepAt(ss, evs, k - 1);
    }
  }

  ghost predicate BoundWhileLooking(s: World, key: u32, v: u16) {
    s.r.Looking? && key in s.m && s.m[key] == v
  }

  // A value that a lookup returns was bound to its key at a moment of that lookup.
  lemma {:induction false} HitWasBound(ss: seq<World>, evs: seq<Event>)
    requires Run(ss, evs) && ss[0].r.Looking? && ss[|evs|].r.Hit?
    ensures exists k: nat :: k < |evs| && BoundWhileLooking(ss[k], ss[0].r.key, ss[|evs|].r.value)
    decreases |evs|
  {
    var k := |evs| - 1;
    assert StepAt(ss, evs, k);
    RunKeeps(ss, evs, k);
    SameKey(ss, evs, k);
    if ss[k].r.Looking? {
      assert BoundWhileLooking(ss[k], ss[0].r.key, ss[|evs|].r.value);
    } else {
      assert ss[k].r == ss[|evs|].r;
      var ss', evs' := ss[..k + 1], evs[..k];
      assert forall j: nat :: j < k ==> StepAt(ss, evs, j) ==> StepAt(ss', evs', j);
      HitWasBound(ss', evs');
      var j: nat :| j < |evs'| && BoundWhileLooking(ss'[j], ss'[0].r.key, ss'[|evs'|].r.value);
      assert BoundWhileLooking(ss[j], ss[0].r.key, ss[|evs|].r.value);
    }
  }

  // The delete's second store takes the reader's key away in front of the reader, the copy being behind.
  ghost predicate Hides(s: World, ev: Event) {
    && ev.Zero? && s.w.Clearing? && s.r.Looking?
    && s.w.at < s.r.i <= s.w.last < |s.t| && s.t[s.w.last].key == s.r.key
  }

  // The key is still to come, or found.
  ghost predicate Ahead(s: World) {
    match s.r
    case Looking(key, i) => Has(s.t, i, key)
    case Hit(_, _) => true
    case Missed(_) => false
  }

  // The key of the reader is at slot i, at or ahead of it.
  ghost predicate AheadAt(s: World, i: nat) {
    s.r.Looking? && s.r.i <= i < |s.t| && Active(s.t[i]) && s.t[i].key == s.r.key
  }

  lemma {:induction false} AheadAdd(s: World, n: World, key: u32, value: u16, i: nat)
    requires Adds(s, n, key, value) && AheadAt(s, i)
    ensures AheadAt(n, i)
  {
  }

  lemma {:induction false} AheadMove(s: World, n: World, key: u32, i: nat)
    requires Inv(s) && Moves(s, n, key) && AheadAt(s, i) && s.r.key in n.m
    ensures AheadAt(n, i)
  {
    hide Represents, Twins, Packed;
    var r := FindKey(s.t, 0, |s.t|, key);
    assert i == r && r < |s.t| ==> r == LastUsed(s.t, r, |s.t|);
  }

  lemma {:induction false} AheadZero(s: World, n: World, i: nat)
    requires Inv(s) && Zeroes(s, n) && AheadAt(s, i) && s.r.key in n.m && !Hides(s, Zero)
    ensures AheadAt(n, if i == s.w.last then s.w.at else i)
  {
    hide Represents, Twins, Packed;
  }

  lemma {:induction false} AheadRead(s: World, n: World, i: nat)
    requires Packed(s.t, 0, |s.t|) && Reads(s, n) && AheadAt(s, i)
    ensures n.r.Looking? ==> AheadAt(n, i)
    ensures !n.r.Missed?
  {
    assert Active(s.t[s.r.i]);
  }

  lemma {:induction false} AheadIsAt(s: World, i: nat)
    requires AheadAt(s, i)
    ensures Ahead(s)
  {
  }

  lemma {:induction false} AheadStep(s: World, ev: Event, n: World)
    requires Inv(s) && Step(s, ev, n) && Ahead(s)
    requires n.r.Looking? ==> n.r.key in n.m
    requires !Hides(s, ev)
    ensures Ahead(n)
  {
    hide Represents, Twins, ClearingOk, AheadAt, Hides;
    if s.r.Looking? {
      var i: nat :| s.r.i <= i < |s.t| && Active(s.t[i]) && s.t[i].key == s.r.key;
      IsAheadAt(s, i);
      match ev
      case Add(key, value) =>
        AheadAdd(s, n, key, value, i);
        AheadIsAt(n, i);
      case Move(key) =>
        AheadMove(s, n, key, i);
        AheadIsAt(n, i);
      case Zero =>
        AheadZero(s, n, i);
        AheadIsAt(n, if i == s.w.last then s.w.at else i);
      case Read =>
        AheadRead(s, n, i);
        if n.r.Looking? {
          AheadIsAt(n, i);
        }
    }
  }

  lemma {:induction false} IsAheadAt(s: World, i: nat)
    requires s.r.Looking? && s.r.i <= i < |s.t| && Active(s.t[i]) && s.t[i].key == s.r.key
    ensures AheadAt(s, i)
  {
  }

  ghost predicate Kept(s: World) {
    s.r.Looking? ==> s.r.key in s.m
  }

  lemma {:induction false} AheadAll(ss: seq<World>, evs: seq<Event>, k: nat)
    requires Run(ss, evs) && k < |ss| && Ahead(ss[0])
    requires forall j: nat :: j < |ss| ==> Kept(ss[j])
    requires forall j: nat :: j < |evs| ==> !Hides(ss[j], evs[j])
    ensures Ahead(ss[k])
  {
    if k > 0 {
      AheadAll(ss, evs, k - 1);
      RunKeeps(ss, evs, k - 1);
      assert StepAt(ss, evs, k - 1);
      assert Kept(ss[k]);
      AheadStep(ss[k - 1], evs[k - 1], ss[k]);
    }
  }

  // A lookup over a whole run that misses its key although the key stays bound.
  ghost predicate MissedRun(ss: seq<World>, evs: seq<Event>) {
    && Run(ss, evs) && ss[0].r.Looking? && ss[0].r.i == 0 && ss[|evs|].r.Missed?
    && forall j: nat :: j < |ss| ==> Kept(ss[j])
  }

  // A lookup misses a key that stays bound all along only if a delete has moved the key's entry from
  // ahead of the reader to behind it.
  lemma {:induction false} MissMeansHidden(ss: seq<World>, evs: seq<Event>)
    requires MissedRun(ss, evs)
    ensures exists j: nat :: j < |evs| && Hides(ss[j], evs[j])
  {
    if forall j: nat :: j < |evs| ==> !Hides(ss[j], evs[j]) {
      assert Kept(ss[0]);
      AheadAll(ss, evs, |evs|);
    }
  }

  // All entries of the reader's key are behind it.
  ghost predicate Behind(s: World) {
    match s.r
    case Looking(key, i) => !Has(s.t, i, key)
    case Hit(_, _) => false
    case Missed(_) => true
  }

  lemma {:induction false} HidesPutsBehind(s: World, ev: Event, n: World)
    requires Inv(s) && Step(s, ev, n) && Hides(s, ev)
    ensures Behind(n)
  {
    assert Active(s.t[s.w.at]) ==> s.t[s.w.at].key == s.r.key;
  }

  lemma {:induction false} BehindStep(s: World, ev: Event, n: World)
    requires Inv(s) && Step(s, ev, n) && Behind(s) && Kept(s)
    ensures Behind(n)
  {
    assert s.r.Looking? ==> Has(s.t, 0, s.r.key);
  }

  lemma {:induction false} BehindOn(ss: seq<World>, evs: seq<Event>, j: nat, k: nat)
    requires Run(ss, evs) && j <= k < |ss| && Behind(ss[j])
    requires forall i: nat :: i < |ss| ==> Kept(ss[i])
    ensures Behind(ss[k])
    decreases k - j
  {
    if j < k {
      BehindOn(ss, evs, j, k - 1);
      RunKeeps(ss, evs, k - 1);
      assert StepAt(ss, evs, k - 1) && Kept(ss[k - 1]);
      BehindStep(ss[k - 1], evs[k - 1], ss[k]);
    }
  }

  // A finished lookup of a key that stays bound all along misses it exactly when a delete has moved the
  // key's entry from ahead of the reader to behind it.
  lemma {:induction false} MissExactly(ss: seq<World>, evs: seq<Event>)
    requires Run(ss, evs) && ss[0].r.Looking? && ss[0].r.i == 0 && !ss[|evs|].r.Looking?
    requires forall j: nat :: j < |ss| ==> Kept(ss[j])
    ensures ss[|evs|].r.Missed? <==> exists j: nat :: j < |evs| && Hides(ss[j], evs[j])
  {
    if ss[|evs|].r.Missed? {
      MissMeansHidden(ss, evs);
    }
    if exists j: nat :: j < |evs| && Hides(ss[j], evs[j]) {
      var j: nat :| j < |evs| && Hides(ss[j], evs[j]);
      RunKeeps(ss, evs, j);
      assert StepAt(ss, evs, j);
      HidesPutsBehind(ss[j], evs[j], ss[j + 1]);
      BehindOn(ss, evs, j + 1, |evs|);
    }
  }

  lemma {:induction false} AddsKeepBound(ss: seq<World>, evs: seq<Event>, k: nat, key: u32)
    requires Run(ss, evs) && k < |ss| && key in ss[0].m && ss[0].w.Idle?
    requires forall j: nat :: j < |evs| ==> evs[j].Add? || evs[j].Read?
    ensures key in ss[k].m && ss[k].w.Idle?
  {
    if k > 0 {
      AddsKeepBound(ss, evs, k - 1, key);
      assert StepAt(ss, evs, k - 1);
    }
  }

  // While only adds and updates run, a key that is bound when the lookup starts is never missed.
  lemma {:induction false} NoDeletesNoMiss(ss: seq<World>, evs: seq<Event>)
    requires Run(ss, evs) && ss[0].r.Looking? && ss[0].r.i == 0 && ss[0].w.Idle?
    requires ss[0].r.key in ss[0].m
    requires forall j: nat :: j < |evs| ==> evs[j].Add? || evs[j].Read?
    ensures !ss[|evs|].r.Missed?
  {
    forall j: nat | j < |ss|
      ensures Kept(ss[j])
    {
      AddsKeepBound(ss, evs, j, ss[0].r.key);
      SameKey(ss, evs, j);
    }
    if ss[|evs|].r.Missed? {
      MissMeansHidden(ss, evs);
    }
  }

  /** The miss does happen: a delete of the key in slot 0 moves the key behind a reader at slot 1. */

  const FIRST := Entry(1, 10, 1)
  const SECOND := Entry(1, 20, 2)

  const W0 := World([FIRST, SECOND], Idle, Looking(2, 0), map[1 := 10, 2 := 20])
  const W1 := World([FIRST, SECOND], Idle, Looking(2, 1), map[1 := 10, 2 := 20])
  const W2 := World([SECOND, SECOND], Clearing(0, 1, 1), Looking(2, 1), map[2 := 20])
  const W3 := World([SECOND, EMPTY], Idle, Looking(2, 1), map[2 := 20])
  const W4 := World([SECOND, EMPTY], Idle, Missed(2), map[2 := 20])

  lemma {:induction false} WitnessStart()
    ensures Inv(W0)
  {
    HasAt(W0.t, 0, 0);
    HasAt(W0.t, 0, 1);
  }

  lemma {:induction false} WitnessMove()
    ensures Moves(W1, W2, 1)
  {
    assert FindKey(W1.t, 0, 2, 1) == 0;
    assert LastUsed(W1.t, 0, 2) == 1;
    assert W1.m - {1} == W2.m;
  }

  lemma {:induction false} WitnessRest()
    ensures Reads(W0, W1) && Zeroes(W2, W3) && Reads(W3, W4)
  {
  }

  lemma {:induction false} MissWitness()
    ensures exists ss: seq<World>, evs: seq<Event> :: MissedRun(ss, evs)
  {
    var ss, evs := [W0, W1, W2, W3, W4], [Read, Move(1), Zero, Read];
    WitnessStart();
    WitnessMove();
    WitnessRest();
    forall k: nat | k < |evs|
      ensures StepAt(ss, evs, k)
    {
      hide Adds, Moves, Zeroes, Reads;
      assert k == 0 || k == 1 || k == 2 || k == 3;
    }
    assert MissedRun(ss, evs);
  }
}
