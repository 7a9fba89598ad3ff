/**
 The bucketed hash table of include/rte_fbk_hash.h on the sequence of its slots: the finite map it
 stands for and what storing into a slot does to that map.
 */
module FbkHash {
  import opened Words

  // The 64-bit union: is_entry, value and key.
  datatype Entry = Entry(isEntry: u16, value: u16, key: u32)

  const EMPTY := Entry(0, 0, 0)

  type Slots = seq<Entry>

  predicate Active(e: Entry) {
    e.isEntry != 0
  }

  // The fields of the table that creation sets and nothing changes.
  datatype Config = Config(
    entries: u32, entriesPerBucket: u32, bucketMask: u32, bucketShift: u32,
    hashFunc: (u32, u32) -> u32, initVal: u32)

  ghost predicate ConfigOk(c: Config) {
    && c.bucketShift < 32
    && c.entriesPerBucket == Pow2(c.bucketShift)
    && IsPow2(c.bucketMask + 1)
    && c.entries == Doubled(c.bucketMask + 1, c.bucketShift)
  }

  // The offset of the bucket of a key.
  function GetBucket(c: Config, key: u32): nat {
    Doubled(And(c.hashFunc(key, c.initVal), c.bucketMask), c.bucketShift)
  }

  lemma {:induction false} RowInRange(m: nat, n: nat, e: nat)
    requires m < n
    ensures m * e + e <= n * e
  {
    MulMono(m + 1, n, e);
    assert (m + 1) * e == m * e + e;
  }

  lemma {:induction false} BucketInRange(c: Config, key: u32)
    requires ConfigOk(c)
    ensures c.entriesPerBucket > 0 && GetBucket(c, key) + c.entriesPerBucket <= c.entries
  {
    var h := c.hashFunc(key, c.initVal);
    AndBound(h, c.bucketMask);
    RowInRange(And(h, c.bucketMask), c.bucketMask + 1, c.entriesPerBucket);
    DoubledIsTimes(And(h, c.bucketMask), c.bucketShift);
    DoubledIsTimes(c.bucketMask + 1, c.bucketShift);
  }

  lemma {:induction false} RowsApart(m: nat, n: nat, e: nat)
    requires m * e < n * e
    ensures m * e + e <= n * e
  {
    if n <= m {
      MulMono(n, m, e);
    } else {
      RowInRange(m, n, e);
    }
  }

  lemma {:induction false} BucketsDisjoint(c: Config, k1: u32, k2: u32)
    requires ConfigOk(c) && GetBucket(c, k1) < GetBucket(c, k2)
    ensures GetBucket(c, k1) + c.entriesPerBucket <= GetBucket(c, k2)
  {
    var m1, m2 := And(c.hashFunc(k1, c.initVal), c.bucketMask), And(c.hashFunc(k2, c.initVal), c.bucketMask);
    DoubledIsTimes(m1, c.bucketShift);
    DoubledIsTimes(m2, c.bucketShift);
    RowsApart(m1, m2, c.entriesPerBucket);
  }

  // Which bucket: the remainder of the hash by the number of buckets.
  lemma {:induction false} BucketOfHash(c: Config, key: u32)
    requires ConfigOk(c)
    ensures GetBucket(c, key) == c.hashFunc(key, c.initVal) % (c.bucketMask + 1) * c.entriesPerBucket
  {
    AndMask(c.hashFunc(key, c.initVal), c.bucketMask + 1);
    DoubledIsTimes(And(c.hashFunc(key, c.initVal), c.bucketMask), c.bucketShift);
  }

  /** The map a table stands for */

  ghost predicate Distinct(t: Slots) {
    forall i: nat, j: nat {:trigger Active(t[i]), Active(t[j])} ::
      i < |t| && j < |t| && Active(t[i]) && Active(t[j]) && t[i].key == t[j].key ==> i == j
  }

  ghost function Keys(t: Slots): set<u32> {
    set i: nat | i < |t| && Active(t[i]) :: t[i].key
  }

  ghost function SlotOf(t: Slots, key: u32): (i: nat)
    requires key in Keys(t)
    ensures i < |t| && Active(t[i]) && t[i].key == key
  {
    var i: nat :| i < |t| && Active(t[i]) && t[i].key == key;
    i
  }

  ghost function Contents(t: Slots): map<u32, u16> {
    map key: u32 | key in Keys(t) :: t[SlotOf(t, key)].value
  }

  lemma {:induction false} ContentsAt(t: Slots, i: nat)
    requires Distinct(t) && i < |t| && Active(t[i])
    ensures t[i].key in Contents(t) && Contents(t)[t[i].key] == t[i].value
  {
    assert t[i].key in Keys(t);
  }

  lemma {:induction false} SlotOfKey(t: Slots, key: u32) returns (i: nat)
    requires key in Contents(t)
    ensures i < |t| && Active(t[i]) && t[i].key == key
  {
    i := SlotOf(t, key);
  }

  ghost predicate Binds(t: Slots, k: u32, v: u16) {
    exists i: nat :: i < |t| && Active(t[i]) && t[i].key == k && t[i].value == v
  }

  lemma {:induction false} ContentsIff(t: Slots, k: u32, v: u16)
    requires Distinct(t)
    ensures Binds(t, k, v) <==> k in Contents(t) && Contents(t)[k] == v
  {
    if Binds(t, k, v) {
      var i: nat :| i < |t| && Active(t[i]) && t[i].key == k && t[i].value == v;
      ContentsAt(t, i);
    }
  }

  // A table stands for the map that binds the same values.
  lemma {:induction false} ContentsAre(t: Slots, m: map<u32, u16>)
    requires Distinct(t)
    requires forall k: u32, v: u16 :: Binds(t, k, v) <==> k in m && m[k] == v
    ensures Contents(t) == m
  {
    forall k: u32
      ensures k in Contents(t) <==> k in m
      ensures k in m ==> Contents(t)[k] == m[k]
    {
      if k in m {
        assert Binds(t, k, m[k]);
        ContentsIff(t, k, m[k]);
      }
      if k in Contents(t) {
        ContentsIff(t, k, Contents(t)[k]);
      }
    }
  }

  ghost predicate OnlyAt(t: Slots, i: nat, key: u32) {
    forall j: nat {:trigger Active(t[j])} :: j < |t| && j != i && Active(t[j]) ==> t[j].key != key
  }

  lemma {:induction false} StoredBinding(t: Slots, i: nat, e: Entry, k: u32, v: u16)
    requires Distinct(t) && i < |t| && Active(e) && OnlyAt(t, i, e.key)
    requires Active(t[i]) ==> t[i].key == e.key
    ensures Binds(t[i := e], k, v) <==> if k == e.key then v == e.value else Binds(t, k, v)
  {
    var n := t[i := e];
    assert n[i] == e;
    if Binds(n, k, v) {
      var j: nat :| j < |n| && Active(n[j]) && n[j].key == k && n[j].value == v;
      assert j != i ==> t[j] == n[j];
    }
    if k != e.key && Binds(t, k, v) {
      var j: nat :| j < |t| && Active(t[j]) && t[j].key == k && t[j].value == v;
      assert n[j] == t[j];
    }
  }

  lemma {:induction false} StoreDistinct(t: Slots, i: nat, e: Entry)
    requires Distinct(t) && i < |t| && OnlyAt(t, i, e.key)
    ensures Distinct(t[i := e])
  {
  }

  // A store that binds the key of e at slot i and leaves the other keys alone.
  lemma {:induction false} StoreBinds(t: Slots, i: nat, e: Entry)
    requires Distinct(t) && i < |t| && Active(e)
    requires if Active(t[i]) then t[i].key == e.key else e.key !in Contents(t)
    ensures Distinct(t[i := e]) && Contents(t[i := e]) == Contents(t)[e.key := e.value]
  {
    forall j: nat | j < |t| && j != i && Active(t[j])
      ensures t[j].key != e.key
    {
      ContentsAt(t, j);
    }
    StoreDistinct(t, i, e);
    var n, m := t[i := e], Contents(t)[e.key := e.value];
    forall k: u32, v: u16
      ensures Binds(n, k, v) <==> k in m && m[k] == v
    {
      StoredBinding(t, i, e, k, v);
      ContentsIff(t, k, v);
    }
    ContentsAre(n, m);
  }

  function Moved(t: Slots, i: nat, last: nat): (n: Slots)
    requires i < |t| && last < |t|
    ensures |n| == |t|
  {
    t[i := t[last]][last := EMPTY]
  }

  lemma {:induction false} MovedBinding(t: Slots, i: nat, last: nat, k: u32, v: u16)
    requires Distinct(t) && i < |t| && last < |t| && Active(t[i]) && Active(t[last])
    ensures Binds(Moved(t, i, last), k, v) <==> k != t[i].key && Binds(t, k, v)
  {
    var n := Moved(t, i, last);
    if Binds(n, k, v) {
      var j: nat :| j < |n| && Active(n[j]) && n[j].key == k && n[j].value == v;
      assert if j == i then n[j] == t[last] && i != last else n[j] == t[j];
    }
    if k != t[i].key && Binds(t, k, v) {
      var j: nat :| j < |t| && Active(t[j]) && t[j].key == k && t[j].value == v;
      assert if j == last then n[i] == t[j] else n[j] == t[j];
    }
  }

  lemma {:induction false} MovedDistinct(t: Slots, i: nat, last: nat)
    requires Distinct(t) && i < |t| && last < |t| && Active(t[i]) && Active(t[last])
    ensures Distinct(Moved(t, i, last))
  {
    var n := Moved(t, i, last);
    forall j: nat, k: nat | j < |n| && k < |n| && Active(n[j]) && Active(n[k]) && n[j].key == n[k].key
      ensures j == k
    {
      var j' := if j == i then last else j;
      var k' := if k == i then last else k;
      assert n[j] == t[j'] && n[k] == t[k'];
    }
  }

  // Moving the entry at `last` over the one at i and emptying `last` unbinds the key at i.
  lemma {:induction false} MoveUnbinds(t: Slots, i: nat, last: nat)
    requires Distinct(t) && i < |t| && last < |t| && Active(t[i]) && Active(t[last])
    ensures Distinct(Moved(t, i, last))
    ensures Contents(Moved(t, i, last)) == Contents(t) - {t[i].key}
  {
    MovedDistinct(t, i, last);
    var n, m := Moved(t, i, last), Contents(t) - {t[i].key};
    forall k: u32, v: u16
      ensures Binds(n, k, v) <==> k in m && m[k] == v
    {
      MovedBinding(t, i, last, k, v);
      ContentsIff(t, k, v);
    }
    ContentsAre(n, m);
  }

  /** Counting */

  function CountActive(t: Slots): (n: nat)
    ensures n <= |t|
    decreases |t|
  {
    if t == [] then 0
    else CountActive(t[..|t| - 1]) + (if Active(t[|t| - 1]) then 1 else 0)
  }

  lemma {:induction false} CountAfterStore(t: Slots, i: nat, e: Entry)
    requires i < |t|
    ensures CountActive(t[i := e]) + (if Active(t[i]) then 1 else 0)
         == CountActive(t) + (if Active(e) then 1 else 0)
    decreases |t|
  {
    var n := t[i := e];
    var m := |t| - 1;
    if i == m {
      assert n[..m] == t[..m];
    } else {
      assert n[..m] == t[..m][i := e];
      CountAfterStore(t[..m], i, e);
    }
  }

  lemma {:induction false} CountIsSize(t: Slots)
    requires Distinct(t)
    ensures |Contents(t)| == CountActive(t)
    decreases |t|
  {
    KeysCount(t);
    assert Contents(t).Keys == Keys(t);
  }

  lemma {:induction false} KeysCount(t: Slots)
    requires Distinct(t)
    ensures |Keys(t)| == CountActive(t)
    decreases |t|
  {
    if t != [] {
      var m := |t| - 1;
      var s := t[..m];
      assert forall i: nat :: i < m ==> s[i] == t[i];
      KeysCount(s);
      if Active(t[m]) {
        assert t[m].key !in Keys(s);
        assert Keys(t) == Keys(s) + {t[m].key} by {
          forall k: u32
            ensures k in Keys(t) <==> k in Keys(s) + {t[m].key}
          {
            KeysSplit(t, k);
          }
        }
      } else {
        assert Keys(t) == Keys(s) by {
          forall k: u32
            ensures k in Keys(t) <==> k in Keys(s)
          {
            KeysSplit(t, k);
          }
        }
      }
    }
  }

  lemma {:induction false} KeysSplit(t: Slots, k: u32)
    requires t != []
    ensures var m := |t| - 1;
            k in Keys(t) <==> k in Keys(t[..m]) || (Active(t[m]) && t[m].key == k)
  {
    var m := |t| - 1;
    var s := t[..m];
    if k in Keys(t) {
      var i := SlotOf(t, k);
      if i < m {
        assert s[i] == t[i];
      }
    }
    if k in Keys(s) {
      var i := SlotOf(s, k);
      assert t[i] == s[i];
    }
    if Active(t[m]) && t[m].key == k {
      assert t[m].key in Keys(t);
    }
  }

  /** The table invariant */

  // Bucket [b, b + e) keeps its used slots in front.
  ghost predicate Packed(t: Slots, b: nat, e: nat)
    requires b + e <= |t|
  {
    forall i: nat, j: nat {:trigger Active(t[i]), Active(t[j])} ::
      b <= i < j < b + e && Active(t[j]) ==> Active(t[i])
  }

  // Used slots come first in every bucket and have 1 in is_entry, every key is in its own bucket and nowhere
  // twice, and free slots are all zero.
  ghost predicate TableInv(c: Config, t: Slots)
    requires ConfigOk(c)
  {
    && |t| == c.entries
    && Distinct(t)
    && (forall i: nat {:trigger Active(t[i])} :: i < |t| && !Active(t[i]) ==> t[i] == EMPTY)
    && (forall i: nat {:trigger Active(t[i])} :: i < |t| && Active(t[i]) ==>
          t[i].isEntry == 1 && GetBucket(c, t[i].key) <= i < GetBucket(c, t[i].key) + c.entriesPerBucket)
    && (forall key: u32 :: BucketPacked(c, t, key))
  }

  ghost predicate BucketPacked(c: Config, t: Slots, key: u32)
    requires ConfigOk(c) && |t| == c.entries
  {
    BucketInRange(c, key);
    Packed(t, GetBucket(c, key), c.entriesPerBucket)
  }

  // A store into one bucket leaves the others packed.
  lemma {:induction false} OtherBucketsPacked(c: Config, t: Slots, n: Slots, key: u32)
    requires ConfigOk(c) && TableInv(c, t) && |n| == |t|
    requires var b := GetBucket(c, key);
             forall i: nat :: i < |t| && !(b <= i < b + c.entriesPerBucket) ==> n[i] == t[i]
    requires BucketPacked(c, n, key)
    ensures forall k: u32 :: BucketPacked(c, n, k)
  {
    forall k: u32
      ensures BucketPacked(c, n, k)
    {
      assert BucketPacked(c, t, k);
      BucketInRange(c, k);
      if GetBucket(c, k) < GetBucket(c, key) {
        BucketsDisjoint(c, k, key);
      } else if GetBucket(c, key) < GetBucket(c, k) {
        BucketsDisjoint(c, key, k);
      }
    }
  }

  /** Searching a bucket */

  // The first slot in t[lo..hi] that is free or holds the key, or hi.
  function FindSlot(t: Slots, lo: nat, hi: nat, key: u32): (r: nat)
    requires lo <= hi <= |t|
    ensures lo <= r <= hi
    ensures forall i: nat :: lo <= i < r ==> Active(t[i]) && t[i].key != key
    ensures r < hi ==> !Active(t[r]) || t[r].key == key
    decreases hi - lo
  {
    if lo == hi || !Active(t[lo]) || t[lo].key == key then lo else FindSlot(t, lo + 1, hi, key)
  }

  // The first free slot in t[lo..hi], or hi.
  function FirstFree(t: Slots, lo: nat, hi: nat): (r: nat)
    requires lo <= hi <= |t|
    ensures lo <= r <= hi
    ensures forall i: nat :: lo <= i < r ==> Active(t[i])
    ensures r < hi ==> !Active(t[r])
    decreases hi - lo
  {
    if lo == hi || !Active(t[lo]) then lo else FirstFree(t, lo + 1, hi)
  }

  ghost predicate Full(t: Slots, b: nat, e: nat)
    requires b + e <= |t|
  {
    forall i: nat {:trigger Active(t[i])} :: b <= i < b + e ==> Active(t[i])
  }

  // What the search says about the map.
  lemma {:induction false} FindSlotMeans(c: Config, t: Slots, key: u32)
    requires ConfigOk(c) && TableInv(c, t)
    ensures GetBucket(c, key) + c.entriesPerBucket <= |t|
    ensures var b, e := GetBucket(c, key), c.entriesPerBucket;
            var r := FindSlot(t, b, b + e, key);
            && (key in Contents(t) <==> r < b + e && Active(t[r]))
            && (r < b + e && Active(t[r]) ==> t[r].key == key && Contents(t)[key] == t[r].value)
            && (r == b + e <==> key !in Contents(t) && Full(t, b, e))
  {
    hide Contents, Full, Doubled, Packed;
    BucketInRange(c, key);
    FindSlotInMap(c, t, key);
    FindSlotFull(t, GetBucket(c, key), c.entriesPerBucket, key);
    var r := FindSlot(t, GetBucket(c, key), GetBucket(c, key) + c.entriesPerBucket, key);
    if r < GetBucket(c, key) + c.entriesPerBucket && Active(t[r]) {
      ContentsAt(t, r);
    }
  }

  lemma {:induction false} PackedBefore(t: Slots, b: nat, e: nat, i: nat, j: nat)
    requires b + e <= |t| && Packed(t, b, e) && b <= i <= j < b + e && Active(t[j])
    ensures Active(t[i])
  {
  }

  lemma {:induction false} FindSlotInMap(c: Config, t: Slots, key: u32)
    requires ConfigOk(c) && TableInv(c, t) && GetBucket(c, key) + c.entriesPerBucket <= |t|
    ensures var b, e := GetBucket(c, key), c.entriesPerBucket;
            var r := FindSlot(t, b, b + e, key);
            key in Contents(t) <==> r < b + e && Active(t[r])
  {
    hide Contents, Packed, Doubled;
    assert BucketPacked(c, t, key);
    var b, e := GetBucket(c, key), c.entriesPerBucket;
    var r := FindSlot(t, b, b + e, key);
    if r < b + e && Active(t[r]) {
      ContentsAt(t, r);
    }
    if key in Contents(t) {
      var i := SlotOfKey(t, key);
      assert b <= i < b + e && r <= i;
      PackedBefore(t, b, e, r, i);
    }
  }

  lemma {:induction false} FindSlotFull(t: Slots, b: nat, e: nat, key: u32)
    requires b + e <= |t|
    ensures var r := FindSlot(t, b, b + e, key);
            r == b + e <==> !(r < b + e && Active(t[r])) && Full(t, b, e)
  {
  }

  /** What the operations keep */

  lemma {:induction false} StoreKeepsInv(c: Config, t: Slots, e: Entry, i: nat)
    requires ConfigOk(c) && TableInv(c, t) && e.isEntry == 1
    requires GetBucket(c, e.key) + c.entriesPerBucket <= |t|
    requires i == FindSlot(t, GetBucket(c, e.key), GetBucket(c, e.key) + c.entriesPerBucket, e.key)
    requires i < GetBucket(c, e.key) + c.entriesPerBucket
    ensures TableInv(c, t[i := e])
  {
    hide Contents, Keys;
    FindSlotMeans(c, t, e.key);
    StoreBinds(t, i, e);
    assert BucketPacked(c, t, e.key);
    assert BucketPacked(c, t[i := e], e.key);
    OtherBucketsPacked(c, t, t[i := e], e.key);
  }

  // The last used slot of the bucket of the key at slot i.
  function LastUsed(t: Slots, i: nat, end: nat): nat
    requires i < end <= |t|
  {
    FirstFree(t, i + 1, end) - 1
  }

  lemma {:induction false} MoveKeepsInv(c: Config, t: Slots, i: nat)
    requires ConfigOk(c) && TableInv(c, t) && i < |t| && Active(t[i])
    ensures var end := GetBucket(c, t[i].key) + c.entriesPerBucket;
            i < end <= |t| && Active(t[LastUsed(t, i, end)])
            && TableInv(c, Moved(t, i, LastUsed(t, i, end)))
  {
    var key := t[i].key;
    BucketInRange(c, key);
    var b, end := GetBucket(c, key), GetBucket(c, key) + c.entriesPerBucket;
    var last := LastUsed(t, i, end);
    var n := Moved(t, i, last);
    MovedDistinct(t, i, last);
    assert BucketPacked(c, t, key);
    SameBucket(c, t, key, last);
    assert BucketPacked(c, n, key) by {
      forall j: nat, k: nat | b <= j < k < end && Active(n[k])
        ensures Active(n[j])
      {
        assert k < last;
      }
    }
    OtherBucketsPacked(c, t, n, key);
  }

  // Whatever sits in a key's bucket belongs to it.
  lemma {:induction false} SameBucket(c: Config, t: Slots, key: u32, j: nat)
    requires ConfigOk(c) && TableInv(c, t) && j < |t| && Active(t[j])
    requires GetBucket(c, key) <= j < GetBucket(c, key) + c.entriesPerBucket
    ensures GetBucket(c, t[j].key) == GetBucket(c, key)
  {
    if GetBucket(c, key) < GetBucket(c, t[j].key) {
      BucketsDisjoint(c, key, t[j].key);
    } else if GetBucket(c, t[j].key) < GetBucket(c, key) {
      BucketsDisjoint(c, t[j].key, key);
    }
  }

  function Cleared(n: nat): (t: Slots)
    ensures |t| == n && forall i :: 0 <= i < n ==> t[i] == EMPTY
  {
    seq(n, _ => EMPTY)
  }

  lemma {:induction false} ClearedInv(c: Config)
    requires ConfigOk(c)
    ensures TableInv(c, Cleared(c.entries)) && Contents(Cleared(c.entries)) == map[]
    ensures CountActive(Cleared(c.entries)) == 0
  {
    forall key: u32
      ensures BucketPacked(c, Cleared(c.entries), key)
    {
      BucketInRange(c, key);
    }
    CountIsSize(Cleared(c.entries));
  }
}
