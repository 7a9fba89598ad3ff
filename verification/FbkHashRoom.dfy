/**
 The buckets of include/rte_fbk_hash.h as they show in the map: the keys that share a bucket are those whose
 hashes leave the same remainder by the number of buckets, and a bucket is full exactly when the map binds
 its number of them.
 */
module FbkHashRoom {
  import opened Words
  import opened FbkHash

  predicate Congruent(c: Config, k1: u32, k2: u32) {
    c.hashFunc(k1, c.initVal) % (c.bucketMask + 1) == c.hashFunc(k2, c.initVal) % (c.bucketMask + 1)
  }

  // The bound keys with a hash congruent to that of a key.
  ghost function Mates(c: Config, m: map<u32, u16>, key: u32): set<u32> {
    set k: u32 | k in m && Congruent(c, k, key)
  }

  ghost predicate NoRoom(c: Config, m: map<u32, u16>, key: u32) {
    |Mates(c, m, key)| == c.entriesPerBucket
  }

  lemma {:induction false} CongruentIsSameBucket(c: Config, k1: u32, k2: u32)
    requires ConfigOk(c)
    ensures Congruent(c, k1, k2) <==> GetBucket(c, k1) == GetBucket(c, k2)
  {
    hide GetBucket;
    BucketOfHash(c, k1);
    BucketOfHash(c, k2);
    BucketInRange(c, k1);
    var r1, r2 := c.hashFunc(k1, c.initVal) % (c.bucketMask + 1), c.hashFunc(k2, c.initVal) % (c.bucketMask + 1);
    if r1 < r2 {
      RowInRange(r1, r2, c.entriesPerBucket);
    } else if r2 < r1 {
      RowInRange(r2, r1, c.entriesPerBucket);
    }
  }

  lemma {:induction false} CountIfAll(w: Slots)
    ensures CountActive(w) == |w| <==> forall i: nat :: i < |w| ==> Active(w[i])
    decreases |w|
  {
    if w != [] {
      var m := |w| - 1;
      var s := w[..m];
      CountIfAll(s);
      if forall i: nat :: i < |w| ==> Active(w[i]) {
        assert forall i: nat :: i < m ==> s[i] == w[i];
      } else if Active(w[m]) {
        var i: nat :| i < |w| && !Active(w[i]);
        assert s[i] == w[i];
      }
    }
  }

  lemma {:induction false} BucketKeys(c: Config, t: Slots, key: u32)
    requires ConfigOk(c) && TableInv(c, t)
    requires GetBucket(c, key) + c.entriesPerBucket <= |t|
    ensures var b := GetBucket(c, key);
            Keys(t[b..b + c.entriesPerBucket]) == Mates(c, Contents(t), key)
  {
    hide Packed, BucketPacked, Congruent, GetBucket, Distinct;
    var b, e := GetBucket(c, key), c.entriesPerBucket;
    var w := t[b..b + e];
    forall k: u32
      ensures k in Keys(w) <==> k in Mates(c, Contents(t), key)
    {
      if k in Keys(w) {
        var i := SlotOf(w, k);
        assert t[b + i] == w[i];
        SameBucket(c, t, key, b + i);
        CongruentIsSameBucket(c, k, key);
        ContentsAt(t, b + i);
      }
      if k in Mates(c, Contents(t), key) {
        var i := SlotOf(t, k);
        CongruentIsSameBucket(c, k, key);
        assert w[i - b] == t[i];
      }
    }
  }

  lemma {:induction false} SliceDistinct(t: Slots, b: nat, e: nat)
    requires Distinct(t) && b + e <= |t|
    ensures Distinct(t[b..b + e])
  {
    var w := t[b..b + e];
    forall i: nat, j: nat | i < e && j < e && Active(w[i]) && Active(w[j]) && w[i].key == w[j].key
      ensures i == j
    {
      assert w[i] == t[b + i] && w[j] == t[b + j];
    }
  }

  lemma {:induction false} FullSlice(t: Slots, b: nat, e: nat)
    requires b + e <= |t|
    ensures Full(t, b, e) <==> CountActive(t[b..b + e]) == e
  {
    var w := t[b..b + e];
    CountIfAll(w);
    if forall i: nat :: i < e ==> Active(w[i]) {
      forall i: nat | b <= i < b + e
        ensures Active(t[i])
      {
        assert w[i - b] == t[i];
      }
    } else {
      var i: nat :| i < e && !Active(w[i]);
      assert t[b + i] == w[i];
    }
  }

  // A bucket is full of used slots exactly when the map binds that many keys of it.
  lemma {:induction false} FullIsNoRoom(c: Config, t: Slots, key: u32)
    requires ConfigOk(c) && TableInv(c, t)
    requires GetBucket(c, key) + c.entriesPerBucket <= |t|
    ensures Full(t, GetBucket(c, key), c.entriesPerBucket) <==> NoRoom(c, Contents(t), key)
  {
    hide Contents, Keys, Full, Mates;
    var b, e := GetBucket(c, key), c.entriesPerBucket;
    SliceDistinct(t, b, e);
    BucketKeys(c, t, key);
    KeysCount(t[b..b + e]);
    FullSlice(t, b, e);
  }
}
