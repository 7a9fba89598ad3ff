/**
 What adding, deleting and looking up do to the slots of the table, and what that means for the map.
 */
module FbkHashOps {
  import opened Common
  import opened Words
  import opened FbkHash
  import opened FbkHashRoom

  // The slots and the counter.
  datatype Tab = Tab(t: Slots, used: u32)

  ghost predicate SlotsOk(c: Config, t: Slots) {
    ConfigOk(c) && TableInv(c, t)
  }

  // By how much the counter falls short of the number of active slots.
  function Short(s: Tab): u32
    requires |s.t| < TWO_32
  {
    Minus32(CountActive(s.t), s.used)
  }

  ghost predicate Good(c: Config, s: Tab) {
    SlotsOk(c, s.t) && s.used == CountActive(s.t)
  }

  lemma {:induction false} GoodIfNotShort(c: Config, s: Tab)
    requires SlotsOk(c, s.t)
    ensures |s.t| == c.entries < TWO_32 && (Good(c, s) <==> Short(s) == 0)
  {
  }

  // What the add puts into the slot at which it stops.
  function Bound(e: Entry, key: u32, value: u16): Entry {
    if Active(e) then e.(value := value) else Entry(1, value, key)
  }

  // The first slot in t[lo..hi] whose key field is the key, used or not, or hi.
  function FindKey(t: Slots, lo: nat, hi: nat, key: u32): (r: nat)
    requires lo <= hi <= |t|
    ensures lo <= r <= hi
    ensures forall i: nat :: lo <= i < r ==> t[i].key != key
    ensures r < hi ==> t[r].key == key
    decreases hi - lo
  {
    if lo == hi || t[lo].key == key then lo else FindKey(t, lo + 1, hi, key)
  }

  // The add stops at the first slot of the bucket that is free or holds the key.
  function AddTo(s: Tab, b: nat, e: nat, key: u32, value: u16): (Tab, int)
    requires b + e <= |s.t|
  {
    var r := FindSlot(s.t, b, b + e, key);
    if r == b + e then (s, -ENOSPC)
    else (Tab(s.t[r := Bound(s.t[r], key, value)], if Active(s.t[r]) then s.used else Plus32(s.used, 1)), 0)
  }

  // The delete stops at the first slot of the bucket with the key, used or not.
  function DeleteFrom(s: Tab, b: nat, e: nat, key: u32): (Tab, int)
    requires b + e <= |s.t|
  {
    var r := FindKey(s.t, b, b + e, key);
    if r == b + e then (s, -ENOENT)
    else (Tab(Moved(s.t, r, LastUsed(s.t, r, b + e)), Minus32(s.used, 1)), 0)
  }

  function LookIn(t: Slots, b: nat, e: nat, key: u32): int
    requires b + e <= |t|
  {
    var r := FindSlot(t, b, b + e, key);
    if r == b + e || !Active(t[r]) then -ENOENT else t[r].value
  }

  // Deleting is right unless it takes a free slot, whose key field is 0, for an entry with key 0.
  ghost predicate DeleteConforms(c: Config, m: map<u32, u16>, key: u32) {
    key != 0 || key in m || NoRoom(c, m, key)
  }

  // The search finds the key exactly if the map binds it.
  lemma {:induction false} FindKeyInMap(c: Config, t: Slots, key: u32)
    requires ConfigOk(c) && TableInv(c, t) && GetBucket(c, key) + c.entriesPerBucket <= |t|
    ensures var b, e := GetBucket(c, key), c.entriesPerBucket;
            var r := FindKey(t, b, b + e, key);
            key in Contents(t) <==> r < b + e && Active(t[r])
  {
    hide Contents, Packed, Doubled;
    assert BucketPacked(c, t, key);
    var b, e := GetBucket(c, key), c.entriesPerBucket;
    var r := FindKey(t, b, b + e, key);
    if r < b + e && Active(t[r]) {
      ContentsAt(t, r);
    }
    if key in Contents(t) {
      var i := SlotOfKey(t, key);
      assert b <= i < b + e;
      PackedBefore(t, b, e, r, i);
    }
  }

  // A free slot's key field is 0: the search stops at one exactly when it looks for key 0 and nothing in
  // front stops it.
  lemma {:induction false} FindKeyFree(c: Config, t: Slots, key: u32)
    requires ConfigOk(c) && TableInv(c, t) && GetBucket(c, key) + c.entriesPerBucket <= |t|
    ensures var b, e := GetBucket(c, key), c.entriesPerBucket;
            var r := FindKey(t, b, b + e, key);
            r < b + e && !Active(t[r]) <==> key == 0 && !(r < b + e && Active(t[r])) && !Full(t, b, e)
  {
    hide Distinct, Packed, Doubled;
    var b, e := GetBucket(c, key), c.entriesPerBucket;
    var r := FindKey(t, b, b + e, key);
    if !Full(t, b, e) && r == b + e {
      var i: nat :| b <= i < b + e && !Active(t[i]);
      assert t[i] == EMPTY;
    }
  }

  lemma {:induction false} FindKeyMeans(c: Config, t: Slots, key: u32)
    requires ConfigOk(c) && TableInv(c, t)
    ensures GetBucket(c, key) + c.entriesPerBucket <= |t|
    ensures var b, e := GetBucket(c, key), c.entriesPerBucket;
            var r := FindKey(t, b, b + e, key);
            && (key in Contents(t) <==> r < b + e && Active(t[r]))
            && (r < b + e && !Active(t[r]) <==> !DeleteConforms(c, Contents(t), key))
  {
    hide Contents, Full, Distinct, Doubled, Packed, NoRoom;
    BucketInRange(c, key);
    FindKeyInMap(c, t, key);
    FindKeyFree(c, t, key);
    FullIsNoRoom(c, t, key);
  }

  lemma BoundIsOne(c: Config, t: Slots, r: nat, key: u32, value: u16)
    requires ConfigOk(c) && TableInv(c, t) && r < |t|
    ensures Bound(t[r], key, value).isEntry == 1
  {
  }

  lemma {:induction false} StoreStep(c: Config, t: Slots, e: Entry, r: nat)
    requires ConfigOk(c) && TableInv(c, t) && e.isEntry == 1
    requires GetBucket(c, e.key) + c.entriesPerBucket <= |t|
    requires r == FindSlot(t, GetBucket(c, e.key), GetBucket(c, e.key) + c.entriesPerBucket, e.key)
    requires r < GetBucket(c, e.key) + c.entriesPerBucket
    ensures TableInv(c, t[r := e]) && Contents(t[r := e]) == Contents(t)[e.key := e.value]
    ensures CountActive(t[r := e]) == CountActive(t) + (if Active(t[r]) then 0 else 1)
    ensures !Active(t[r]) ==> CountActive(t) + 1 < TWO_32
  {
    FindSlotMeans(c, t, e.key);
    StoreKeepsInv(c, t, e, r);
    StoreBinds(t, r, e);
    CountAfterStore(t, r, e);
    if !Active(t[r]) {
      CountBelow(t, r);
    }
  }

  // What the add does to the table, its count and the map.
  lemma {:induction false} AddToSlots(c: Config, t: Slots, key: u32, value: u16)
    requires ConfigOk(c) && TableInv(c, t)
    ensures GetBucket(c, key) + c.entriesPerBucket <= |t|
    ensures var b, e := GetBucket(c, key), c.entriesPerBucket;
            var r := FindSlot(t, b, b + e, key);
            && (r == b + e <==> key !in Contents(t) && Full(t, b, e))
            && (r < b + e && !Active(t[r]) ==> CountActive(t) + 1 < TWO_32)
            && (r < b + e ==>
              && TableInv(c, t[r := Bound(t[r], key, value)])
              && Contents(t[r := Bound(t[r], key, value)]) == Contents(t)[key := value]
              && CountActive(t[r := Bound(t[r], key, value)]) == CountActive(t) + (if Active(t[r]) then 0 else 1))
  {
    hide Distinct, TableInv, Contents;
    FindSlotMeans(c, t, key);
    var b, e := GetBucket(c, key), c.entriesPerBucket;
    var r := FindSlot(t, b, b + e, key);
    if r < b + e {
      BoundIsOne(c, t, r, key, value);
      StoreStep(c, t, Bound(t[r], key, value), r);
    }
  }

  // A free slot leaves room in the count.
  lemma {:induction false} CountBelow(t: Slots, i: nat)
    requires i < |t| && !Active(t[i])
    ensures CountActive(t) < |t|
    decreases |t|
  {
    var m := |t| - 1;
    if i < m {
      CountBelow(t[..m], i);
    }
  }

  lemma {:induction false} MoveCounts(t: Slots, i: nat, last: nat)
    requires i < |t| && last < |t| && Active(t[i]) && Active(t[last])
    ensures CountActive(Moved(t, i, last)) == CountActive(t) - 1
  {
    CountAfterStore(t, i, t[last]);
    CountAfterStore(t[i := t[last]], last, EMPTY);
  }

  lemma {:induction false} FreeStaysFree(c: Config, t: Slots, key: u32, r: nat)
    requires ConfigOk(c) && TableInv(c, t)
    requires GetBucket(c, key) <= r < GetBucket(c, key) + c.entriesPerBucket <= |t| && !Active(t[r])
    ensures Moved(t, r, LastUsed(t, r, GetBucket(c, key) + c.entriesPerBucket)) == t
  {
    var end := GetBucket(c, key) + c.entriesPerBucket;
    var last := LastUsed(t, r, end);
    assert BucketPacked(c, t, key);
    assert !Active(t[last]);
    assert t[last] == EMPTY && t[r] == EMPTY;
  }

  // What the delete does to the table, its count and the map.
  lemma {:induction false} DeleteFromSlots(c: Config, t: Slots, key: u32)
    requires ConfigOk(c) && TableInv(c, t)
    ensures GetBucket(c, key) + c.entriesPerBucket <= |t|
    ensures var b, end := GetBucket(c, key), GetBucket(c, key) + c.entriesPerBucket;
            var r := FindKey(t, b, end, key);
            && (key in Contents(t) <==> r < end && Active(t[r]))
            && (r < end && !Active(t[r]) <==> !DeleteConforms(c, Contents(t), key))
            && (r < end ==>
              var n := Moved(t, r, LastUsed(t, r, end));
              && TableInv(c, n)
              && (if Active(t[r]) then Contents(n) == Contents(t) - {key} && CountActive(n) == CountActive(t) - 1
                  else n == t))
            && (key !in Contents(t) ==> Contents(t) - {key} == Contents(t))
  {
    hide Distinct, TableInv, Contents, DeleteConforms;
    FindKeyMeans(c, t, key);
    var end := GetBucket(c, key) + c.entriesPerBucket;
    var r := FindKey(t, GetBucket(c, key), end, key);
    if r < end {
      RemoveStep(c, t, key, r);
    }
  }

  // What the delete does once it stops at slot r: unbind the key, or nothing at all if r is free.
  lemma {:induction false} RemoveStep(c: Config, t: Slots, key: u32, r: nat)
    requires ConfigOk(c) && TableInv(c, t)
    requires GetBucket(c, key) <= r < GetBucket(c, key) + c.entriesPerBucket <= |t| && t[r].key == key
    ensures var last := LastUsed(t, r, GetBucket(c, key) + c.entriesPerBucket);
            var n := Moved(t, r, last);
            && TableInv(c, n)
            && (Active(t[r]) ==> Contents(n) == Contents(t) - {key} && CountActive(n) == CountActive(t) - 1)
            && (!Active(t[r]) ==> n == t)
  {
    if Active(t[r]) {
      var last := LastUsed(t, r, GetBucket(c, key) + c.entriesPerBucket);
      MoveKeepsInv(c, t, r);
      MoveUnbinds(t, r, last);
      MoveCounts(t, r, last);
    } else {
      FreeStaysFree(c, t, key, r);
    }
  }

  // The counter and the number of active slots, one of each more or less, or the counter alone less.
  lemma {:induction false} ShortAfter(t: Slots, n: Slots, used: u32)
    requires |t| == |n| < TWO_32
    ensures CountActive(n) == CountActive(t) + 1 ==> Short(Tab(n, Plus32(used, 1))) == Short(Tab(t, used))
    ensures CountActive(n) == CountActive(t) - 1 ==> Short(Tab(n, Minus32(used, 1))) == Short(Tab(t, used))
    ensures n == t ==> Short(Tab(n, Minus32(used, 1))) == Plus32(Short(Tab(t, used)), 1)
    ensures CountActive(n) == CountActive(t) ==> Short(Tab(n, used)) == Short(Tab(t, used))
  {
  }

  // Adding binds the key, or changes nothing because a bucket's number of other keys with a congruent hash is
  // bound. The counter stays as
  // right, or as wrong, as it is.
  lemma {:induction false} AddMeans(c: Config, s: Tab, key: u32, value: u16)
    requires SlotsOk(c, s.t)
    ensures GetBucket(c, key) + c.entriesPerBucket <= |s.t| < TWO_32
    ensures var b, e := GetBucket(c, key), c.entriesPerBucket;
            var (n, ret) := AddTo(s, b, e, key, value);
            && SlotsOk(c, n.t) && |n.t| == |s.t| && Short(n) == Short(s)
            && ret == (if key !in Contents(s.t) && NoRoom(c, Contents(s.t), key) then -ENOSPC else 0)
            && Contents(n.t) == (if ret == 0 then Contents(s.t)[key := value] else Contents(s.t))
            && (ret != 0 ==> n == s)
  {
    hide TableInv, Contents, Full, NoRoom, Short, GetBucket, FindSlot, Plus32;
    GoodIfNotShort(c, s);
    AddToSlots(c, s.t, key, value);
    FullIsNoRoom(c, s.t, key);
    ShortAfter(s.t, AddTo(s, GetBucket(c, key), c.entriesPerBucket, key, value).0.t, s.used);
  }

  // Deleting unbinds the key, or changes nothing because the key is absent, exactly when it conforms;
  // otherwise it reports a deletion, leaves every slot alone and takes one off the counter.
  lemma {:induction false} DeleteMeans(c: Config, s: Tab, key: u32)
    requires SlotsOk(c, s.t)
    ensures GetBucket(c, key) + c.entriesPerBucket <= |s.t| < TWO_32
    ensures var (n, ret) := DeleteFrom(s, GetBucket(c, key), c.entriesPerBucket, key);
            && SlotsOk(c, n.t) && |n.t| == |s.t|
            && Short(n) == (if DeleteConforms(c, Contents(s.t), key) then Short(s) else Plus32(Short(s), 1))
            && ret == (if key in Contents(s.t) || !DeleteConforms(c, Contents(s.t), key) then 0 else -ENOENT)
            && Contents(n.t) == Contents(s.t) - {key}
            && (key !in Contents(s.t) ==> n.t == s.t)
            && (key !in Contents(s.t) && DeleteConforms(c, Contents(s.t), key) ==> n == s)
  {
    hide TableInv, Contents, DeleteConforms, Short, GetBucket, FindKey, Moved, LastUsed, Plus32, Minus32;
    GoodIfNotShort(c, s);
    DeleteFromSlots(c, s.t, key);
    ShortAfter(s.t, DeleteFrom(s, GetBucket(c, key), c.entriesPerBucket, key).0.t, s.used);
  }

  lemma {:induction false} LookupMeans(c: Config, t: Slots, key: u32)
    requires ConfigOk(c) && TableInv(c, t)
    ensures GetBucket(c, key) + c.entriesPerBucket <= |t|
    ensures LookIn(t, GetBucket(c, key), c.entriesPerBucket, key)
         == if key in Contents(t) then Contents(t)[key] else -ENOENT
  {
    hide Distinct, TableInv, Contents;
    FindSlotMeans(c, t, key);
  }
}
