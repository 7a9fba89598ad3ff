/**
 The hash table of include/rte_fbk_hash.h as the object it is, updated in place.
 */
module FbkHashTable {
  import opened Common
  import opened Words
  import opened FbkHash
  import opened FbkHashRoom
  import opened FbkHashOps

  class Table {
    const config: Config
    const t: array<Entry>
    var usedEntries: u32

    function State(): Tab
      reads this, t
    {
      Tab(t[..], usedEntries)
    }

    // The slots are right; the counter may not be.
    ghost predicate SlotsValid()
      reads t
    {
      SlotsOk(config, t[..])
    }

    ghost predicate Valid()
      reads this, t
    {
      Good(config, State())
    }

    ghost function Map(): map<u32, u16>
      reads this, t
    {
      Contents(t[..])
    }

    // What creation leaves behind.
    constructor (c: Config)
      requires ConfigOk(c)
      ensures Valid() && config == c && Map() == map[] && fresh(t)
    {
      config := c;
      t := new Entry[c.entries](_ => EMPTY);
      usedEntries := 0;
      new;
      assert t[..] == Cleared(c.entries);
      ClearedInv(c);
    }

    method AddKeyWithBucket(key: u32, value: u16, bucket: nat) returns (ret: int)
      requires bucket + config.entriesPerBucket <= t.Length
      modifies t, this`usedEntries
      ensures (State(), ret) == AddTo(old(State()), bucket, config.entriesPerBucket, key, value)
    {
      ghost var r := FindSlot(t[..], bucket, bucket + config.entriesPerBucket, key);
      var i := 0;
      while i < config.entriesPerBucket
        invariant bucket + i <= r
      {
        if t[bucket + i].isEntry == 0 {
          assert bucket + i == r;
          t[bucket + i] := Entry(1, value, key);
          usedEntries := Plus32(usedEntries, 1);
          return 0;
        }
        if t[bucket + i].key == key {
          assert bucket + i == r;
          t[bucket + i] := t[bucket + i].(value := value);
          return 0;
        }
        i := i + 1;
      }
      return -ENOSPC;
    }

    // The counter falls as much short as before; a table that is valid stays so.
    method AddKey(key: u32, value: u16) returns (ret: int)
      requires SlotsValid()
      modifies t, this`usedEntries
      ensures SlotsValid() && (Valid() <==> old(Valid()))
      ensures t.Length < TWO_32 && Short(State()) == Short(old(State()))
      ensures ret == if key !in old(Map()) && NoRoom(config, old(Map()), key) then -ENOSPC else 0
      ensures Map() == if ret == 0 then old(Map())[key := value] else old(Map())
      ensures ret != 0 ==> State() == old(State())
    {
      hide TableInv, Contents, Short, NoRoom;
      GoodIfNotShort(config, State());
      AddMeans(config, State(), key, value);
      ret := AddKeyWithBucket(key, value, GetBucket(config, key));
      GoodIfNotShort(config, State());
    }

    // The inner loop of the delete, from the back of the bucket down to slot i.
    method FindLast(bucket: nat, i: nat) returns (lastEntry: nat)
      requires bucket + config.entriesPerBucket <= t.Length && i < config.entriesPerBucket
      ensures i <= lastEntry < config.entriesPerBucket
      ensures bucket + lastEntry == LastUsed(t[..], bucket + i, bucket + config.entriesPerBucket)
    {
      lastEntry := config.entriesPerBucket - 1;
      var j := config.entriesPerBucket - 1;
      while j > i
        invariant i <= j < config.entriesPerBucket
        invariant j <= lastEntry < config.entriesPerBucket
        invariant bucket + lastEntry + 1
               == FirstFree(t[..], bucket + j + 1, bucket + config.entriesPerBucket)
      {
        if t[bucket + j].isEntry == 0 {
          lastEntry := j - 1;
        }
        j := j - 1;
      }
    }

    method DeleteKeyWithBucket(key: u32, bucket: nat) returns (ret: int)
      requires bucket + config.entriesPerBucket <= t.Length
      modifies t, this`usedEntries
      ensures (State(), ret) == DeleteFrom(old(State()), bucket, config.entriesPerBucket, key)
    {
      ghost var r := FindKey(t[..], bucket, bucket + config.entriesPerBucket, key);
      var i := 0;
      while i < config.entriesPerBucket
        invariant bucket + i <= r
      {
        if t[bucket + i].key == key {
          assert bucket + i == r;
          var lastEntry := FindLast(bucket, i);
          t[bucket + i] := t[bucket + lastEntry];
          t[bucket + lastEntry] := EMPTY;
          usedEntries := Minus32(usedEntries, 1);
          return 0;
        }
        i := i + 1;
      }
      return -ENOENT;
    }

    // The map is right in any case; the counter falls one more short if the delete does not conform.
    method DeleteKey(key: u32) returns (ret: int)
      requires SlotsValid()
      modifies t, this`usedEntries
      ensures SlotsValid() && t.Length < TWO_32
      ensures Map() == old(Map()) - {key}
      ensures Short(State()) ==
        if DeleteConforms(config, old(Map()), key) then Short(old(State())) else Plus32(Short(old(State())), 1)
      ensures old(Valid()) ==> (Valid() <==> DeleteConforms(config, old(Map()), key))
      ensures ret == if key in old(Map()) || !DeleteConforms(config, old(Map()), key) then 0 else -ENOENT
      ensures key !in old(Map()) ==> t[..] == old(t[..])
    {
      hide TableInv, Contents, Short, DeleteConforms;
      GoodIfNotShort(config, State());
      DeleteMeans(config, State(), key);
      ret := DeleteKeyWithBucket(key, GetBucket(config, key));
      GoodIfNotShort(config, State());
    }

    method LookupWithBucket(key: u32, bucket: nat) returns (ret: int)
      requires bucket + config.entriesPerBucket <= t.Length
      ensures ret == LookIn(t[..], bucket, config.entriesPerBucket, key)
    {
      ghost var r := FindSlot(t[..], bucket, bucket + config.entriesPerBucket, key);
      var i := 0;
      while i < config.entriesPerBucket
        invariant bucket + i <= r
      {
        var current := t[bucket + i];
        if current.isEntry == 0 {
          return -ENOENT;
        }
        if current.key == key {
          return current.value;
        }
        i := i + 1;
      }
      return -ENOENT;
    }

    method Lookup(key: u32) returns (ret: int)
      requires SlotsValid()
      ensures ret == if key in Map() then Map()[key] else -ENOENT
    {
      hide TableInv, Contents;
      LookupMeans(config, t[..], key);
      ret := LookupWithBucket(key, GetBucket(config, key));
    }

    method ClearAll()
      requires ConfigOk(config) && t.Length == config.entries
      modifies t, this`usedEntries
      ensures Valid() && Map() == map[]
    {
      forall i | 0 <= i < t.Length {
        t[i] := EMPTY;
      }
      usedEntries := 0;
      assert t[..] == Cleared(config.entries);
      ClearedInv(config);
    }
  }
}
