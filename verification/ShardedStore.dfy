/** The sharded store, updated in place; whatever the number of shards, every operation acts on it as on one
    map. */
module ShardedStore {
  import opened Prelude
  import opened Sharding
  import opened Storage
  import Bits
  import Lru
  import SyncBuffer

  const EMPTY_SHARD := Shard(map[], 0)

  /** The items of a batch that can be stored. */
  ghost function Storable(items: map<string, Option<StoredItem>>): Data {
    map k | k in items && k != "" && items[k].Some? :: items[k].value
  }

  /** The same, but for the keys in `todo`. */
  ghost function StorableBut(items: map<string, Option<StoredItem>>, todo: set<string>): Data {
    map k | k in items && k !in todo && k != "" && items[k].Some? :: items[k].value
  }

  lemma NothingStorable(items: map<string, Option<StoredItem>>)
    ensures StorableBut(items, items.Keys) == map[] && StorableBut(items, {}) == Storable(items)
  {
  }

  lemma OneMoreStorable(items: map<string, Option<StoredItem>>, todo: set<string>, key: string)
    requires key in todo && key in items
    ensures key !in StorableBut(items, todo)
    ensures StorableBut(items, todo - {key}) ==
      if key != "" && items[key].Some? then StorableBut(items, todo)[key := items[key].value]
      else StorableBut(items, todo)
  {
  }

  /** The entries of `data` whose keys are not in `known`. */
  ghost function Added(data: Data, known: Data): Data {
    map k | k in data && k !in known :: data[k]
  }

  /** The keys that a batch lookup looks up. */
  ghost function Asked(keys: seq<string>): set<string> {
    set k | k in keys && k != ""
  }

  class ShardedMemoryStorage {
    const hash: Hash
    const maxMemoryMB: int
    const shardCount: nat
    ghost const exponent: nat
    var shards: seq<Shard>
    var totalKeys: int
    var totalBytes: int
    var pending: Pending

    /** There is a power of two of shards, every key is in its own, and the total is the sum of the counts. */
    ghost predicate Valid()
      reads this
    {
      && |shards| == shardCount == Bits.Pow2(exponent)
      && Placed(shards, hash, shardCount)
      && totalKeys == Counts(shards)
      && |pending| == shardCount && InOwnBuffer(pending, hash, shardCount)
    }

    ghost function Contents(): Data
      reads this
    {
      Flat(shards)
    }

    /** How much `totalKeys` overstates the number of keys: nothing, unless a snapshot named a key twice. */
    ghost function Excess(): int
      reads this
    {
      totalKeys - |Contents()|
    }

    constructor (config: nat, maxMemoryMB: int, hash: Hash)
      requires config <= 0x4000_0000_0000_0000
      ensures Valid() && Contents() == map[] && Excess() == 0 && totalBytes == 0
      ensures this.hash == hash && this.maxMemoryMB == maxMemoryMB
      ensures shardCount == Bits.NextPowerOf2(if config == 0 then 256 else config)
      ensures Drained(pending) == []
    {
      var count;
      ghost var k: nat;
      count, k := RoundedShards(if config == 0 then 256 else config);
      var noShards, nonePending := Emptied(count, hash);
      shardCount, exponent, this.hash, this.maxMemoryMB := count, k, hash, maxMemoryMB;
      shards, pending, totalKeys, totalBytes := noShards, nonePending, 0, 0;
    }

    predicate OverLimit(size: nat)
      reads this
    {
      maxMemoryMB > 0 && totalBytes + size > maxMemoryMB * 1024 * 1024
    }

    function ShardOf(key: string): nat
      requires shardCount > 0
    {
      Home(hash, key, shardCount)
    }

    /** Stores an item in its shard and counts the key if it is new. */
    method Store(i: nat, key: string, item: StoredItem)
      requires Valid() && i == ShardOf(key)
      modifies this`shards, this`totalKeys, this`totalBytes
      ensures Valid() && Contents() == old(Contents())[key := item] && Excess() == old(Excess())
      ensures totalBytes == old(totalBytes) + if key in old(Contents()) then 0 else ItemSize(key, item)
    {
      RoutedByRemainder(hash, key, exponent);
      FlatAt(shards, hash, key);
      StoredSize(Contents(), key, item);
      var known := key in shards[i].data;
      Insert(i, key, item, !known);
      if !known {
        totalKeys := totalKeys + 1;
        totalBytes := totalBytes + ItemSize(key, item);
      }
    }

    /** Stores an item in its shard, and counts it there if asked to. */
    method Insert(i: nat, key: string, item: StoredItem, counted: bool)
      requires |shards| == shardCount > 0 && i == ShardOf(key) < shardCount && Placed(shards, hash, shardCount)
      modifies this`shards
      ensures |shards| == shardCount && Placed(shards, hash, shardCount)
      ensures Flat(shards) == old(Flat(shards))[key := item]
      ensures Counts(shards) == old(Counts(shards)) + if counted then 1 else 0
    {
      var keyCount := shards[i].keyCount + if counted then 1 else 0;
      FlatStore(shards, hash, key, item, keyCount);
      shards := shards[i := Shard(shards[i].data[key := item], keyCount)];
    }

    /** Removes a key from its shard and counts it off. */
    method Drop(i: nat, key: string)
      requires Valid() && i == ShardOf(key) && key in Contents()
      modifies this`shards, this`totalKeys
      ensures Valid() && Contents() == WithoutKey(old(Contents()), key) && Excess() == old(Excess())
    {
      RoutedByRemainder(hash, key, exponent);
      WithoutKeySize(Contents(), key);
      var keyCount := shards[i].keyCount - 1;
      FlatDrop(shards, hash, key, keyCount);
      shards := shards[i := Shard(WithoutKey(shards[i].data, key), keyCount)];
      totalKeys := totalKeys - 1;
    }

    /** Records an operation in the change buffer of its shard. */
    method Record(i: nat, op: SyncOp)
      requires Valid() && i == ShardOf(op.key) < shardCount
      modifies this`pending
      ensures Valid() && pending == Recorded(old(pending), i, op)
    {
      RecordedInOwn(pending, hash, shardCount, i, op);
      pending := pending[i := SyncBuffer.Push(pending[i], op, SHARD_CAPACITY)];
    }

    method Set(key: string, item: Option<StoredItem>) returns (r: Result<()>)
      requires Valid()
      modifies this
      ensures Valid() && Excess() == old(Excess())
      ensures r == if key == "" then Err(ErrEmptyKey)
                   else if item.None? then Err(ErrNilItem)
                   else if old(OverLimit(ItemSize(key, item.value))) then Err(ErrMemoryLimit)
                   else Ok(())
      ensures Contents() == if r.Ok? then old(Contents())[key := item.value] else old(Contents())
      ensures totalBytes == old(totalBytes) +
        if r.Ok? && key !in old(Contents()) then ItemSize(key, item.value) else 0
      ensures ShardOf(key) < shardCount
      ensures pending == if r.Ok? then Recorded(old(pending), ShardOf(key), OpOf(key, item.value)) else old(pending)
      ensures r.Ok? <==>
        && key != "" && item.Some?
        && (maxMemoryMB <= 0 || old(totalBytes) + |key| + |item.value.value| + 64 <= maxMemoryMB * 1048576)
      ensures totalBytes == old(totalBytes) +
        if r.Ok? && key !in old(Contents()) then |key| + |item.value.value| + 64 else 0
      ensures ShardOf(key) == hash(key) % shardCount
      ensures r.Ok? ==>
        var all := old(pending)[ShardOf(key)]
          + [SyncBuffer.SetOp(key, item.value.version, item.value.value, item.value.expireAt)];
        pending == old(pending)[ShardOf(key) := if |all| <= 16384 then all else all[1..]]
    {
      RoutedByRemainder(hash, key, exponent);
      if key == "" {
        return Err(ErrEmptyKey);
      }
      if item.None? {
        return Err(ErrNilItem);
      }
      if OverLimit(ItemSize(key, item.value)) {
        return Err(ErrMemoryLimit);
      }
      StoreAndRecord(ShardOf(key), key, item.value);
      return Ok(());
    }

    method StoreAndRecord(i: nat, key: string, item: StoredItem)
      requires Valid() && i == ShardOf(key) < shardCount
      modifies this
      ensures Valid() && Contents() == old(Contents())[key := item] && Excess() == old(Excess())
      ensures totalBytes == old(totalBytes) + if key in old(Contents()) then 0 else ItemSize(key, item)
      ensures pending == Recorded(old(pending), i, OpOf(key, item))
    {
      Store(i, key, item);
      Record(i, OpOf(key, item));
    }

    /** Looks one key up in its shard, dropping it if it has expired. */
    method Lookup(i: nat, key: string, now: int) returns (r: Result<StoredItem>)
      requires Valid() && i == ShardOf(key)
      modifies this`shards, this`totalKeys
      ensures Valid() && Excess() == old(Excess())
      ensures var data := old(Contents());
        && r == (if key !in data then Err(ErrNotFound)
                 else if Expired(data[key].expireAt, now) then Err(ErrExpired)
                 else Ok(data[key]))
        && Contents() == (if r == Err(ErrExpired) then WithoutKey(data, key) else data)
    {
      RoutedByRemainder(hash, key, exponent);
      FlatAt(shards, hash, key);
      if key !in shards[i].data {
        return Err(ErrNotFound);
      }
      var item := shards[i].data[key];
      if Expired(item.expireAt, now) {
        Drop(i, key);
        return Err(ErrExpired);
      }
      return Ok(item);
    }

    method Get(key: string, now: int) returns (r: Result<StoredItem>)
      requires Valid()
      modifies this`shards, this`totalKeys
      ensures Valid() && Excess() == old(Excess())
      ensures var data := old(Contents());
        && r == (if key == "" then Err(ErrEmptyKey)
                 else if key !in data then Err(ErrNotFound)
                 else if Expired(data[key].expireAt, now) then Err(ErrExpired)
                 else Ok(data[key]))
        && Contents() == (if r == Err(ErrExpired) then WithoutKey(data, key) else data)
      ensures r == Err(ErrExpired) <==>
        key != "" && key in old(Contents())
        && old(Contents())[key].expireAt != 0 && now > old(Contents())[key].expireAt
    {
      if key == "" {
        return Err(ErrEmptyKey);
      }
      r := Lookup(ShardOf(key), key, now);
    }

    /** Removes a key whatever version is given. */
    method Delete(key: string, version: int) returns (r: Result<()>)
      requires Valid()
      modifies this
      ensures Valid() && Excess() == old(Excess())
      ensures r == if key == "" then Err(ErrEmptyKey) else Ok(())
      ensures Contents() == if key == "" then old(Contents()) else WithoutKey(old(Contents()), key)
      ensures totalBytes == old(totalBytes) -
        if key != "" && key in old(Contents()) then ItemSize(key, old(Contents())[key]) else 0
      ensures ShardOf(key) < shardCount
      ensures pending ==
        if r.Ok? then Recorded(old(pending), ShardOf(key), SyncBuffer.DeleteOp(key, version)) else old(pending)
      ensures totalBytes == old(totalBytes) -
        if key != "" && key in old(Contents()) then |key| + |old(Contents())[key].value| + 64 else 0
      ensures ShardOf(key) == hash(key) % shardCount
      ensures r.Ok? ==>
        var all := old(pending)[ShardOf(key)] + [SyncBuffer.DeleteOp(key, version)];
        pending == old(pending)[ShardOf(key) := if |all| <= 16384 then all else all[1..]]
    {
      RoutedByRemainder(hash, key, exponent);
      if key == "" {
        return Err(ErrEmptyKey);
      }
      Discard(ShardOf(key), key);
      Record(ShardOf(key), SyncBuffer.DeleteOp(key, version));
      return Ok(());
    }

    /** Removes a key from its shard, if it is there, and gives its bytes back. */
    method Discard(i: nat, key: string)
      requires Valid() && i == ShardOf(key) < shardCount
      modifies this`shards, this`totalKeys, this`totalBytes
      ensures Valid() && Contents() == WithoutKey(old(Contents()), key) && Excess() == old(Excess())
      ensures totalBytes == old(totalBytes) -
        if key in old(Contents()) then ItemSize(key, old(Contents())[key]) else 0
    {
      FlatAt(shards, hash, key);
      if key in shards[i].data {
        var item := shards[i].data[key];
        Drop(i, key);
        totalBytes := totalBytes - ItemSize(key, item);
      } else {
        WithoutAbsent(Contents(), key);
      }
    }

    /** Groups the keys by shard, then looks every group up in its shard. */
    method BatchGet(keys: seq<string>, now: int) returns (result: map<string, StoredItem>)
      requires Valid()
      modifies this`shards, this`totalKeys
      ensures Valid() && Excess() == old(Excess())
      ensures result == Found(old(Contents()), Asked(keys), now)
      ensures Contents() == DropExpired(old(Contents()), Asked(keys), now)
      ensures forall k ::
        var known := Prelude.Lookup(old(Contents()), k);
        var over := known.Some? && known.value.expireAt != 0 && now > known.value.expireAt;
        && Prelude.Lookup(result, k) == (if k in keys && k != "" && !over then known else None)
        && Prelude.Lookup(Contents(), k) == (if k in keys && k != "" && over then None else known)
    {
      var batches := Grouped(keys);
      result := GetGroups(batches, keys, now);
    }

    method GetGroups(batches: map<nat, seq<string>>, ghost keys: seq<string>, now: int)
      returns (result: map<string, StoredItem>)
      requires Valid()
      requires forall i :: i in batches ==> forall k :: k in batches[i] ==> k in Asked(keys) && ShardOf(k) == i
      requires forall k :: k in Asked(keys) ==> ShardOf(k) in batches && k in batches[ShardOf(k)]
      modifies this`shards, this`totalKeys
      ensures Valid() && Excess() == old(Excess())
      ensures result == Found(old(Contents()), Asked(keys), now)
      ensures Contents() == DropExpired(old(Contents()), Asked(keys), now)
    {
      result := map[];
      var todo := batches.Keys;
      ghost var done: set<string> := {};
      while todo != {}
        invariant Valid() && Excess() == old(Excess()) && todo <= batches.Keys
        invariant result == Found(old(Contents()), done, now)
        invariant Contents() == DropExpired(old(Contents()), done, now)
        invariant done <= Asked(keys)
        invariant forall k :: k in Asked(keys) ==> k in done || ShardOf(k) in todo
      {
        var i :| i in todo;
        todo := todo - {i};
        var found := GetGroup(i, batches[i], now);
        ghost var group := Elements(batches[i]);
        FoundMore(old(Contents()), done, group, now);
        result := result + found;
        done := done + group;
      }
      assert done == Asked(keys);
    }

    method Grouped(keys: seq<string>) returns (batches: map<nat, seq<string>>)
      requires Valid()
      ensures forall i :: i in batches ==> forall k :: k in batches[i] ==> k in Asked(keys) && ShardOf(k) == i
      ensures forall k :: k in Asked(keys) ==> ShardOf(k) in batches && k in batches[ShardOf(k)]
    {
      batches := map[];
      for n := 0 to |keys|
        invariant forall i :: i in batches ==> forall k :: k in batches[i] ==> k in Asked(keys[..n]) && ShardOf(k) == i
        invariant forall k :: k in Asked(keys[..n]) ==> ShardOf(k) in batches && k in batches[ShardOf(k)]
      {
        var key := keys[n];
        assert keys[..n + 1] == keys[..n] + [key];
        if key != "" {
          var i := ShardOf(key);
          var batch := if i in batches then batches[i] else [];
          batches := batches[i := batch + [key]];
        }
      }
      assert keys[..|keys|] == keys;
    }

    method GetGroup(i: nat, keys: seq<string>, now: int) returns (found: map<string, StoredItem>)
      requires Valid() && forall k :: k in keys ==> ShardOf(k) == i
      modifies this`shards, this`totalKeys
      ensures Valid() && Excess() == old(Excess())
      ensures found == Found(old(Contents()), Elements(keys), now)
      ensures Contents() == DropExpired(old(Contents()), Elements(keys), now)
    {
      found := map[];
      ghost var data := Contents();
      for n := 0 to |keys|
        invariant Valid() && Excess() == old(Excess())
        invariant found == Found(data, Elements(keys[..n]), now)
        invariant Contents() == DropExpired(data, Elements(keys[..n]), now)
      {
        OneMore(data, keys, n, now);
        var r := Lookup(i, keys[n], now);
        if r.Ok? {
          found := found[keys[n] := r.value];
        }
      }
      assert keys[..|keys|] == keys;
    }

    /** Groups the items by shard, refuses the whole batch if it does not fit, and stores it group by group. */
    method BatchSet(items: map<string, Option<StoredItem>>) returns (r: Result<()>, ghost ops: seq<SyncOp>)
      requires Valid()
      modifies this
      ensures Valid() && Excess() == old(Excess())
      ensures r == if items != map[] && old(OverLimit(Sizes(Storable(items)))) then Err(ErrMemoryLimit) else Ok(())
      ensures Contents() == if r.Ok? then Merged(old(Contents()), Storable(items)) else old(Contents())
      ensures totalBytes == old(totalBytes) +
        if r.Ok? then Sizes(Added(Storable(items), old(Contents()))) else 0
      ensures r.Ok? ==> Stores(ops, Storable(items)) && pending == RecordedAll(old(pending), hash, ops)
      ensures r.Err? ==> pending == old(pending)
      ensures forall k ::
        Prelude.Lookup(Contents(), k) ==
          (if r.Ok? && k in items && k != "" && items[k].Some? then items[k] else Prelude.Lookup(old(Contents()), k))
    {
      ops := [];
      if items == map[] {
        EmptyBatch(items, Contents());
        return Ok(()), ops;
      }
      var batches, totalSize := GroupedItems(items);
      if OverLimit(totalSize) {
        return Err(ErrMemoryLimit), ops;
      }
      ops := StoreGroups(batches, Storable(items));
      return Ok(()), ops;
    }

    method GroupedItems(items: map<string, Option<StoredItem>>) returns (batches: map<nat, Data>, totalSize: nat)
      requires shardCount > 0
      ensures totalSize == Sizes(Storable(items)) && Partitioned(batches, Storable(items))
    {
      batches, totalSize := map[], 0;
      var todo := items.Keys;
      NothingStorable(items);
      while todo != {}
        invariant todo <= items.Keys
        invariant totalSize == Sizes(StorableBut(items, todo)) && Partitioned(batches, StorableBut(items, todo))
      {
        var key :| key in todo;
        OneMoreStorable(items, todo, key);
        if key != "" && items[key].Some? {
          var item := items[key].value;
          SizesStored(StorableBut(items, todo), key, item);
          batches := AddToGroup(batches, key, item, StorableBut(items, todo));
          totalSize := totalSize + ItemSize(key, item);
        }
        todo := todo - {key};
      }
    }

    /** Puts an item into the group of its shard. */
    method AddToGroup(batches: map<nat, Data>, key: string, item: StoredItem, ghost data: Data) returns (more: map<nat, Data>)
      requires shardCount > 0 && Partitioned(batches, data) && key !in data
      ensures Partitioned(more, data[key := item])
    {
      var i := ShardOf(key);
      GroupedOne(batches, data, key, item);
      more := batches[i := (if i in batches then batches[i] else map[])[key := item]];
    }

    /** The entries of `data` that belong to shard `i`. */
    ghost function GroupOf(data: Data, i: nat): Data
      requires shardCount > 0
    {
      map k | k in data && ShardOf(k) == i :: data[k]
    }

    /** The groups together are `data`, each key in the group of its shard. */
    ghost predicate Partitioned(batches: map<nat, Data>, data: Data)
      requires shardCount > 0
    {
      && (forall i :: i in batches ==> batches[i] == GroupOf(data, i))
      && (forall k :: k in data ==> ShardOf(k) in batches)
    }

    lemma GroupedOne(batches: map<nat, Data>, data: Data, key: string, item: StoredItem)
      requires shardCount > 0 && Partitioned(batches, data) && key !in data
      ensures var i := ShardOf(key);
        Partitioned(batches[i := (if i in batches then batches[i] else map[])[key := item]], data[key := item])
    {
      var home := ShardOf(key);
      var more := batches[home := (if home in batches then batches[home] else map[])[key := item]];
      forall i | i in more
        ensures more[i] == GroupOf(data[key := item], i)
      {
        GroupStep(data, key, item, i);
        if home !in batches {
          assert GroupOf(data, home) == map[];
        }
      }
    }

    lemma GroupStep(data: Data, key: string, item: StoredItem, i: nat)
      requires shardCount > 0 && key !in data
      ensures GroupOf(data[key := item], i) ==
        if ShardOf(key) == i then GroupOf(data, i)[key := item] else GroupOf(data, i)
    {
    }

    /** The entries of `data` whose groups are not in `todo`. */
    ghost function OtherGroups(data: Data, todo: set<nat>): Data
      requires shardCount > 0
    {
      map k | k in data && ShardOf(k) !in todo :: data[k]
    }

    lemma OneMoreGroup(data: Data, todo: set<nat>, i: nat)
      requires shardCount > 0 && i in todo
      ensures OtherGroups(data, todo - {i}) == Merged(OtherGroups(data, todo), GroupOf(data, i))
      ensures OtherGroups(data, todo).Keys !! GroupOf(data, i).Keys
    {
      assert OtherGroups(data, todo - {i}).Keys == Merged(OtherGroups(data, todo), GroupOf(data, i)).Keys;
    }

    lemma AllGroups(batches: map<nat, Data>, data: Data)
      requires shardCount > 0 && Partitioned(batches, data)
      ensures OtherGroups(data, batches.Keys) == map[] && OtherGroups(data, {}) == data
    {
    }

    method StoreGroups(batches: map<nat, Data>, ghost data: Data) returns (ghost ops: seq<SyncOp>)
      requires Valid() && Partitioned(batches, data)
      modifies this
      ensures Valid() && Excess() == old(Excess())
      ensures Contents() == Merged(old(Contents()), data)
      ensures totalBytes == old(totalBytes) + Sizes(Added(data, old(Contents())))
      ensures Stores(ops, data) && pending == RecordedAll(old(pending), hash, ops)
    {
      ghost var before, buffers := Contents(), pending;
      var todo := batches.Keys;
      ops := [];
      AllGroups(batches, data);
      MergedNothing(before);
      while todo != {}
        invariant Valid() && Excess() == old(Excess()) && todo <= batches.Keys
        invariant Contents() == Merged(before, OtherGroups(data, todo))
        invariant totalBytes == old(totalBytes) + Sizes(Added(OtherGroups(data, todo), before))
        invariant Stores(ops, OtherGroups(data, todo)) && pending == RecordedAll(buffers, hash, ops)
      {
        var i :| i in todo;
        OneMoreGroup(data, todo, i);
        AddedMore(before, OtherGroups(data, todo), batches[i]);
        ghost var more := StoreGroup(i, batches[i]);
        StoresMerged(ops, OtherGroups(data, todo), more, batches[i]);
        RecordedConcat(buffers, hash, ops, more);
        todo := todo - {i};
        ops := ops + more;
      }
    }

    method StoreGroup(i: nat, items: Data) returns (ghost ops: seq<SyncOp>)
      requires Valid() && forall k :: k in items ==> ShardOf(k) == i
      modifies this
      ensures Valid() && Excess() == old(Excess())
      ensures Contents() == Merged(old(Contents()), items)
      ensures totalBytes == old(totalBytes) + Sizes(Added(items, old(Contents())))
      ensures Stores(ops, items) && pending == RecordedAll(old(pending), hash, ops)
    {
      ghost var before, buffers := Contents(), pending;
      var todo := items.Keys;
      ops := [];
      AllItems(items);
      MergedNothing(before);
      while todo != {}
        invariant Valid() && Excess() == old(Excess()) && todo <= items.Keys
        invariant Contents() == Merged(before, Outside(items, todo))
        invariant totalBytes == old(totalBytes) + Sizes(Added(Outside(items, todo), before))
        invariant Stores(ops, Outside(items, todo)) && pending == RecordedAll(buffers, hash, ops)
      {
        var key :| key in todo;
        OneMoreItem(items, todo, key);
        AddedOne(before, Outside(items, todo), key, items[key]);
        StoresMore(ops, Outside(items, todo), key, items[key]);
        todo := todo - {key};
        ops := StoreNext(i, key, items[key], buffers, ops);
      }
    }

    /** Stores one item of a batch and records it, after `before`. */
    method StoreNext(i: nat, key: string, item: StoredItem, ghost buffers: Pending, ghost before: seq<SyncOp>)
      returns (ghost ops: seq<SyncOp>)
      requires Valid() && i == ShardOf(key)
      requires |buffers| == shardCount && pending == RecordedAll(buffers, hash, before)
      modifies this
      ensures Valid() && Contents() == old(Contents())[key := item] && Excess() == old(Excess())
      ensures totalBytes == old(totalBytes) + if key in old(Contents()) then 0 else ItemSize(key, item)
      ensures ops == before + [OpOf(key, item)] && pending == RecordedAll(buffers, hash, ops)
    {
      RoutedByRemainder(hash, key, exponent);
      StoreAndRecord(i, key, item);
      ops := before + [OpOf(key, item)];
      RecordedNext(buffers, hash, before, OpOf(key, item));
    }

    /** Lists the keys of one shard that have not expired and drops the others. */
    method Sweep(i: nat, now: int) returns (keys: seq<string>)
      requires Valid() && i < shardCount
      modifies this`shards, this`totalKeys
      ensures Valid() && Excess() == old(Excess())
      ensures Contents() == DropExpired(old(Contents()), Homed(old(Contents()), i), now)
      ensures NoDuplicates(keys) && forall k :: k in keys <==> k in Contents() && ShardOf(k) == i
    {
      ghost var data := Contents();
      HomedInShard(i);
      keys := VisitAll(i, shards[i].data.Keys, now);
      ListedMeans(keys, data, Homed(data, i), now);
    }

    /** Visits the given keys of one shard. */
    method VisitAll(i: nat, all: set<string>, now: int) returns (keys: seq<string>)
      requires Valid() && i < shardCount && all == Homed(Contents(), i)
      modifies this`shards, this`totalKeys
      ensures Valid() && Excess() == old(Excess())
      ensures Contents() == DropExpired(old(Contents()), all, now)
      ensures Listed(keys, old(Contents()), all, now)
    {
      keys := [];
      ghost var data := Contents();
      ghost var visited: set<string> := {};
      var todo := all;
      while todo != {}
        invariant Valid() && Excess() == old(Excess())
        invariant todo <= all && visited == all - todo
        invariant Contents() == DropExpired(data, visited, now)
        invariant Listed(keys, data, visited, now)
      {
        var k :| k in todo;
        OneLess(all, todo, k);
        todo := todo - {k};
        var live := Visit(i, k, now, data, visited);
        keys := ListNext(keys, k, live, data, visited, now);
        visited := visited + {k};
      }
      assert visited == all;
    }

    method ListNext(keys: seq<string>, key: string, live: bool, ghost data: Data, ghost visited: set<string>, ghost now: int)
      returns (more: seq<string>)
      requires Listed(keys, data, visited, now) && key !in visited && key in data
      requires live == !Expired(data[key].expireAt, now)
      ensures Listed(more, data, visited + {key}, now)
    {
      ListedStep(keys, data, visited, key, now);
      more := if live then keys + [key] else keys;
    }

    /** Drops one key of the shard if it has expired, after those of `swept`. */
    method Visit(i: nat, key: string, now: int, ghost data: Data, ghost swept: set<string>) returns (live: bool)
      requires Valid() && i == ShardOf(key) && key in data && key !in swept && Contents() == DropExpired(data, swept, now)
      modifies this`shards, this`totalKeys
      ensures Valid() && Excess() == old(Excess())
      ensures Contents() == DropExpired(data, swept + {key}, now) && live == !Expired(data[key].expireAt, now)
    {
      PurgedOne(data, swept, key, now);
      var r := Lookup(i, key, now);
      live := r.Ok?;
    }

    /** The keys that belong to shard `i`. */
    ghost function Homed(data: Data, i: nat): set<string>
      requires shardCount > 0
    {
      set k | k in data && ShardOf(k) == i
    }

    lemma HomedInShard(i: nat)
      requires Valid() && i < shardCount
      ensures shards[i].data.Keys == Homed(Contents(), i)
    {
      PlacedHere(shards, hash, shardCount, i);
      forall k
        ensures k in shards[i].data <==> k in Contents() && ShardOf(k) == i
      {
        RoutedByRemainder(hash, k, exponent);
        FlatAt(shards, hash, k);
      }
    }

    /** Lists the keys that have not expired, shard by shard, and drops the others. */
    method Keys(now: int) returns (keys: seq<string>)
      requires Valid()
      modifies this`shards, this`totalKeys
      ensures Valid() && Excess() == old(Excess())
      ensures Contents() == Live(old(Contents()), now)
      ensures NoDuplicates(keys) && Elements(keys) == Contents().Keys
      ensures forall k ::
        var known := Prelude.Lookup(old(Contents()), k);
        Prelude.Lookup(Contents(), k) ==
          (if known.Some? && known.value.expireAt != 0 && now > known.value.expireAt then None else known)
    {
      keys := [];
      ghost var data := Contents();
      for i := 0 to shardCount
        invariant Valid() && Excess() == old(Excess())
        invariant Contents() == SweptBelow(data, i, now)
        invariant NoDuplicates(keys) && forall k :: k in keys <==> k in Contents() && ShardOf(k) < i
      {
        SweepOneMore(data, i, now);
        var more := Sweep(i, now);
        ConcatDistinct(keys, more);
        keys := keys + more;
      }
      SweptAll(data, now);
    }

    /** `data` without the expired entries of the shards before `i`. */
    ghost function SweptBelow(data: Data, i: nat, now: int): Data
      requires shardCount > 0
    {
      map k | k in data && !(ShardOf(k) < i && Expired(data[k].expireAt, now)) :: data[k]
    }

    lemma SweepOneMore(data: Data, i: nat, now: int)
      requires shardCount > 0
      ensures var swept := SweptBelow(data, i, now);
        DropExpired(swept, Homed(swept, i), now) == SweptBelow(data, i + 1, now)
    {
    }

    lemma SweptAll(data: Data, now: int)
      requires shardCount == Bits.Pow2(exponent)
      ensures SweptBelow(data, shardCount, now) == Live(data, now)
      ensures forall k :: ShardOf(k) < shardCount
    {
      forall k
        ensures ShardOf(k) < shardCount
      {
        RoutedByRemainder(hash, k, exponent);
      }
    }

    /** A snapshot of everything that has not expired; the rest is dropped. */
    method GetFullSyncSnapshot(now: int) returns (snapshot: seq<FullStateItem>)
      requires Valid()
      modifies this`shards, this`totalKeys
      ensures Valid() && Excess() == old(Excess())
      ensures Contents() == Live(old(Contents()), now) && Lists(snapshot, Contents())
      ensures forall k ::
        var known := Prelude.Lookup(old(Contents()), k);
        Prelude.Lookup(Contents(), k) ==
          (if known.Some? && known.value.expireAt != 0 && now > known.value.expireAt then None else known)
    {
      snapshot := [];
      ghost var data := Contents();
      ghost var keys: seq<string> := [];
      for i := 0 to shardCount
        invariant Valid() && Excess() == old(Excess())
        invariant Contents() == SweptBelow(data, i, now)
        invariant NoDuplicates(keys) && forall k :: k in keys <==> k in Contents() && ShardOf(k) < i
        invariant snapshot == Pairs(keys, data)
      {
        SweepOneMore(data, i, now);
        var more := Sweep(i, now);
        var entries := Entries(i, more);
        PairsOfShard(more, Contents(), data);
        PairsConcat(keys, more, data);
        ConcatDistinct(keys, more);
        keys := keys + more;
        snapshot := snapshot + entries;
      }
      SweptAll(data, now);
      PairsOfShard(keys, Contents(), data);
      PairsList(keys, Contents());
    }

    lemma PairsOfShard(keys: seq<string>, part: Data, data: Data)
      requires forall k :: k in keys ==> k in part
      requires forall k :: k in part ==> k in data && part[k] == data[k]
      ensures Pairs(keys, part) == Pairs(keys, data)
    {
    }

    method Entries(i: nat, keys: seq<string>) returns (entries: seq<FullStateItem>)
      requires Valid() && i < shardCount && forall k :: k in keys ==> k in Contents() && ShardOf(k) == i
      ensures entries == Pairs(keys, Contents())
    {
      entries := [];
      for n := 0 to |keys|
        invariant entries == Pairs(keys[..n], Contents())
      {
        assert keys[n] in keys && keys[..n + 1][..n] == keys[..n];
        FlatAt(shards, hash, keys[n]);
        entries := entries + [FullStateItem(keys[n], Some(shards[i].data[keys[n]]))];
      }
      assert keys[..|keys|] == keys;
    }

    method Clear()
      requires Valid()
      modifies this
      ensures Valid() && Contents() == map[] && Excess() == 0 && totalBytes == 0 && Drained(pending) == []
    {
      shards, pending := Emptied(shardCount, hash);
      totalKeys, totalBytes := 0, 0;
    }

    /** Returns what is pending, shard after shard, and empties every buffer. */
    method GetSyncBuffer() returns (allOps: seq<SyncOp>)
      requires Valid()
      modifies this`pending
      ensures Valid() && allOps == Drained(old(pending)) && Drained(pending) == []
    {
      allOps := [];
      for i := 0 to shardCount
        invariant allOps == Drained(pending[..i])
      {
        assert pending[..i + 1][..i] == pending[..i];
        allOps := allOps + pending[i];
      }
      assert pending[..shardCount] == pending;
      pending := NonePending(shardCount, hash);
    }

    /** Replaces everything by the entries of a snapshot, counting every entry. */
    method ApplyFullSyncSnapshot(snapshot: seq<FullStateItem>)
      requires Valid()
      modifies this
      ensures Valid() && Contents() == Latest(snapshot) && Drained(pending) == []
      ensures totalKeys == Valued(snapshot) && totalBytes == EntrySizes(snapshot)
      ensures forall i: nat :: LastEntry(snapshot, i) ==>
        Prelude.Lookup(Contents(), snapshot[i].key) == snapshot[i].item
      ensures forall k :: k in Contents() ==> exists i: nat :: LastEntry(snapshot, i) && snapshot[i].key == k
    {
      forall k
        ensures k in Latest(snapshot) <==> exists i: nat :: LastEntry(snapshot, i) && snapshot[i].key == k
      {
        LatestExactly(snapshot, k);
      }
      LatestExactly(snapshot, "");
      shards, pending := Emptied(shardCount, hash);
      LoadAll(snapshot);
    }

    /** Stores the entries one by one, then sets the totals. */
    method LoadAll(snapshot: seq<FullStateItem>)
      requires |shards| == shardCount == Bits.Pow2(exponent) && Placed(shards, hash, shardCount)
      requires Flat(shards) == map[] && Counts(shards) == 0
      modifies this`shards, this`totalKeys, this`totalBytes
      ensures |shards| == shardCount && Placed(shards, hash, shardCount)
      ensures Flat(shards) == Latest(snapshot) && totalKeys == Counts(shards) == Valued(snapshot)
      ensures totalBytes == EntrySizes(snapshot)
    {
      var totalCount, totalSize := 0, 0;
      for n := 0 to |snapshot|
        invariant |shards| == shardCount && Placed(shards, hash, shardCount)
        invariant Flat(shards) == Latest(snapshot[..n])
        invariant Counts(shards) == totalCount == Valued(snapshot[..n]) && totalSize == EntrySizes(snapshot[..n])
      {
        assert snapshot[..n + 1][..n] == snapshot[..n];
        var key := snapshot[n].key;
        if snapshot[n].item.Some? {
          var item := snapshot[n].item.value;
          RoutedByRemainder(hash, key, exponent);
          Insert(ShardOf(key), key, item, true);
          totalCount, totalSize := totalCount + 1, totalSize + ItemSize(key, item);
        }
      }
      assert snapshot[..|snapshot|] == snapshot;
      totalKeys, totalBytes := totalCount, totalSize;
    }
  }

  /** The number of shards: the configured one, rounded up to a power of two. */
  method RoundedShards(n: nat) returns (count: nat, ghost exponent: nat)
    requires n <= 0x4000_0000_0000_0000
    ensures count == Bits.NextPowerOf2(n) == Bits.Pow2(exponent)
  {
    Bits.RoundsUp(n);
    count := Bits.NextPowerOf2(n);
    exponent :| Bits.NextPowerOf2(n) == Bits.Pow2(exponent);
  }

  /** Empty shards, and empty change buffers for them. */
  method Emptied(count: nat, ghost hash: Hash) returns (shards: seq<Shard>, pending: Pending)
    requires count > 0
    ensures |shards| == count && Placed(shards, hash, count) && Flat(shards) == map[] && Counts(shards) == 0
    ensures |pending| == count && InOwnBuffer(pending, hash, count) && Drained(pending) == []
  {
    shards := [];
    for i := 0 to count
      invariant |shards| == i && Placed(shards, hash, count) && Flat(shards) == map[] && Counts(shards) == 0
    {
      assert (shards + [EMPTY_SHARD])[..i] == shards;
      shards := shards + [EMPTY_SHARD];
    }
    pending := NonePending(count, hash);
  }

  method NonePending(count: nat, ghost hash: Hash) returns (pending: Pending)
    requires count > 0
    ensures |pending| == count && InOwnBuffer(pending, hash, count) && Drained(pending) == []
  {
    pending := [];
    for i := 0 to count
      invariant |pending| == i && InOwnBuffer(pending, hash, count) && Drained(pending) == []
    {
      assert (pending + [[]])[..i] == pending;
      pending := pending + [[]];
    }
  }

  lemma FoundMore(data: Data, done: set<string>, more: set<string>, now: int)
    ensures Found(data, done, now) + Found(DropExpired(data, done, now), more, now) == Found(data, done + more, now)
    ensures DropExpired(DropExpired(data, done, now), more, now) == DropExpired(data, done + more, now)
  {
  }

  /** Looking up one key after those before it. */
  lemma OneMore(data: Data, keys: seq<string>, n: nat, now: int)
    requires n < |keys|
    ensures var (key, before, after) := (keys[n], Elements(keys[..n]), Elements(keys[..n + 1]));
      var purged := DropExpired(data, before, now);
      if key in purged && !Expired(purged[key].expireAt, now) then
        && Found(data, after, now) == Found(data, before, now)[key := purged[key]]
        && DropExpired(data, after, now) == purged
      else
        && Found(data, after, now) == Found(data, before, now)
        && DropExpired(data, after, now) == if key in purged then WithoutKey(purged, key) else purged
  {
  }

  /** `keys` lists what is not expired among `visited`, each key once. */
  ghost predicate Listed(keys: seq<string>, data: Data, visited: set<string>, now: int) {
    && NoDuplicates(keys)
    && forall k :: k in keys <==> k in visited && k in data && !Expired(data[k].expireAt, now)
  }

  lemma OneLess(all: set<string>, todo: set<string>, key: string)
    requires key in todo && todo <= all
    ensures all - (todo - {key}) == all - todo + {key}
  {
  }

  lemma ListedMeans(keys: seq<string>, data: Data, visited: set<string>, now: int)
    requires Listed(keys, data, visited, now)
    ensures NoDuplicates(keys)
    ensures forall k :: k in keys <==> k in DropExpired(data, visited, now) && k in visited
  {
  }

  lemma ListedStep(keys: seq<string>, data: Data, visited: set<string>, key: string, now: int)
    requires Listed(keys, data, visited, now) && key !in visited && key in data
    ensures Listed(if Expired(data[key].expireAt, now) then keys else keys + [key], data, visited + {key}, now)
  {
  }

  lemma PurgedOne(data: Data, swept: set<string>, key: string, now: int)
    requires key in data && key !in swept
    ensures var purged := DropExpired(data, swept, now);
      && key in purged && purged[key] == data[key]
      && DropExpired(data, swept + {key}, now) == if Expired(data[key].expireAt, now) then WithoutKey(purged, key) else purged
  {
  }

  lemma ConcatDistinct(s: seq<string>, t: seq<string>)
    requires NoDuplicates(s) && NoDuplicates(t) && forall k :: k in s ==> k !in t
    ensures NoDuplicates(s + t)
  {
    assert forall i :: 0 <= i < |s| ==> s[i] in s;
    assert forall i :: 0 <= i < |t| ==> t[i] in t;
  }

  // ---------------------------------------------------------------- the byte account of a batch

  function EntrySizes(snapshot: seq<FullStateItem>): nat {
    if snapshot == [] then 0
    else
      var last := snapshot[|snapshot| - 1];
      EntrySizes(snapshot[..|snapshot| - 1]) + match last.item case None => 0 case Some(item) => ItemSize(last.key, item)
  }

  /** The bytes of a snapshot add up over its entries. */
  lemma EntrySizesNext(snapshot: seq<FullStateItem>, last: FullStateItem)
    ensures EntrySizes([]) == 0
    ensures EntrySizes(snapshot + [last]) == EntrySizes(snapshot) +
      if last.item.Some? then |last.key| + |last.item.value.value| + 64 else 0
  {
  }

  lemma AddedOne(before: Data, stored: Data, key: string, item: StoredItem)
    requires key !in stored
    ensures Sizes(Added(stored[key := item], before)) ==
      Sizes(Added(stored, before)) + if key in before then 0 else |key| + |item.value| + 64
    ensures Merged(before, stored)[key := item] == Merged(before, stored[key := item])
  {
    AddedKey(before, stored, key, item);
    if key !in before {
      SizesStored(Added(stored, before), key, item);
    }
  }

  lemma AddedKey(before: Data, stored: Data, key: string, item: StoredItem)
    requires key !in stored
    ensures Added(stored[key := item], before) ==
      if key in before then Added(stored, before) else Added(stored, before)[key := item]
    ensures Merged(before, stored)[key := item] == Merged(before, stored[key := item])
  {
  }

  lemma {:induction false} SizesTogether(a: Data, b: Data)
    requires a.Keys !! b.Keys
    ensures Sizes(Merged(a, b)) == Sizes(a) + Sizes(b)
    decreases |b|
  {
    if b == map[] {
      assert Merged(a, b) == a;
    } else {
      var k :| k in b;
      WithoutKeySize(b, k);
      SizesTogether(a, WithoutKey(b, k));
      SizesWithout(b, k);
      SizesWithout(Merged(a, b), k);
      MergedWithout(a, b, k);
    }
  }

  lemma AddedMerged(before: Data, stored: Data, more: Data)
    requires stored.Keys !! more.Keys
    ensures Added(Merged(stored, more), before) == Merged(Added(stored, before), Added(more, before))
    ensures Added(more, Merged(before, stored)) == Added(more, before)
    ensures Added(stored, before).Keys !! Added(more, before).Keys
  {
    assert Added(Merged(stored, more), before).Keys == Merged(Added(stored, before), Added(more, before)).Keys;
  }

  lemma MergedAssociative(a: Data, b: Data, c: Data)
    ensures Merged(Merged(a, b), c) == Merged(a, Merged(b, c))
  {
    assert Merged(Merged(a, b), c).Keys == Merged(a, Merged(b, c)).Keys;
  }

  lemma AddedMore(before: Data, stored: Data, more: Data)
    requires stored.Keys !! more.Keys
    ensures Sizes(Added(Merged(stored, more), before)) ==
      Sizes(Added(stored, before)) + Sizes(Added(more, Merged(before, stored)))
    ensures Merged(Merged(before, stored), more) == Merged(before, Merged(stored, more))
  {
    AddedMerged(before, stored, more);
    MergedAssociative(before, stored, more);
    SizesTogether(Added(stored, before), Added(more, before));
  }

  lemma WithoutAbsent(data: Data, key: string)
    requires key !in data
    ensures WithoutKey(data, key) == data
  {
  }

  lemma EmptyBatch(items: map<string, Option<StoredItem>>, before: Data)
    requires items == map[]
    ensures Storable(items) == map[] && Merged(before, map[]) == before && Added(map[], before) == map[]
  {
  }

  lemma AllItems(items: Data)
    ensures Outside(items, items.Keys) == map[] && Outside(items, {}) == items
  {
  }

  lemma OneMoreItem(items: Data, todo: set<string>, key: string)
    requires key in todo && key in items
    ensures Outside(items, todo - {key}) == Outside(items, todo)[key := items[key]] && key !in Outside(items, todo)
  {
  }

  lemma MergedNothing(before: Data)
    ensures Merged(before, map[]) == before && Added(map[], before) == map[] && Sizes(map[]) == 0
  {
  }
}
