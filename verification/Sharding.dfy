/** A store split into shards, as values: which shard a key belongs to, and the one map that the shards
    stand for. */
module Sharding {
  import opened Prelude
  import Bits
  import opened Storage
  import SyncBuffer

  type Data = map<string, StoredItem>

  type SyncOp = SyncBuffer.SyncOp

  /** A shard and its own count of its keys. */
  datatype Shard = Shard(data: Data, keyCount: int)

  type Hash = string -> uint64

  function ItemSize(key: string, item: StoredItem): nat {
    |key| + |item.value| + 64
  }

  /** The shard of a key: its hash, masked. */
  function Home(hash: Hash, key: string, count: nat): nat
    requires count > 0
  {
    Bits.And(hash(key), count - 1)
  }

  /** Masking by a power of two less one is taking the remainder, so every key has a shard. */
  lemma RoutedByRemainder(hash: Hash, key: string, k: nat)
    ensures Home(hash, key, Bits.Pow2(k)) == hash(key) % Bits.Pow2(k) < Bits.Pow2(k)
  {
    Bits.MaskIsRemainder(hash(key), k);
  }

  /** Every key lives in its own shard only. */
  ghost predicate Placed(shards: seq<Shard>, hash: Hash, count: nat)
    requires count > 0
  {
    shards != [] ==>
      && Placed(shards[..|shards| - 1], hash, count)
      && forall k :: k in shards[|shards| - 1].data ==> Home(hash, k, count) == |shards| - 1
  }

  /** The one map that the shards stand for. */
  ghost function Flat(shards: seq<Shard>): Data {
    if shards == [] then map[] else Merged(Flat(shards[..|shards| - 1]), shards[|shards| - 1].data)
  }

  /** The sum of the shards' counts. */
  ghost function Counts(shards: seq<Shard>): int {
    if shards == [] then 0 else Counts(shards[..|shards| - 1]) + shards[|shards| - 1].keyCount
  }

  /** What is not expired. */
  ghost function Live(data: Data, now: int): Data {
    map k | k in data && !Expired(data[k].expireAt, now) :: data[k]
  }

  /** `data` without the expired entries among `keys`. */
  ghost function DropExpired(data: Data, keys: set<string>, now: int): Data {
    map k | k in data && !(k in keys && Expired(data[k].expireAt, now)) :: data[k]
  }

  /** What a lookup of `keys` finds. */
  ghost function Found(data: Data, keys: set<string>, now: int): Data {
    map k | k in data && k in keys && !Expired(data[k].expireAt, now) :: data[k]
  }

  /** `data` overwritten by `more`. */
  ghost function Merged(data: Data, more: Data): Data {
    map k | k in data.Keys + more.Keys :: if k in more then more[k] else data[k]
  }

  // ---------------------------------------------------------------- the flat map

  /** The flat map holds a key exactly if one shard does. */
  lemma {:induction false} FlatHas(shards: seq<Shard>, key: string)
    ensures key in Flat(shards) <==> exists i :: 0 <= i < |shards| && key in shards[i].data
    ensures key in Flat(shards) ==>
      exists i :: 0 <= i < |shards| && key in shards[i].data && Flat(shards)[key] == shards[i].data[key]
  {
    if shards != [] {
      var front := shards[..|shards| - 1];
      FlatHas(front, key);
      assert forall i :: 0 <= i < |front| ==> front[i] == shards[i];
      if key in shards[|shards| - 1].data {
        assert Flat(shards)[key] == shards[|shards| - 1].data[key];
      } else if key in Flat(front) {
        var i :| 0 <= i < |front| && key in front[i].data && Flat(front)[key] == front[i].data[key];
        assert key in shards[i].data && Flat(shards)[key] == shards[i].data[key];
      }
    }
  }

  lemma {:induction false} PlacedHere(shards: seq<Shard>, hash: Hash, count: nat, i: nat)
    requires count > 0 && Placed(shards, hash, count) && i < |shards|
    ensures forall k :: k in shards[i].data ==> Home(hash, k, count) == i
  {
    if i < |shards| - 1 {
      PlacedHere(shards[..|shards| - 1], hash, count, i);
    }
  }

  /** Looking a key up in its own shard is looking it up in the flat map. */
  lemma FlatAt(shards: seq<Shard>, hash: Hash, key: string)
    requires shards != [] && Placed(shards, hash, |shards|) && Home(hash, key, |shards|) < |shards|
    ensures var data := shards[Home(hash, key, |shards|)].data;
      && (key in Flat(shards) <==> key in data)
      && (key in data ==> Flat(shards)[key] == data[key])
  {
    FlatHas(shards, key);
    if i :| 0 <= i < |shards| && key in shards[i].data && Flat(shards)[key] == shards[i].data[key] {
      PlacedHere(shards, hash, |shards|, i);
    }
  }

  lemma FlatHome(shards: seq<Shard>, hash: Hash, key: string)
    requires shards != [] && Placed(shards, hash, |shards|) && key in Flat(shards)
    ensures Home(hash, key, |shards|) < |shards|
  {
    FlatHas(shards, key);
    var i :| 0 <= i < |shards| && key in shards[i].data;
    PlacedHere(shards, hash, |shards|, i);
  }

  lemma {:induction false} CountsUpdate(shards: seq<Shard>, i: nat, shard: Shard)
    requires i < |shards|
    ensures Counts(shards[i := shard]) == Counts(shards) - shards[i].keyCount + shard.keyCount
  {
    var t := shards[i := shard];
    if i == |shards| - 1 {
      assert t[..|t| - 1] == shards[..|shards| - 1];
    } else {
      assert t[..|t| - 1] == shards[..|shards| - 1][i := shard];
      CountsUpdate(shards[..|shards| - 1], i, shard);
    }
  }

  lemma {:induction false} PlacedUpdate(shards: seq<Shard>, hash: Hash, count: nat, i: nat, shard: Shard)
    requires count > 0 && Placed(shards, hash, count) && i < |shards|
    requires forall k :: k in shard.data ==> Home(hash, k, count) == i
    ensures Placed(shards[i := shard], hash, count)
  {
    var t := shards[i := shard];
    if i == |shards| - 1 {
      assert t[..|t| - 1] == shards[..|shards| - 1];
    } else {
      assert t[..|t| - 1] == shards[..|shards| - 1][i := shard];
      PlacedUpdate(shards[..|shards| - 1], hash, count, i, shard);
    }
  }

  lemma FlatElsewhere(shards: seq<Shard>, hash: Hash, i: nat, shard: Shard, key: string)
    requires i < |shards| && Placed(shards, hash, |shards|) && Placed(shards[i := shard], hash, |shards|)
    requires key in shard.data <==> key in shards[i].data
    requires key in shard.data ==> shard.data[key] == shards[i].data[key]
    ensures key in Flat(shards[i := shard]) <==> key in Flat(shards)
    ensures key in Flat(shards) ==> Flat(shards[i := shard])[key] == Flat(shards)[key]
  {
    if Home(hash, key, |shards|) < |shards| {
      FlatAt(shards, hash, key);
      FlatAt(shards[i := shard], hash, key);
    } else {
      if key in Flat(shards) {
        FlatHome(shards, hash, key);
      }
      if key in Flat(shards[i := shard]) {
        FlatHome(shards[i := shard], hash, key);
      }
    }
  }

  /** Storing a key in its shard is storing it in the flat map. */
  lemma FlatStore(shards: seq<Shard>, hash: Hash, key: string, item: StoredItem, count: int)
    requires shards != [] && Placed(shards, hash, |shards|) && Home(hash, key, |shards|) < |shards|
    ensures var i := Home(hash, key, |shards|);
      var t := shards[i := Shard(shards[i].data[key := item], count)];
      && Placed(t, hash, |t|) && Flat(t) == Flat(shards)[key := item]
      && Counts(t) == Counts(shards) - shards[i].keyCount + count
  {
    var i := Home(hash, key, |shards|);
    var shard := Shard(shards[i].data[key := item], count);
    var t := shards[i := shard];
    PlacedHere(shards, hash, |shards|, i);
    PlacedUpdate(shards, hash, |shards|, i, shard);
    CountsUpdate(shards, i, shard);
    FlatAt(t, hash, key);
    forall k | k != key
      ensures k in Flat(t) <==> k in Flat(shards)
      ensures k in Flat(t) ==> Flat(t)[k] == Flat(shards)[k]
    {
      FlatElsewhere(shards, hash, i, shard, k);
    }
    assert Flat(t).Keys == Flat(shards)[key := item].Keys;
  }

  /** Removing a key from its shard is removing it from the flat map. */
  lemma FlatDrop(shards: seq<Shard>, hash: Hash, key: string, count: int)
    requires shards != [] && Placed(shards, hash, |shards|) && Home(hash, key, |shards|) < |shards|
    ensures var i := Home(hash, key, |shards|);
      var t := shards[i := Shard(WithoutKey(shards[i].data, key), count)];
      && Placed(t, hash, |t|) && Flat(t) == WithoutKey(Flat(shards), key)
      && Counts(t) == Counts(shards) - shards[i].keyCount + count
  {
    var i := Home(hash, key, |shards|);
    var shard := Shard(WithoutKey(shards[i].data, key), count);
    var t := shards[i := shard];
    PlacedHere(shards, hash, |shards|, i);
    PlacedUpdate(shards, hash, |shards|, i, shard);
    CountsUpdate(shards, i, shard);
    FlatAt(t, hash, key);
    forall k | k != key
      ensures k in Flat(t) <==> k in Flat(shards)
      ensures k in Flat(t) ==> Flat(t)[k] == Flat(shards)[k]
    {
      FlatElsewhere(shards, hash, i, shard, k);
    }
    assert Flat(t).Keys == WithoutKey(Flat(shards), key).Keys;
  }

  lemma StoredSize(data: Data, key: string, item: StoredItem)
    ensures |data[key := item]| == |data| + if key in data then 0 else 1
  {
  }

  // ---------------------------------------------------------------- sums of sizes

  /** The sizes of all entries together. */
  ghost function Sizes(data: Data): nat
    decreases |data|
  {
    if data == map[] then 0
    else
      var k :| k in data;
      WithoutKeySize(data, k);
      Sizes(WithoutKey(data, k)) + ItemSize(k, data[k])
  }

  lemma WithoutBoth(data: Data, j: string, k: string)
    ensures WithoutKey(WithoutKey(data, j), k) == WithoutKey(WithoutKey(data, k), j)
  {
  }

  /** The order in which entries are added up does not matter. */
  lemma {:induction false} SizesWithout(data: Data, key: string)
    requires key in data
    ensures Sizes(data) == Sizes(WithoutKey(data, key)) + ItemSize(key, data[key])
    decreases |data|
  {
    var k :| k in data && Sizes(data) == Sizes(WithoutKey(data, k)) + ItemSize(k, data[k]);
    if k != key {
      WithoutKeySize(data, k);
      SizesWithout(WithoutKey(data, k), key);
      WithoutKeySize(data, key);
      SizesWithout(WithoutKey(data, key), k);
      WithoutBoth(data, k, key);
    }
  }

  lemma SizesStored(data: Data, key: string, item: StoredItem)
    requires key !in data
    ensures Sizes(data[key := item]) == Sizes(data) + |key| + |item.value| + 64
  {
    SizesWithout(data[key := item], key);
    assert WithoutKey(data[key := item], key) == data;
  }

  // ---------------------------------------------------------------- snapshots

  /** A snapshot entry; the item may be missing. */
  datatype FullStateItem = FullStateItem(key: string, item: Option<StoredItem>)

  /** What is left after storing the entries one after the other. */
  function Latest(snapshot: seq<FullStateItem>): Data {
    if snapshot == [] then map[]
    else
      var front, last := Latest(snapshot[..|snapshot| - 1]), snapshot[|snapshot| - 1];
      match last.item
      case None => front
      case Some(item) => front[last.key := item]
  }

  function Valued(snapshot: seq<FullStateItem>): nat {
    if snapshot == [] then 0
    else Valued(snapshot[..|snapshot| - 1]) + if snapshot[|snapshot| - 1].item.Some? then 1 else 0
  }

  /** No key carries an item twice. */
  ghost predicate KeysDistinct(snapshot: seq<FullStateItem>) {
    forall i, j :: 0 <= i < j < |snapshot| && snapshot[i].item.Some? && snapshot[j].item.Some? ==>
      snapshot[i].key != snapshot[j].key
  }

  lemma {:induction false} LatestHas(snapshot: seq<FullStateItem>, key: string)
    ensures key in Latest(snapshot) <==> exists i :: 0 <= i < |snapshot| && snapshot[i].item.Some? && snapshot[i].key == key
  {
    if snapshot != [] {
      var front := snapshot[..|snapshot| - 1];
      LatestHas(front, key);
      assert forall i :: 0 <= i < |front| ==> front[i] == snapshot[i];
    }
  }

  /** The entry of a key that counts: the last one that has an item. */
  predicate LastEntry(snapshot: seq<FullStateItem>, i: nat) {
    && i < |snapshot| && snapshot[i].item.Some?
    && forall j :: i < j < |snapshot| && snapshot[j].item.Some? ==> snapshot[j].key != snapshot[i].key
  }

  lemma {:induction false} LatestExactly(snapshot: seq<FullStateItem>, key: string)
    ensures key in Latest(snapshot) <==> exists i: nat :: LastEntry(snapshot, i) && snapshot[i].key == key
    ensures forall i: nat :: LastEntry(snapshot, i) ==> Lookup(Latest(snapshot), snapshot[i].key) == snapshot[i].item
  {
    if snapshot != [] {
      var front, n := snapshot[..|snapshot| - 1], |snapshot| - 1;
      LatestExactly(front, key);
      forall i: nat
        ensures LastEntry(snapshot, i) <==>
          if i == n then snapshot[n].item.Some?
          else LastEntry(front, i) && (snapshot[n].item.Some? ==> snapshot[n].key != front[i].key)
      {
        LastEntryBefore(snapshot, i);
      }
      if snapshot[n].item.Some? && snapshot[n].key == key {
        assert LastEntry(snapshot, n);
      }
    }
  }

  lemma LastEntryBefore(snapshot: seq<FullStateItem>, i: nat)
    requires snapshot != []
    ensures var front, n := snapshot[..|snapshot| - 1], |snapshot| - 1;
      LastEntry(snapshot, i) <==>
        if i == n then snapshot[n].item.Some?
        else LastEntry(front, i) && (snapshot[n].item.Some? ==> snapshot[n].key != front[i].key)
  {
    var front := snapshot[..|snapshot| - 1];
    assert forall j :: 0 <= j < |front| ==> snapshot[j] == front[j];
  }

  /** The count of the entries that have an item. */
  lemma {:induction false} ValuedExactly(snapshot: seq<FullStateItem>)
    ensures Valued(snapshot) == |set i: nat | i < |snapshot| && snapshot[i].item.Some?|
  {
    if snapshot != [] {
      var front, n := snapshot[..|snapshot| - 1], |snapshot| - 1;
      ValuedExactly(front);
      assert (set i: nat | i < |snapshot| && snapshot[i].item.Some?) ==
        (set i: nat | i < |front| && front[i].item.Some?) + if snapshot[n].item.Some? then {n} else {};
    }
  }

  /** Applying a snapshot counts entries, not keys: the count is the number of keys if and only if no key
      occurs twice. */
  lemma {:induction false} SnapshotCounts(snapshot: seq<FullStateItem>)
    ensures |Latest(snapshot)| <= Valued(snapshot)
    ensures Valued(snapshot) == |Latest(snapshot)| <==> KeysDistinct(snapshot)
  {
    if snapshot != [] {
      var front, last := snapshot[..|snapshot| - 1], snapshot[|snapshot| - 1];
      SnapshotCounts(front);
      LatestHas(front, last.key);
      assert forall i :: 0 <= i < |front| ==> front[i] == snapshot[i];
      if last.item.Some? {
        StoredSize(Latest(front), last.key, last.item.value);
      }
    }
  }

  /** `snapshot` lists `data`, each key once. */
  ghost predicate Lists(snapshot: seq<FullStateItem>, data: Data) {
    && KeysDistinct(snapshot)
    && (forall i :: 0 <= i < |snapshot| ==> snapshot[i].key in data && snapshot[i].item == Some(data[snapshot[i].key]))
    && (forall k :: k in data ==> exists i :: 0 <= i < |snapshot| && snapshot[i].key == k)
  }

  /** The entries of a snapshot of `data` that lists `keys`. */
  function Pairs(keys: seq<string>, data: Data): seq<FullStateItem> {
    if keys == [] then []
    else
      var last := keys[|keys| - 1];
      Pairs(keys[..|keys| - 1], data) + [FullStateItem(last, if last in data then Some(data[last]) else None)]
  }

  lemma {:induction false} PairsConcat(keys: seq<string>, more: seq<string>, data: Data)
    ensures Pairs(keys + more, data) == Pairs(keys, data) + Pairs(more, data)
  {
    if more == [] {
      assert keys + more == keys;
    } else {
      assert (keys + more)[..|keys + more| - 1] == keys + more[..|more| - 1];
      PairsConcat(keys, more[..|more| - 1], data);
    }
  }

  lemma {:induction false} PairsAt(keys: seq<string>, data: Data)
    ensures |Pairs(keys, data)| == |keys|
    ensures forall i :: 0 <= i < |keys| ==>
      Pairs(keys, data)[i] == FullStateItem(keys[i], if keys[i] in data then Some(data[keys[i]]) else None)
  {
    if keys != [] {
      PairsAt(keys[..|keys| - 1], data);
    }
  }

  lemma PairsList(keys: seq<string>, data: Data)
    requires NoDuplicates(keys) && forall k :: k in keys <==> k in data
    ensures Lists(Pairs(keys, data), data)
  {
    PairsAt(keys, data);
    assert forall i :: 0 <= i < |keys| ==> keys[i] in keys;
    forall k | k in data
      ensures exists i :: 0 <= i < |keys| && Pairs(keys, data)[i].key == k
    {
      var i :| 0 <= i < |keys| && keys[i] == k;
      assert Pairs(keys, data)[i].key == k;
    }
  }

  /** TRANSFER.  Applying a snapshot of one store makes any other store, however it is sharded, stand for the
      same map, with the right count. */
  lemma SnapshotTransfers(snapshot: seq<FullStateItem>, data: Data)
    requires Lists(snapshot, data)
    ensures Latest(snapshot) == data && Valued(snapshot) == |data|
  {
    SnapshotCounts(snapshot);
    forall k
      ensures k in Latest(snapshot) <==> k in data
    {
      LatestHas(snapshot, k);
    }
    LatestFrom(snapshot, data);
    assert Latest(snapshot).Keys == data.Keys;
  }

  lemma {:induction false} LatestFrom(snapshot: seq<FullStateItem>, data: Data)
    requires forall i :: 0 <= i < |snapshot| ==> snapshot[i].key in data && snapshot[i].item == Some(data[snapshot[i].key])
    ensures forall k :: k in Latest(snapshot) ==> k in data && Latest(snapshot)[k] == data[k]
  {
    if snapshot != [] {
      LatestFrom(snapshot[..|snapshot| - 1], data);
    }
  }

  /** The count is off as soon as a key is named twice. */
  lemma NamedTwice(key: string, a: StoredItem, b: StoredItem)
    ensures var snapshot := [FullStateItem(key, Some(a))] + [FullStateItem(key, Some(b))];
      Latest(snapshot) == map[key := b] && Valued(snapshot) == 2
  {
    var first := [FullStateItem(key, Some(a))];
    var snapshot := first + [FullStateItem(key, Some(b))];
    assert snapshot[..1] == first && first[..0] == [];
    assert Latest(first) == map[key := a] && Valued(first) == 1;
  }

  // ---------------------------------------------------------------- change buffers

  const SHARD_CAPACITY := 16384

  /** What is pending in the change buffers, shard by shard. */
  type Pending = seq<seq<SyncOp>>

  function OpOf(key: string, item: StoredItem): SyncOp {
    SyncBuffer.SetOp(key, item.version, item.value, item.expireAt)
  }

  function Recorded(pending: Pending, i: nat, op: SyncOp): (r: Pending)
    ensures |r| == |pending|
  {
    if i < |pending| then pending[i := SyncBuffer.Push(pending[i], op, SHARD_CAPACITY)] else pending
  }

  /** Recording one operation after the other, each in the buffer of its key's shard. */
  function RecordedAll(pending: Pending, hash: Hash, ops: seq<SyncOp>): (r: Pending)
    ensures |r| == |pending|
  {
    if ops == [] || pending == [] then pending
    else
      var last := ops[|ops| - 1];
      Recorded(RecordedAll(pending, hash, ops[..|ops| - 1]), Home(hash, last.key, |pending|), last)
  }

  lemma RecordedNext(pending: Pending, hash: Hash, ops: seq<SyncOp>, op: SyncOp)
    requires pending != []
    ensures RecordedAll(pending, hash, ops + [op]) ==
      Recorded(RecordedAll(pending, hash, ops), Home(hash, op.key, |pending|), op)
  {
    assert (ops + [op])[..|ops|] == ops;
  }

  /** Every pending operation is in the buffer of its key's shard. */
  ghost predicate InOwnBuffer(pending: Pending, hash: Hash, count: nat)
    requires count > 0
  {
    pending != [] ==>
      var last := pending[|pending| - 1];
      && InOwnBuffer(pending[..|pending| - 1], hash, count)
      && forall j :: 0 <= j < |last| ==> Home(hash, last[j].key, count) == |pending| - 1
  }

  lemma {:induction false} RecordedInOwn(pending: Pending, hash: Hash, count: nat, i: nat, op: SyncOp)
    requires count > 0 && InOwnBuffer(pending, hash, count) && i < |pending| && Home(hash, op.key, count) == i
    ensures InOwnBuffer(Recorded(pending, i, op), hash, count)
  {
    var t := Recorded(pending, i, op);
    if i < |pending| - 1 {
      assert t[..|t| - 1] == Recorded(pending[..|pending| - 1], i, op);
      RecordedInOwn(pending[..|pending| - 1], hash, count, i, op);
    } else {
      assert t[..|t| - 1] == pending[..|pending| - 1];
    }
  }

  /** The operations, buffer after buffer. */
  function Drained(pending: Pending): seq<SyncOp> {
    if pending == [] then [] else Drained(pending[..|pending| - 1]) + pending[|pending| - 1]
  }

  /** The operations on one key. */
  function OnKey(ops: seq<SyncOp>, key: string): seq<SyncOp> {
    if ops == [] then []
    else
      var front, last := OnKey(ops[..|ops| - 1], key), ops[|ops| - 1];
      if last.key == key then front + [last] else front
  }

  lemma {:induction false} OnKeyConcat(a: seq<SyncOp>, b: seq<SyncOp>, key: string)
    ensures OnKey(a + b, key) == OnKey(a, key) + OnKey(b, key)
  {
    if b == [] {
      assert a + b == a;
    } else {
      assert (a + b)[..|a + b| - 1] == a + b[..|b| - 1];
      OnKeyConcat(a, b[..|b| - 1], key);
    }
  }

  lemma {:induction false} OnKeyNone(ops: seq<SyncOp>, key: string)
    requires forall j :: 0 <= j < |ops| ==> ops[j].key != key
    ensures OnKey(ops, key) == []
  {
    if ops != [] {
      OnKeyNone(ops[..|ops| - 1], key);
    }
  }

  lemma {:induction false} DrainedUpTo(pending: Pending, hash: Hash, count: nat, key: string)
    requires count > 0 && InOwnBuffer(pending, hash, count)
    ensures var home := Home(hash, key, count);
      OnKey(Drained(pending), key) == if home < |pending| then OnKey(pending[home], key) else []
  {
    if pending != [] {
      var front, last := pending[..|pending| - 1], pending[|pending| - 1];
      DrainedUpTo(front, hash, count, key);
      OnKeyConcat(Drained(front), last, key);
      if Home(hash, key, count) != |pending| - 1 {
        OnKeyNone(last, key);
      }
    }
  }

  /** The operations on a key are all of them, in order. */
  lemma {:induction false} OnKeyExactly(ops: seq<SyncOp>, all: seq<SyncOp>, key: string)
    requires forall op :: op in ops ==> op in all
    ensures OnKey(ops, key) == Without(ops, set op | op in all && op.key != key)
  {
    if ops != [] {
      assert ops[|ops| - 1] in ops && forall op :: op in ops[..|ops| - 1] ==> op in ops;
      OnKeyExactly(ops[..|ops| - 1], all, key);
    }
  }

  /** Draining shard after shard keeps the order of the operations on each key. */
  lemma DrainedByKey(pending: Pending, hash: Hash, key: string)
    requires |pending| > 0 && InOwnBuffer(pending, hash, |pending|) && Home(hash, key, |pending|) < |pending|
    ensures OnKey(Drained(pending), key) == OnKey(pending[Home(hash, key, |pending|)], key)
  {
    DrainedUpTo(pending, hash, |pending|, key);
  }

  /** `ops` stores exactly `data`, each key once. */
  ghost predicate Stores(ops: seq<SyncOp>, data: Data) {
    if ops == [] then data == map[]
    else
      var last := ops[|ops| - 1];
      last.key in data && last == OpOf(last.key, data[last.key]) && Stores(ops[..|ops| - 1], WithoutKey(data, last.key))
  }

  lemma StoresMore(ops: seq<SyncOp>, data: Data, key: string, item: StoredItem)
    requires Stores(ops, data) && key !in data
    ensures Stores(ops + [OpOf(key, item)], data[key := item])
  {
    assert (ops + [OpOf(key, item)])[..|ops|] == ops;
    assert WithoutKey(data[key := item], key) == data;
  }

  lemma MergedWithout(a: Data, b: Data, key: string)
    requires key !in a
    ensures WithoutKey(Merged(a, b), key) == Merged(a, WithoutKey(b, key))
  {
  }

  lemma {:induction false} StoresMerged(a: seq<SyncOp>, data: Data, b: seq<SyncOp>, more: Data)
    requires Stores(a, data) && Stores(b, more) && data.Keys !! more.Keys
    ensures Stores(a + b, Merged(data, more))
    decreases |b|
  {
    if b == [] {
      assert a + b == a;
      assert Merged(data, more) == data;
    } else {
      var last := b[|b| - 1];
      assert (a + b)[..|a + b| - 1] == a + b[..|b| - 1];
      MergedWithout(data, more, last.key);
      StoresMerged(a, data, b[..|b| - 1], WithoutKey(more, last.key));
    }
  }

  /** Recording appends to one buffer, and drops its oldest operation if it was full. */
  lemma RecordedExactly(pending: Pending, i: nat, op: SyncOp)
    requires i < |pending|
    ensures var all := pending[i] + [op];
      Recorded(pending, i, op) == pending[i := if |all| <= 16384 then all else all[1..]]
  {
  }

  /** What that means: each key of `data` is stored by one operation, and by no other. */
  lemma {:induction false} StoresOnce(ops: seq<SyncOp>, data: Data)
    requires Stores(ops, data)
    ensures |ops| == |data|
    ensures forall i :: 0 <= i < |ops| ==> ops[i].key in data
    ensures forall i :: 0 <= i < |ops| ==>
      var item := data[ops[i].key];
      ops[i] == SyncBuffer.SetOp(ops[i].key, item.version, item.value, item.expireAt)
    ensures forall i, j :: 0 <= i < j < |ops| ==> ops[i].key != ops[j].key
  {
    if ops != [] {
      var front, last := ops[..|ops| - 1], ops[|ops| - 1];
      StoresOnce(front, WithoutKey(data, last.key));
      WithoutKeySize(data, last.key);
      assert forall i :: 0 <= i < |front| ==> ops[i] == front[i];
    }
  }

  lemma {:induction false} RecordedConcat(pending: Pending, hash: Hash, a: seq<SyncOp>, b: seq<SyncOp>)
    ensures RecordedAll(pending, hash, a + b) == RecordedAll(RecordedAll(pending, hash, a), hash, b)
  {
    if b == [] {
      assert a + b == a;
    } else {
      assert (a + b)[..|a + b| - 1] == a + b[..|b| - 1];
      RecordedConcat(pending, hash, a, b[..|b| - 1]);
    }
  }
}
