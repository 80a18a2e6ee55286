/** The compressing, memory-limited store: entries, recency list, byte account and change buffer, updated in
    place. */
module MemoryStore {
  import opened Prelude
  import opened Storage
  import opened Lru
  import opened SyncBuffer

  const COMPRESSION_THRESHOLD := 256

  /** A compressor and a decompressor. */
  datatype Codec = Codec(encode: Bytes -> Bytes, decode: Bytes -> Option<Bytes>) {
    ghost predicate Exact() {
      forall v :: decode(encode(v)) == Some(v)
    }
  }

  /** What is kept for a value: the compressed form if the value is large enough and it gets smaller. */
  function Compress(codec: Codec, value: Bytes): (r: (Bytes, bool))
    ensures |r.0| <= |value|
  {
    if |value| < COMPRESSION_THRESHOLD then (value, false)
    else
      var encoded := codec.encode(value);
      if |encoded| < |value| then (encoded, true) else (value, false)
  }

  function Packed(codec: Codec, item: StoredItem): Entry {
    var (value, compressed) := Compress(codec, item.value);
    Entry(item.expireAt, item.version, value, compressed, |item.value|)
  }

  function Unpacked(codec: Codec, e: Entry): Option<StoredItem> {
    if !e.compressed then Some(StoredItem(e.expireAt, e.version, e.value))
    else match codec.decode(e.value)
      case None => None
      case Some(value) => Some(StoredItem(e.expireAt, e.version, value))
  }

  /** What is stored comes back, and never takes more room than it had. */
  lemma PackUnpack(codec: Codec, item: StoredItem)
    requires codec.Exact()
    ensures Unpacked(codec, Packed(codec, item)) == Some(item)
    ensures |Packed(codec, item).value| <= |item.value|
  {
  }

  /** `keys` lists the keys of `data` that are not to do any more; none of them has expired. */
  ghost predicate Listed(data: map<string, Entry>, todo: set<string>, keys: seq<string>, now: int) {
    && NoDuplicates(keys) && (forall k :: k in keys <==> k in data && k !in todo)
    && (forall k :: k in keys ==> !Expired(data[k].expireAt, now))
  }

  lemma ListedNext(data: map<string, Entry>, todo: set<string>, keys: seq<string>, now: int, k: string)
    requires Listed(data, todo, keys, now) && k in todo && k in data
    ensures if Expired(data[k].expireAt, now) then Listed(WithoutKey(data, k), todo - {k}, keys, now)
            else Listed(data, todo - {k}, keys + [k], now)
  {
    DistinctAppend(keys, k);
  }

  /** What a Set changes: its own key, and others only to make room. */
  lemma SetChanges(c: Cache, key: string, e: Entry, limit: int, budget: nat)
    requires WellFormed(c)
    ensures var (c', outcome) := Execute(c, Lru.Set(key, e), limit, budget);
      && outcome in {EmptyKey, Done, MemoryLimit} && (outcome == EmptyKey <==> key == "") && (key == "" ==> c' == c)
      && (outcome == MemoryLimit ==> limit > 0 && |c.lru| < budget)
      && (outcome == Done ==> Lookup(c'.data, key) == Some(e) && c'.lru != [] && c'.lru[0] == key)
      && (outcome == Done && (limit <= 0 || c.bytes + |key| + |e.value| + 64 <= limit) ==>
            c'.bytes == c.bytes + |key| + |e.value| + 64 - if key in c.data then |key| + |c.data[key].value| + 64 else 0)
  {
    if key != "" {
      SetMeans(c, key, e, limit, budget, key);
    }
  }

  lemma SetSpares(c: Cache, key: string, e: Entry, limit: int, budget: nat, k: string)
    requires WellFormed(c)
    ensures var (c', outcome) := Execute(c, Lru.Set(key, e), limit, budget);
      && (k in c'.data ==> (k == key && outcome == Done) || Lookup(c.data, k) == Some(c'.data[k]))
      && (outcome == Done && (limit <= 0 || c.bytes + |key| + |e.value| + 64 <= limit) && k in c.data ==> k in c'.data)
  {
    if key != "" {
      SetMeans(c, key, e, limit, budget, k);
    }
  }

  lemma SetLeavesAll(c: Cache, key: string, e: Entry, limit: int, budget: nat)
    requires WellFormed(c)
    ensures var (c', outcome) := Execute(c, Lru.Set(key, e), limit, budget);
      forall k ::
        && (k in c'.data ==> (k == key && outcome == Done) || Lookup(c.data, k) == Some(c'.data[k]))
        && (outcome == Done && (limit <= 0 || c.bytes + |key| + |e.value| + 64 <= limit) && k in c.data ==> k in c'.data)
  {
    forall k
      ensures var (c', outcome) := Execute(c, Lru.Set(key, e), limit, budget);
        && (k in c'.data ==> (k == key && outcome == Done) || Lookup(c.data, k) == Some(c'.data[k]))
        && (outcome == Done && (limit <= 0 || c.bytes + |key| + |e.value| + 64 <= limit) && k in c.data ==> k in c'.data)
    {
      SetSpares(c, key, e, limit, budget, k);
    }
  }

  class MemoryStorage {
    const codec: Codec
    const maxMemoryBytes: int
    const ring: SyncRing
    var data: map<string, Entry>
    var lruList: seq<string>
    var lruMap: set<string>
    var keyCount: int
    var currentBytes: int

    ghost function State(): Cache
      reads this
    {
      Cache(data, lruList, currentBytes)
    }

    /** The recency index and the key counter agree with the stored keys. */
    ghost predicate Indexed()
      reads this
    {
      WellFormed(State()) && lruMap == Elements(lruList) && keyCount == |data|
    }

    ghost predicate Valid()
      reads this, ring, ring.syncBuffer
    {
      Indexed() && ring.Valid()
    }

    constructor (maxMemoryMB: int, codec: Codec)
      ensures Valid() && State() == EMPTY && ring.Pending() == [] && fresh(ring) && fresh(ring.syncBuffer)
      ensures this.codec == codec && maxMemoryBytes == if maxMemoryMB > 0 then maxMemoryMB * 1024 * 1024 else 0
    {
      this.codec := codec;
      maxMemoryBytes := if maxMemoryMB > 0 then maxMemoryMB * 1024 * 1024 else 0;
      var r := new SyncRing(13);
      ring := r;
      data, lruList, lruMap, keyCount, currentBytes := map[], [], {}, 0, 0;
    }

    method TouchLRU(key: string)
      requires NoDuplicates(lruList) && lruMap == Elements(lruList)
      modifies this`lruList, this`lruMap
      ensures lruList == Touched(old(lruList), key) && lruMap == Elements(lruList)
    {
      TouchedDistinct(lruList, key);
      if key in lruMap {
        lruList := [key] + Delete(lruList, key);
      } else {
        DeleteAbsent(lruList, key);
        lruList := [key] + lruList;
        lruMap := lruMap + {key};
      }
    }

    /** Takes a key off the recency list, if it is there. */
    method ForgetLRU(key: string)
      requires lruMap == Elements(lruList)
      modifies this`lruList, this`lruMap
      ensures lruList == Delete(old(lruList), key) && lruMap == Elements(lruList)
    {
      DeleteElements(lruList, key);
      if key in lruMap {
        lruList := Delete(lruList, key);
        lruMap := lruMap - {key};
      } else {
        DeleteAbsent(lruList, key);
      }
    }

    /** Evicts the least recently used entry. */
    method EvictLRU() returns (evicted: bool)
      requires Indexed()
      modifies this
      ensures Indexed() && evicted == (old(lruList) != [])
      ensures State() == if evicted then WithoutOldest(old(State())) else old(State())
      ensures evicted ==>
        var key := old(lruList)[|old(lruList)| - 1];
        && key in old(data) && currentBytes == old(currentBytes) - (|key| + |old(data)[key].value| + 64)
        && lruList == old(lruList)[..|old(lruList)| - 1]
        && forall k :: Lookup(data, k) == if k == key then None else Lookup(old(data), k)
    {
      if |lruList| == 0 {
        return false;
      }
      var key := lruList[|lruList| - 1];
      OldestKeeps(State());
      assert key in lruList;
      lruList := lruList[..|lruList| - 1];
      lruMap := Elements(lruList);
      currentBytes := currentBytes - EntrySize(key, data[key]);
      WithoutKeySize(data, key);
      data := WithoutKey(data, key);
      keyCount := keyCount - 1;
      return true;
    }

    /** Evicts until there is room, the budget is spent, or nothing is left. */
    method EvictUntil(itemSize: nat, budget: nat) returns (ok: bool)
      requires Indexed()
      modifies this
      ensures Indexed() && (State(), ok) == Freed(old(State()), itemSize, maxMemoryBytes, budget)
    {
      ghost var freed := Freed(State(), itemSize, maxMemoryBytes, budget);
      var evicted := 0;
      while currentBytes + itemSize > maxMemoryBytes && evicted < budget
        invariant Indexed() && evicted <= budget
        invariant Freed(State(), itemSize, maxMemoryBytes, budget - evicted) == freed
        decreases budget - evicted
      {
        var more := EvictNeeded(itemSize, budget - evicted);
        if !more {
          return false;
        }
        evicted := evicted + 1;
      }
      FreedDone(State(), itemSize, maxMemoryBytes, budget - evicted);
      return true;
    }

    /** Evicts one entry when there is no room and `left` evictions may still be spent. */
    method EvictNeeded(itemSize: nat, ghost left: nat) returns (more: bool)
      requires Indexed() && currentBytes + itemSize > maxMemoryBytes && left > 0
      modifies this
      ensures Indexed()
      ensures Freed(old(State()), itemSize, maxMemoryBytes, left) ==
        if more then Freed(State(), itemSize, maxMemoryBytes, left - 1) else (State(), false)
    {
      more := EvictLRU();
    }

    /** Makes room if there is a limit at all. */
    method Reserve(itemSize: nat, budget: nat) returns (ok: bool)
      requires Indexed()
      modifies this
      ensures Indexed() && (State(), ok) == MakeRoom(old(State()), itemSize, maxMemoryBytes, budget)
    {
      ok := true;
      if maxMemoryBytes > 0 {
        FreedIsExact(State(), itemSize, maxMemoryBytes, budget, 0);
        ok := EvictUntil(itemSize, budget);
      }
    }

    method Set(key: string, item: Option<StoredItem>) returns (r: Result<()>)
      requires Valid()
      modifies this, ring, ring.syncBuffer
      ensures Valid()
      ensures (State(), r) ==
        if item.None? then (old(State()), Err(if key == "" then ErrEmptyKey else ErrNilItem))
        else SetResult(old(State()), key, item.value, MAX_EVICTIONS)
      ensures ring.Pending() ==
        if r.Ok? then
          Push(old(ring.Pending()), SetOp(key, item.value.version, item.value.value, item.value.expireAt), ring.Capacity())
        else old(ring.Pending())
      ensures r.Ok? ==> key != "" && key in data && Keeps(data[key], item) && lruList != [] && lruList[0] == key
      ensures r == Err(ErrEmptyKey) <==> key == ""
      ensures r == Err(ErrNilItem) <==> key != "" && item.None?
      ensures r == Err(ErrMemoryLimit) ==> maxMemoryBytes > 0 && |old(lruList)| < 100
      ensures forall k :: k in data ==> (k == key && r.Ok?) || Lookup(old(data), k) == Some(data[k])
      ensures r.Ok? && (maxMemoryBytes <= 0 || old(currentBytes) + |key| + |data[key].value| + 64 <= maxMemoryBytes) ==>
        && (forall k :: k in old(data) ==> k in data)
        && currentBytes == old(currentBytes) + |key| + |data[key].value| + 64
             - if key in old(data) then |key| + |old(data)[key].value| + 64 else 0
    {
      if item.None? {
        return Err(if key == "" then ErrEmptyKey else ErrNilItem);
      }
      SetChanges(State(), key, Packed(codec, item.value), maxMemoryBytes, MAX_EVICTIONS);
      SetLeavesAll(State(), key, Packed(codec, item.value), maxMemoryBytes, MAX_EVICTIONS);
      r := SetWithin(key, item.value, MAX_EVICTIONS);
    }

    /** The entry keeps the item: expiry, version and size, and the value itself or, if it is long and gets
        shorter, its compressed form. */
    ghost predicate Keeps(e: Entry, item: Option<StoredItem>) {
      && item.Some? && e.expireAt == item.value.expireAt && e.version == item.value.version
      && e.origSize == |item.value.value|
      && e.compressed == (|item.value.value| >= 256 && |codec.encode(item.value.value)| < |item.value.value|)
      && e.value == if e.compressed then codec.encode(item.value.value) else item.value.value
    }

    ghost function SetResult(c: Cache, key: string, item: StoredItem, budget: nat): (Cache, Result<()>) {
      var (c', outcome) := Execute(c, Lru.Set(key, Packed(codec, item)), maxMemoryBytes, budget);
      (c', match outcome case EmptyKey => Err(ErrEmptyKey) case MemoryLimit => Err(ErrMemoryLimit) case _ => Ok(()))
    }

    method SetWithin(key: string, item: StoredItem, budget: nat) returns (r: Result<()>)
      requires Valid()
      modifies this, ring, ring.syncBuffer
      ensures Valid()
      ensures (State(), r) == SetResult(old(State()), key, item, budget)
      ensures ring.Pending() ==
        if r.Ok? then Push(old(ring.Pending()), SetOp(key, item.version, item.value, item.expireAt), ring.Capacity())
        else old(ring.Pending())
    {
      r := SetItem(key, item, budget);
      if r.Ok? {
        ring.RecordOp(SetOp(key, item.version, item.value, item.expireAt));
      }
    }

    method SetItem(key: string, item: StoredItem, budget: nat) returns (r: Result<()>)
      requires Indexed()
      modifies this
      ensures Indexed() && (State(), r) == SetResult(old(State()), key, item, budget)
    {
      if key == "" {
        return Err(ErrEmptyKey);
      }
      var compItem := Packed(codec, item);
      var ok := Admit(key, compItem, budget);
      return if ok then Ok(()) else Err(ErrMemoryLimit);
    }

    /** Makes room for an entry and stores it, or has made room in vain. */
    method Admit(key: string, e: Entry, budget: nat) returns (ok: bool)
      requires Indexed() && key != ""
      modifies this
      ensures Indexed()
      ensures (State(), if ok then Done else MemoryLimit) == Execute(old(State()), Lru.Set(key, e), maxMemoryBytes, budget)
    {
      ok := Reserve(EntrySize(key, e), budget);
      if ok {
        StoreEntry(key, e);
      }
    }

    method StoreEntry(key: string, e: Entry)
      requires Indexed()
      modifies this
      ensures Indexed() && State() == Stored(old(State()), key, e)
    {
      StoredKeeps(State(), key, e);
      if key !in data {
        keyCount := keyCount + 1;
        currentBytes := currentBytes + EntrySize(key, e);
      } else {
        currentBytes := currentBytes + EntrySize(key, e) - EntrySize(key, data[key]);
        assert data[key := e].Keys == data.Keys;
      }
      data := data[key := e];
      TouchLRU(key);
    }

    method Get(key: string, now: int) returns (r: Result<StoredItem>)
      requires Indexed()
      modifies this
      ensures Indexed()
      ensures var (c, outcome) := Execute(old(State()), Lru.Get(key, now), maxMemoryBytes, 0);
        && State() == c
        && r == match outcome
                case EmptyKey => Err(ErrEmptyKey)
                case ItemExpired => Err(ErrExpired)
                case Hit(e) => (match Unpacked(codec, e) case None => Err(ErrCorrupt) case Some(item) => Ok(item))
                case _ => Err(ErrNotFound)
      ensures currentBytes == old(currentBytes)
      ensures var known := Lookup(old(data), key);
        if key == "" then r == Err(ErrEmptyKey) && data == old(data)
        else if known.None? then r == Err(ErrNotFound) && data == old(data)
        else if known.value.expireAt != 0 && now > known.value.expireAt then
          r == Err(ErrExpired) && forall k :: Lookup(data, k) == if k == key then None else Lookup(old(data), k)
        else
          && data == old(data) && lruList != [] && lruList[0] == key
          && r == var plain := if known.value.compressed then codec.decode(known.value.value) else Some(known.value.value);
                  if plain.None? then Err(ErrCorrupt)
                  else Ok(StoredItem(known.value.expireAt, known.value.version, plain.value))
    {
      if key == "" {
        return Err(ErrEmptyKey);
      }
      if key !in data {
        return Err(ErrNotFound);
      }
      var e := data[key];
      if Expired(e.expireAt, now) {
        DropExpired(key);
        return Err(ErrExpired);
      }
      TouchKeeps(State(), key);
      TouchLRU(key);
      match Unpacked(codec, e)
      case None => r := Err(ErrCorrupt);
      case Some(item) => r := Ok(item);
    }

    /** Removes a key whatever version is given, and records the deletion even of an absent key. */
    method Remove(key: string, version: int) returns (r: Result<()>)
      requires Valid()
      modifies this, ring, ring.syncBuffer
      ensures Valid() && r == if key == "" then Err(ErrEmptyKey) else Ok(())
      ensures State() == Execute(old(State()), Erase(key), maxMemoryBytes, 0).0
      ensures ring.Pending() ==
        if r.Ok? then Push(old(ring.Pending()), DeleteOp(key, version), ring.Capacity()) else old(ring.Pending())
      ensures forall k :: Lookup(data, k) == if k == key && key != "" then None else Lookup(old(data), k)
      ensures currentBytes ==
        old(currentBytes) - if key != "" && key in old(data) then |key| + |old(data)[key].value| + 64 else 0
    {
      if key == "" {
        return Err(ErrEmptyKey);
      }
      RemoveEntry(key);
      ring.RecordOp(DeleteOp(key, version));
      return Ok(());
    }

    method RemoveEntry(key: string)
      requires Indexed()
      modifies this
      ensures Indexed() && State() == Removed(old(State()), key)
    {
      RemovedKeeps(State(), key);
      if key in data {
        currentBytes := currentBytes - EntrySize(key, data[key]);
        WithoutKeySize(data, key);
        data := WithoutKey(data, key);
        keyCount := keyCount - 1;
        ForgetLRU(key);
      }
    }

    /** Drops an expired entry; its bytes stay on the account. */
    method DropExpired(key: string)
      requires Indexed() && key in data
      modifies this
      ensures Indexed() && State() == Dropped(old(State()), key)
    {
      DroppedKeeps(State(), key);
      WithoutKeySize(data, key);
      data := WithoutKey(data, key);
      keyCount := keyCount - 1;
      ForgetLRU(key);
    }

    /** Lists the keys that have not expired and drops the others. */
    method ListKeys(now: int) returns (keys: seq<string>)
      requires Indexed()
      modifies this
      ensures Indexed() && State() == Purged(old(State()), now)
      ensures NoDuplicates(keys) && Elements(keys) == data.Keys && currentBytes == old(currentBytes)
      ensures forall k ::
        Lookup(data, k) ==
          if k in old(data) && old(data)[k].expireAt != 0 && now > old(data)[k].expireAt then None else Lookup(old(data), k)
    {
      ghost var c := State();
      keys := [];
      var todo := data.Keys;
      ghost var gone: set<string> := {};
      DropNothing(c);
      while todo != {}
        invariant Indexed() && State() == DropAll(c, gone)
        invariant todo <= data.Keys && gone <= ExpiredKeys(c, now)
        invariant Listed(data, todo, keys, now)
      {
        var k :| k in todo;
        ListedNext(data, todo, keys, now, k);
        todo := todo - {k};
        if Expired(data[k].expireAt, now) {
          DropOneMore(c, gone, k);
          DropExpired(k);
          gone := gone + {k};
        } else {
          keys := keys + [k];
        }
      }
      assert gone == ExpiredKeys(c, now);
      forall k
        ensures Lookup(data, k) ==
          if k in old(data) && old(data)[k].expireAt != 0 && now > old(data)[k].expireAt then None else Lookup(old(data), k)
      {
        PurgedContents(c, now, k);
      }
    }

    method Clear()
      requires Valid()
      modifies this, ring`syncTail
      ensures Valid() && State() == EMPTY && ring.Pending() == []
      ensures data == map[] && lruList == [] && currentBytes == 0
    {
      data, keyCount, currentBytes := map[], 0, 0;
      lruList, lruMap := [], {};
      ring.Discard();
    }
  }
}
