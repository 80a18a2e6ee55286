/** The memory-limited store as a value: entries, recency list and byte account, and what every operation
    does to them. */
module Lru {
  import opened Prelude
  import opened Storage

  /** An entry as kept: the value may be compressed. */
  datatype Entry = Entry(expireAt: int, version: int, value: Bytes, compressed: bool, origSize: nat)

  /** `lru` lists the keys, most recently used first; `bytes` is the running byte account. */
  datatype Cache = Cache(data: map<string, Entry>, lru: seq<string>, bytes: int)

  const EMPTY := Cache(map[], [], 0)
  const MAX_EVICTIONS := 100

  function EntrySize(key: string, e: Entry): nat {
    |key| + |e.value| + 64
  }

  /** The recency list names exactly the stored keys, each once. */
  ghost predicate WellFormed(c: Cache) {
    NoDuplicates(c.lru) && Elements(c.lru) == c.data.Keys
  }

  /** The bytes of one key: none if it is not stored. */
  function SizeOf(key: string, data: map<string, Entry>): nat {
    if key in data then EntrySize(key, data[key]) else 0
  }

  function Total(keys: seq<string>, data: map<string, Entry>): nat {
    if keys == [] then 0
    else Total(keys[..|keys| - 1], data) + SizeOf(keys[|keys| - 1], data)
  }

  /** The bytes that the live entries occupy. */
  function LiveBytes(c: Cache): nat {
    Total(c.lru, c.data)
  }

  /** How much the byte account overstates the live entries. */
  function Leak(c: Cache): int {
    c.bytes - LiveBytes(c)
  }

  function Touched(lru: seq<string>, key: string): seq<string> {
    [key] + Delete(lru, key)
  }

  /** Removes the entry of `key`, if any, giving its bytes back. */
  function Removed(c: Cache, key: string): Cache {
    if key in c.data then
      Cache(WithoutKey(c.data, key), Delete(c.lru, key), c.bytes - EntrySize(key, c.data[key]))
    else c
  }

  /** Drops an expired entry: its bytes are not given back. */
  function Dropped(c: Cache, key: string): Cache {
    c.(data := WithoutKey(c.data, key), lru := Delete(c.lru, key))
  }

  function Oldest(c: Cache): string
    requires c.lru != []
  {
    c.lru[|c.lru| - 1]
  }

  /** Removes the least recently used entry, giving its bytes back. */
  function WithoutOldest(c: Cache): Cache
    requires c.lru != []
  {
    Cache(WithoutKey(c.data, Oldest(c)), c.lru[..|c.lru| - 1], c.bytes - SizeOf(Oldest(c), c.data))
  }

  /** Evicts the `n` least recently used entries, one after the other. */
  function Evicted(c: Cache, n: nat): (r: Cache)
    requires n <= |c.lru|
    ensures |r.lru| == |c.lru| - n
    decreases n
  {
    if n == 0 then c else WithoutOldest(Evicted(c, n - 1))
  }

  /** Would evicting `n` entries leave room? */
  predicate Enough(c: Cache, n: nat, size: nat, limit: int)
    requires n <= |c.lru|
  {
    Evicted(c, n).bytes + size <= limit
  }

  /** No number of evictions below `n` leaves room. */
  predicate NoneBelow(c: Cache, n: nat, size: nat, limit: int)
    requires n <= |c.lru|
    decreases n
  {
    n == 0 || (NoneBelow(c, n - 1, size, limit) && !Enough(c, n - 1, size, limit))
  }

  /** The least number of evictions, from `n` on, after which there is room, the budget is spent or nothing
      is left. */
  function LeastFrom(c: Cache, size: nat, limit: int, budget: nat, n: nat): (r: nat)
    requires n <= |c.lru| && n <= budget && NoneBelow(c, n, size, limit)
    ensures n <= r <= |c.lru| && r <= budget && NoneBelow(c, r, size, limit)
    ensures Enough(c, r, size, limit) || r == budget || r == |c.lru|
    decreases |c.lru| - n
  {
    if n == budget || n == |c.lru| || Enough(c, n, size, limit) then n
    else LeastFrom(c, size, limit, budget, n + 1)
  }

  function Evictions(c: Cache, size: nat, limit: int, budget: nat): (r: nat)
    ensures r <= |c.lru| && r <= budget
  {
    LeastFrom(c, size, limit, budget, 0)
  }

  /** The cache that has made room, and whether storing may go on: only an empty list, met before there is
      room and before the budget is spent, stops it.  A limit of zero means no limit. */
  function MakeRoom(c: Cache, size: nat, limit: int, budget: nat): (Cache, bool) {
    if limit <= 0 then (c, true)
    else
      var n := Evictions(c, size, limit, budget);
      (Evicted(c, n), Enough(c, n, size, limit) || n == budget)
  }

  /** The loop that makes room: evict the oldest entry until there is room, the budget is spent, or nothing
      is left. */
  function Freed(c: Cache, size: nat, limit: int, budget: nat): (Cache, bool)
    decreases budget
  {
    if c.bytes + size <= limit || budget == 0 then (c, true)
    else if c.lru == [] then (c, false)
    else Freed(WithoutOldest(c), size, limit, budget - 1)
  }

  lemma FreedDone(c: Cache, size: nat, limit: int, budget: nat)
    requires c.bytes + size <= limit || budget == 0 || c.lru == []
    ensures Freed(c, size, limit, budget) == (c, c.bytes + size <= limit || budget == 0)
  {
  }

  function Stored(c: Cache, key: string, e: Entry): Cache {
    Cache(c.data[key := e], Touched(c.lru, key),
          c.bytes + EntrySize(key, e) - if key in c.data then EntrySize(key, c.data[key]) else 0)
  }

  function ExpiredKeys(c: Cache, now: int): set<string> {
    set k | k in c.data && Expired(c.data[k].expireAt, now)
  }

  /** Drops the entries of `gone` without giving their bytes back. */
  function DropAll(c: Cache, gone: set<string>): Cache {
    c.(data := Outside(c.data, gone), lru := Without(c.lru, gone))
  }

  /** Drops every expired entry. */
  function Purged(c: Cache, now: int): Cache {
    DropAll(c, ExpiredKeys(c, now))
  }

  // ---------------------------------------------------------------- facts about the pieces

  lemma DistinctAppend(s: seq<string>, x: string)
    requires NoDuplicates(s) && x !in s
    ensures NoDuplicates(s + [x]) && NoDuplicates([x] + s)
  {
  }

  lemma {:induction false} DeleteDistinct(lru: seq<string>, key: string)
    requires NoDuplicates(lru)
    ensures NoDuplicates(Delete(lru, key))
  {
    if lru != [] {
      var front, last := lru[..|lru| - 1], lru[|lru| - 1];
      DeleteDistinct(front, key);
      DeleteElements(front, key);
      assert last !in front;
      DistinctAppend(Delete(front, key), last);
    }
  }

  lemma TouchedDistinct(lru: seq<string>, key: string)
    requires NoDuplicates(lru)
    ensures NoDuplicates(Touched(lru, key))
    ensures forall k :: k in Touched(lru, key) <==> k in lru || k == key
  {
    DeleteDistinct(lru, key);
    DeleteElements(lru, key);
    DistinctAppend(Delete(lru, key), key);
  }

  lemma {:induction false} KeepOneMore(lru: seq<string>, gone: set<string>, key: string)
    ensures Without(lru, gone + {key}) == Delete(Without(lru, gone), key)
  {
    if lru != [] {
      var front, last := lru[..|lru| - 1], lru[|lru| - 1];
      KeepOneMore(front, gone, key);
      if last !in gone {
        assert Without(lru, gone)[..|Without(lru, gone)| - 1] == Without(front, gone);
      }
    }
  }

  lemma {:induction false} KeepNothing(lru: seq<string>)
    ensures Without(lru, {}) == lru
  {
    if lru != [] {
      KeepNothing(lru[..|lru| - 1]);
    }
  }

  lemma TotalAppend(keys: seq<string>, key: string, d: map<string, Entry>)
    ensures Total(keys + [key], d) == Total(keys, d) + SizeOf(key, d)
  {
  }

  lemma {:induction false} TotalDelete(keys: seq<string>, key: string, d: map<string, Entry>)
    requires NoDuplicates(keys)
    ensures Total(keys, d) == Total(Delete(keys, key), d) + if key in keys then SizeOf(key, d) else 0
  {
    if keys != [] {
      var front, last := keys[..|keys| - 1], keys[|keys| - 1];
      assert last !in front;
      assert key in keys <==> key in front || key == last;
      TotalDelete(front, key, d);
      if last != key {
        TotalAppend(Delete(front, key), last, d);
      }
    }
  }

  lemma {:induction false} TotalFirst(key: string, keys: seq<string>, d: map<string, Entry>)
    ensures Total([key] + keys, d) == SizeOf(key, d) + Total(keys, d)
  {
    if keys == [] {
      assert [key] + keys == [key] && [key][..0] == [];
    } else {
      var all := [key] + keys;
      assert all[..|all| - 1] == [key] + keys[..|keys| - 1];
      TotalFirst(key, keys[..|keys| - 1], d);
    }
  }

  /** Changing the entry of a key that is not listed does not matter. */
  lemma TotalElsewhere(keys: seq<string>, key: string, d: map<string, Entry>, d': map<string, Entry>)
    requires key !in keys && forall k :: k != key ==> SizeOf(k, d) == SizeOf(k, d')
    ensures Total(keys, d) == Total(keys, d')
  {
  }

  // ---------------------------------------------------------------- what every operation keeps

  lemma RemovedKeeps(c: Cache, key: string)
    requires WellFormed(c)
    ensures WellFormed(Removed(c, key))
    ensures Leak(Removed(c, key)) == Leak(c)
  {
    if key in c.data {
      DeleteDistinct(c.lru, key);
      DeleteElements(c.lru, key);
      TotalDelete(c.lru, key, c.data);
      TotalElsewhere(Delete(c.lru, key), key, c.data, WithoutKey(c.data, key));
    }
  }

  lemma DroppedKeeps(c: Cache, key: string)
    requires WellFormed(c)
    ensures WellFormed(Dropped(c, key))
    ensures Leak(Dropped(c, key)) == Leak(c) + SizeOf(key, c.data)
  {
    DeleteDistinct(c.lru, key);
    DeleteElements(c.lru, key);
    TotalDelete(c.lru, key, c.data);
    TotalElsewhere(Delete(c.lru, key), key, c.data, WithoutKey(c.data, key));
  }

  lemma TouchKeeps(c: Cache, key: string)
    requires WellFormed(c) && key in c.data
    ensures WellFormed(c.(lru := Touched(c.lru, key)))
    ensures Leak(c.(lru := Touched(c.lru, key))) == Leak(c)
  {
    TouchedDistinct(c.lru, key);
    TotalDelete(c.lru, key, c.data);
    TotalFirst(key, Delete(c.lru, key), c.data);
  }

  lemma StoredKeeps(c: Cache, key: string, e: Entry)
    requires WellFormed(c)
    ensures WellFormed(Stored(c, key, e))
    ensures Leak(Stored(c, key, e)) == Leak(c)
  {
    TouchedDistinct(c.lru, key);
    DeleteElements(c.lru, key);
    var d' := c.data[key := e];
    TotalDelete(c.lru, key, c.data);
    TotalElsewhere(Delete(c.lru, key), key, c.data, d');
    TotalFirst(key, Delete(c.lru, key), d');
  }

  lemma DropOneMore(c: Cache, gone: set<string>, key: string)
    ensures Dropped(DropAll(c, gone), key) == DropAll(c, gone + {key})
  {
    KeepOneMore(c.lru, gone, key);
    assert WithoutKey(Outside(c.data, gone), key) == Outside(c.data, gone + {key});
  }

  lemma DropNothing(c: Cache)
    ensures DropAll(c, {}) == c
  {
    KeepNothing(c.lru);
    assert Outside(c.data, {}) == c.data;
  }

  lemma {:induction false} DropAllKeeps(c: Cache, gone: set<string>)
    requires WellFormed(c)
    ensures WellFormed(DropAll(c, gone)) && Leak(DropAll(c, gone)) >= Leak(c)
    decreases gone
  {
    if key :| key in gone {
      var rest := gone - {key};
      DropAllKeeps(c, rest);
      DropOneMore(c, rest, key);
      assert rest + {key} == gone;
      DroppedKeeps(DropAll(c, rest), key);
    } else {
      assert gone == {};
      DropNothing(c);
    }
  }

  // ---------------------------------------------------------------- eviction

  /** `part` holds some of the entries of `whole`, unchanged. */
  ghost predicate Within(part: map<string, Entry>, whole: map<string, Entry>) {
    forall k :: k in part ==> k in whole && part[k] == whole[k]
  }

  lemma OldestKeeps(c: Cache)
    requires WellFormed(c) && c.lru != []
    ensures WellFormed(WithoutOldest(c))
    ensures Leak(WithoutOldest(c)) == Leak(c)
  {
    var front := c.lru[..|c.lru| - 1];
    assert Oldest(c) !in front;
    assert forall k :: k in c.lru <==> k in front || k == Oldest(c);
    TotalElsewhere(front, Oldest(c), c.data, WithoutKey(c.data, Oldest(c)));
  }

  lemma {:induction false} EvictedKeeps(c: Cache, n: nat)
    requires WellFormed(c) && n <= |c.lru|
    ensures WellFormed(Evicted(c, n))
    ensures Leak(Evicted(c, n)) == Leak(c)
    decreases n
  {
    if n > 0 {
      EvictedKeeps(c, n - 1);
      OldestKeeps(Evicted(c, n - 1));
    }
  }

  /** The bytes of the `n` least recently used entries. */
  function TailBytes(c: Cache, n: nat): nat
    requires n <= |c.lru|
    decreases n
  {
    if n == 0 then 0 else TailBytes(c, n - 1) + SizeOf(c.lru[|c.lru| - n], c.data)
  }

  lemma WithoutOldestParts(c: Cache)
    requires WellFormed(c) && c.lru != []
    ensures Oldest(c) in c.data && WellFormed(WithoutOldest(c))
    ensures Within(WithoutOldest(c).data, c.data)
  {
    OldestKeeps(c);
    assert Oldest(c) in Elements(c.lru);
  }

  lemma WithinThrough(part: map<string, Entry>, whole: map<string, Entry>, all: map<string, Entry>)
    requires Within(part, whole) && Within(whole, all)
    ensures Within(part, all)
  {
  }

  /** `e` is `c` without the `n` least recently used entries. */
  ghost predicate TailGone(c: Cache, e: Cache, n: nat)
    requires n <= |c.lru|
  {
    && WellFormed(e) && e.lru == c.lru[..|c.lru| - n] && Within(e.data, c.data)
    && e.bytes == c.bytes - TailBytes(c, n)
  }

  lemma OneMoreGone(c: Cache, before: Cache, n: nat)
    requires 0 < n <= |c.lru| && TailGone(c, before, n - 1)
    ensures TailGone(c, WithoutOldest(before), n)
  {
    WithoutOldestParts(before);
    WithinThrough(WithoutOldest(before).data, before.data, c.data);
    assert Oldest(before) == c.lru[|c.lru| - n];
  }

  lemma {:induction false} EvictedGone(c: Cache, n: nat)
    requires WellFormed(c) && n <= |c.lru|
    ensures TailGone(c, Evicted(c, n), n)
    decreases n
  {
    if n == 0 {
      assert c.lru[..|c.lru|] == c.lru;
    } else {
      EvictedGone(c, n - 1);
      OneMoreGone(c, Evicted(c, n - 1), n);
    }
  }

  /** Evicting takes the tail of the list and nothing else. */
  lemma EvictedTail(c: Cache, n: nat)
    requires WellFormed(c) && n <= |c.lru|
    ensures Evicted(c, n).lru == c.lru[..|c.lru| - n]
    ensures Within(Evicted(c, n).data, c.data)
    ensures Evicted(c, n).bytes == c.bytes - TailBytes(c, n)
  {
    EvictedGone(c, n);
  }

  lemma {:induction false} NoneBelowAt(c: Cache, n: nat, m: nat, size: nat, limit: int)
    requires m < n <= |c.lru| && NoneBelow(c, n, size, limit)
    ensures !Enough(c, m, size, limit) && NoneBelow(c, m, size, limit)
    decreases n
  {
    if m < n - 1 {
      NoneBelowAt(c, n - 1, m, size, limit);
    }
  }

  /** A number of evictions that is needed and suffices is the least one. */
  lemma {:induction false} LeastUnique(c: Cache, size: nat, limit: int, budget: nat, n: nat, r: nat)
    requires n <= r <= |c.lru| && r <= budget
    requires NoneBelow(c, n, size, limit) && NoneBelow(c, r, size, limit)
    requires Enough(c, r, size, limit) || r == budget || r == |c.lru|
    ensures LeastFrom(c, size, limit, budget, n) == r
    decreases r - n
  {
    if n < r {
      NoneBelowAt(c, r, n, size, limit);
      LeastUnique(c, size, limit, budget, n + 1, r);
    }
  }

  /** Evicting one by one, as long as it is needed, evicts the least number that is needed. */
  lemma FreedIsExact(c: Cache, size: nat, limit: int, budget: nat, n: nat)
    requires n <= |c.lru| && n <= budget && NoneBelow(c, n, size, limit)
    ensures var r := LeastFrom(c, size, limit, budget, n);
      Freed(Evicted(c, n), size, limit, budget - n) == (Evicted(c, r), Enough(c, r, size, limit) || r == budget)
  {
    FreedTo(c, size, limit, budget, n, LeastFrom(c, size, limit, budget, n));
  }

  lemma FreedTo(c: Cache, size: nat, limit: int, budget: nat, n: nat, r: nat)
    requires n <= r <= |c.lru| && r <= budget && NoneBelow(c, r, size, limit)
    requires Enough(c, r, size, limit) || r == budget || r == |c.lru|
    ensures Freed(Evicted(c, n), size, limit, budget - n) == (Evicted(c, r), Enough(c, r, size, limit) || r == budget)
  {
    FreedDone(Evicted(c, r), size, limit, budget - r);
    FreedOn(c, size, limit, budget - r, n, r);
  }

  lemma {:induction false} FreedOn(c: Cache, size: nat, limit: int, left: nat, n: nat, r: nat)
    requires n <= r <= |c.lru| && NoneBelow(c, r, size, limit)
    ensures Freed(Evicted(c, n), size, limit, left + (r - n)) == Freed(Evicted(c, r), size, limit, left)
    decreases r - n
  {
    if n < r {
      var more := left + (r - (n + 1));
      FreedOn(c, size, limit, left, n + 1, r);
      FreedOnce(c, size, limit, more, n, r);
      assert left + (r - n) == more + 1;
    }
  }

  lemma FreedOnce(c: Cache, size: nat, limit: int, left: nat, n: nat, r: nat)
    requires n < r <= |c.lru| && NoneBelow(c, r, size, limit)
    ensures Freed(Evicted(c, n), size, limit, left + 1) == Freed(Evicted(c, n + 1), size, limit, left)
  {
    NoneBelowAt(c, r, n, size, limit);
  }

  /** EVICTION IS EXACT.  Exactly the tail of the recency list goes, nothing else changes, and the account
      still says what it said about the rest; one eviction fewer would not have made room; and either there
      is room now, or the budget is spent, or nothing is left, in which case alone storing fails. */
  lemma EvictionExact(c: Cache, size: nat, limit: int, budget: nat)
    requires WellFormed(c) && limit > 0
    ensures var n := Evictions(c, size, limit, budget);
      var (c', ok) := MakeRoom(c, size, limit, budget);
      && WellFormed(c') && Leak(c') == Leak(c)
      && c'.lru == c.lru[..|c.lru| - n] && Within(c'.data, c.data)
      && (forall m: nat :: m < n ==> c.bytes - TailBytes(c, m) + size > limit)
      && (ok <==> c'.bytes + size <= limit || n == budget)
      && (!ok ==> c'.lru == [])
  {
    var n := Evictions(c, size, limit, budget);
    EvictedKeeps(c, n);
    EvictedTail(c, n);
    forall m: nat | m < n
      ensures c.bytes - TailBytes(c, m) + size > limit
    {
      NoneBelowAt(c, n, m, size, limit);
      EvictedTail(c, m);
    }
  }

  // ---------------------------------------------------------------- what is stored

  /** The keys that making room for `size` bytes evicts: the last ones of the list. */
  function Victims(c: Cache, size: nat, limit: int, budget: nat): set<string> {
    if limit <= 0 then {} else Elements(c.lru[|c.lru| - Evictions(c, size, limit, budget)..])
  }

  lemma RoomContents(c: Cache, size: nat, limit: int, budget: nat, key: string)
    requires WellFormed(c)
    ensures var c1 := MakeRoom(c, size, limit, budget).0;
      && WellFormed(c1)
      && Lookup(c1.data, key) == if key in Victims(c, size, limit, budget) then None else Lookup(c.data, key)
  {
    if limit > 0 {
      var n := Evictions(c, size, limit, budget);
      EvictionExact(c, size, limit, budget);
      var c1 := MakeRoom(c, size, limit, budget).0;
      SplitKeys(c.lru, |c.lru| - n, key);
      assert key in c1.data <==> key in Elements(c1.lru);
      assert key in c.data <==> key in Elements(c.lru);
    }
  }

  lemma SplitKeys(lru: seq<string>, n: nat, key: string)
    requires NoDuplicates(lru) && n <= |lru|
    ensures key in lru <==> key in lru[..n] || key in lru[n..]
    ensures !(key in lru[..n] && key in lru[n..])
  {
    assert lru == lru[..n] + lru[n..];
  }

  /** When storing succeeds: there is no limit, or the budget covers the whole list, or evicting all of it
      makes room. */
  predicate Fits(c: Cache, size: nat, limit: int, budget: nat) {
    limit <= 0 || |c.lru| >= budget || c.bytes - TailBytes(c, |c.lru|) + size <= limit
  }

  /** WHAT A SET STORES.  Unless it fails for want of room, the key holds just the new entry and heads the list,
      and every other key keeps its entry or falls victim to the eviction; without a need for room nobody
      does, and the account grows by what the new entry takes more than the old one. */
  lemma SetMeans(c: Cache, key: string, e: Entry, limit: int, budget: nat, other: string)
    requires WellFormed(c) && key != ""
    ensures var (c', outcome) := Execute(c, Set(key, e), limit, budget);
      var size := |key| + |e.value| + 64;
      && outcome == (if Fits(c, size, limit, budget) then Done else MemoryLimit)
      && (outcome == Done ==> Lookup(c'.data, key) == Some(e) && c'.lru != [] && c'.lru[0] == key)
      && (other != key || outcome != Done ==>
            Lookup(c'.data, other) == if other in Victims(c, size, limit, budget) then None else Lookup(c.data, other))
      && (limit <= 0 || c.bytes + size <= limit ==>
            && Victims(c, size, limit, budget) == {}
            && c'.bytes == c.bytes + size - if key in c.data then |key| + |c.data[key].value| + 64 else 0)
  {
    var size := |key| + |e.value| + 64;
    var (c1, ok) := MakeRoom(c, size, limit, budget);
    assert EntrySize(key, e) == size;
    RoomContents(c, size, limit, budget, other);
    RoomMade(c, size, limit, budget);
    StoredMeans(c1, key, e, other);
  }

  lemma StoredMeans(c: Cache, key: string, e: Entry, other: string)
    ensures var c' := Stored(c, key, e);
      && Lookup(c'.data, key) == Some(e) && c'.lru != [] && c'.lru[0] == key
      && (other != key ==> Lookup(c'.data, other) == Lookup(c.data, other))
      && c'.bytes == c.bytes + (|key| + |e.value| + 64) - if key in c.data then |key| + |c.data[key].value| + 64 else 0
  {
  }

  lemma RoomMade(c: Cache, size: nat, limit: int, budget: nat)
    requires WellFormed(c)
    ensures MakeRoom(c, size, limit, budget).1 <==> Fits(c, size, limit, budget)
    ensures limit <= 0 || c.bytes + size <= limit ==>
      MakeRoom(c, size, limit, budget) == (c, true) && Victims(c, size, limit, budget) == {}
  {
    if limit > 0 {
      RoomExactly(c, size, limit, budget);
      if c.bytes + size <= limit {
        assert Enough(c, 0, size, limit);
        assert c.lru[|c.lru|..] == [];
      }
    }
  }

  /** Dropping every expired entry, key by key. */
  lemma PurgedContents(c: Cache, now: int, key: string)
    ensures Lookup(Purged(c, now).data, key) ==
      if key in c.data && c.data[key].expireAt != 0 && now > c.data[key].expireAt then None else Lookup(c.data, key)
    ensures Purged(c, now).bytes == c.bytes
  {
  }

  // ---------------------------------------------------------------- whole runs

  /** The entry of a Set is the one that is kept, after compression. */
  datatype Command = Set(key: string, entry: Entry) | Get(key: string, now: int) | Erase(key: string) | Keys(now: int) | Clear

  datatype Outcome = EmptyKey | MemoryLimit | NotFound | ItemExpired | Hit(entry: Entry) | Done

  function Execute(c: Cache, cmd: Command, limit: int, budget: nat): (Cache, Outcome) {
    match cmd
    case Set(key, e) =>
      if key == "" then (c, EmptyKey)
      else
        var (c1, ok) := MakeRoom(c, EntrySize(key, e), limit, budget);
        if ok then (Stored(c1, key, e), Done) else (c1, MemoryLimit)
    case Get(key, now) =>
      if key == "" then (c, EmptyKey)
      else if key !in c.data then (c, NotFound)
      else if Expired(c.data[key].expireAt, now) then (Dropped(c, key), ItemExpired)
      else (c.(lru := Touched(c.lru, key)), Hit(c.data[key]))
    case Erase(key) =>
      if key == "" then (c, EmptyKey) else (Removed(c, key), Done)
    case Keys(now) => (Purged(c, now), Done)
    case Clear => (EMPTY, Done)
  }

  function After(cmds: seq<Command>, limit: int, budget: nat): Cache {
    if cmds == [] then EMPTY
    else Execute(After(cmds[..|cmds| - 1], limit, budget), cmds[|cmds| - 1], limit, budget).0
  }

  /** When each key was last touched: by storing it or by finding it. */
  function LastTouch(cmds: seq<Command>, limit: int, budget: nat): map<string, nat> {
    if cmds == [] then map[]
    else
      var front, last := cmds[..|cmds| - 1], cmds[|cmds| - 1];
      var touches := LastTouch(front, limit, budget);
      var outcome := Execute(After(front, limit, budget), last, limit, budget).1;
      if (last.Set? && outcome.Done?) || (last.Get? && outcome.Hit?) then touches[last.key := |cmds|] else touches
  }

  /** The list runs from the most to the least recent touch. */
  ghost predicate Ordered(lru: seq<string>, touches: map<string, nat>) {
    && (forall i :: 0 <= i < |lru| ==> lru[i] in touches)
    && (forall i, j :: 0 <= i < j < |lru| ==> touches[lru[i]] > touches[lru[j]])
  }

  lemma OrderedAppend(s: seq<string>, x: string, touches: map<string, nat>)
    requires Ordered(s, touches) && x in touches && forall k :: k in s ==> touches[k] > touches[x]
    ensures Ordered(s + [x], touches)
  {
  }

  lemma {:induction false} DeleteOrdered(lru: seq<string>, key: string, touches: map<string, nat>)
    requires Ordered(lru, touches)
    ensures Ordered(Delete(lru, key), touches)
  {
    if lru != [] {
      var front, last := lru[..|lru| - 1], lru[|lru| - 1];
      DeleteOrdered(front, key, touches);
      DeleteElements(front, key);
      if last != key {
        OrderedAppend(Delete(front, key), last, touches);
      }
    }
  }

  lemma {:induction false} KeepOrdered(lru: seq<string>, gone: set<string>, touches: map<string, nat>)
    requires Ordered(lru, touches)
    ensures Ordered(Without(lru, gone), touches)
    ensures forall k :: k in Without(lru, gone) ==> k in lru
  {
    if lru != [] {
      var front, last := lru[..|lru| - 1], lru[|lru| - 1];
      KeepOrdered(front, gone, touches);
      if last !in gone {
        OrderedAppend(Without(front, gone), last, touches);
      }
    }
  }

  lemma TouchedOrdered(lru: seq<string>, key: string, touches: map<string, nat>, now: nat)
    requires Ordered(lru, touches) && forall k :: k in touches ==> touches[k] < now
    ensures Ordered(Touched(lru, key), touches[key := now])
  {
    var rest, touches' := Delete(lru, key), touches[key := now];
    DeleteOrdered(lru, key, touches);
    DeleteElements(lru, key);
    assert forall i :: 0 <= i < |rest| ==> rest[i] in rest;
    assert Ordered(rest, touches');
  }

  lemma MakeRoomKeeps(c: Cache, size: nat, limit: int, budget: nat, touches: map<string, nat>)
    requires WellFormed(c) && Ordered(c.lru, touches)
    ensures var c' := MakeRoom(c, size, limit, budget).0;
      WellFormed(c') && Ordered(c'.lru, touches) && Leak(c') == Leak(c)
  {
    if limit > 0 {
      EvictionExact(c, size, limit, budget);
      OrderedPrefix(c.lru, |c.lru| - Evictions(c, size, limit, budget), touches);
    }
  }

  lemma OrderedPrefix(lru: seq<string>, n: nat, touches: map<string, nat>)
    requires Ordered(lru, touches) && n <= |lru|
    ensures Ordered(lru[..n], touches)
  {
  }

  ghost predicate RunInvariant(c: Cache, touches: map<string, nat>, now: nat) {
    && WellFormed(c)
    && Leak(c) >= 0
    && Ordered(c.lru, touches)
    && forall k :: k in touches ==> touches[k] <= now
  }

  lemma SetKeeps(c: Cache, key: string, e: Entry, limit: int, budget: nat, touches: map<string, nat>, now: nat)
    requires RunInvariant(c, touches, now) && key != ""
    ensures var (c', outcome) := Execute(c, Set(key, e), limit, budget);
      RunInvariant(c', if outcome.Done? then touches[key := now + 1] else touches, now + 1)
  {
    MakeRoomKeeps(c, EntrySize(key, e), limit, budget, touches);
    var c1 := MakeRoom(c, EntrySize(key, e), limit, budget).0;
    StoredKeeps(c1, key, e);
    TouchedOrdered(c1.lru, key, touches, now + 1);
  }

  lemma GetKeeps(c: Cache, key: string, time: int, limit: int, budget: nat, touches: map<string, nat>, now: nat)
    requires RunInvariant(c, touches, now)
    ensures var (c', outcome) := Execute(c, Get(key, time), limit, budget);
      RunInvariant(c', if outcome.Hit? then touches[key := now + 1] else touches, now + 1)
  {
    if key in c.data {
      DroppedKeeps(c, key);
      DeleteOrdered(c.lru, key, touches);
      TouchKeeps(c, key);
      TouchedOrdered(c.lru, key, touches, now + 1);
    }
  }

  /** WHAT EVERY RUN KEEPS.  After any commands: the recency list names exactly the stored keys, each once,
      from the most to the least recently touched, and the live entries never occupy more bytes than the
      account says. */
  lemma {:induction false} RunKeeps(cmds: seq<Command>, limit: int, budget: nat)
    ensures RunInvariant(After(cmds, limit, budget), LastTouch(cmds, limit, budget), |cmds|)
  {
    if cmds != [] {
      var front, last := cmds[..|cmds| - 1], cmds[|cmds| - 1];
      RunKeeps(front, limit, budget);
      var c, touches := After(front, limit, budget), LastTouch(front, limit, budget);
      match last
      case Set(key, e) =>
        if key != "" {
          SetKeeps(c, key, e, limit, budget, touches, |front|);
        }
      case Get(key, now) =>
        GetKeeps(c, key, now, limit, budget, touches, |front|);
      case _ =>
        OtherKeeps(c, last, limit, budget, touches, |front|);
    }
  }

  lemma OtherKeeps(c: Cache, cmd: Command, limit: int, budget: nat, touches: map<string, nat>, now: nat)
    requires RunInvariant(c, touches, now) && !cmd.Set? && !cmd.Get?
    ensures RunInvariant(Execute(c, cmd, limit, budget).0, touches, now + 1)
  {
    match cmd
    case Erase(key) =>
      RemovedKeeps(c, key);
      DeleteOrdered(c.lru, key, touches);
    case Keys(time) =>
      DropAllKeeps(c, ExpiredKeys(c, time));
      KeepOrdered(c.lru, ExpiredKeys(c, time), touches);
    case Clear =>
  }

  /** A successful Set leaves the account within the limit unless the whole eviction budget was spent, and
      it fails exactly when evicting everything, within the budget, would still leave no room. */
  lemma SetWithinLimit(c: Cache, key: string, e: Entry, limit: int, budget: nat)
    requires WellFormed(c) && limit > 0 && key != ""
    ensures var (c', outcome) := Execute(c, Set(key, e), limit, budget);
      var size := EntrySize(key, e);
      && (outcome.Done? ==> c'.bytes <= limit || Evictions(c, size, limit, budget) == budget)
      && (outcome.MemoryLimit? <==> |c.lru| < budget && c.bytes - TailBytes(c, |c.lru|) + size > limit)
  {
    RoomExactly(c, EntrySize(key, e), limit, budget);
  }

  /** No room is made exactly when evicting everything, within the budget, would not make any. */
  lemma RoomExactly(c: Cache, size: nat, limit: int, budget: nat)
    requires WellFormed(c) && limit > 0
    ensures MakeRoom(c, size, limit, budget).1 <==>
      !(|c.lru| < budget && c.bytes - TailBytes(c, |c.lru|) + size > limit)
  {
    EvictedTail(c, |c.lru|);
    if |c.lru| < budget && !Enough(c, |c.lru|, size, limit) {
      NoneBelowAll(c, |c.lru|, size, limit);
      LeastUnique(c, size, limit, budget, 0, |c.lru|);
    }
  }

  /** If evicting `n` entries is not enough, evicting fewer is not enough either. */
  lemma {:induction false} NoneBelowAll(c: Cache, n: nat, size: nat, limit: int)
    requires n <= |c.lru| && !Enough(c, n, size, limit)
    ensures NoneBelow(c, n, size, limit)
    decreases n
  {
    if n > 0 {
      NoneBelowAll(c, n - 1, size, limit);
    }
  }

  /** Does this command drop an expired entry, whose bytes stay on the account? */
  predicate Drops(c: Cache, cmd: Command) {
    match cmd
    case Get(key, now) => key != "" && key in c.data && Expired(c.data[key].expireAt, now)
    case Keys(now) => ExpiredKeys(c, now) != {}
    case _ => false
  }

  /** Since the last Clear no command dropped an expired entry. */
  predicate Clean(cmds: seq<Command>, limit: int, budget: nat) {
    cmds == [] ||
    var front, last := cmds[..|cmds| - 1], cmds[|cmds| - 1];
    last.Clear? || (Clean(front, limit, budget) && !Drops(After(front, limit, budget), last))
  }

  lemma {:induction false} DropAllLeaks(c: Cache, gone: set<string>)
    requires WellFormed(c) && gone <= c.data.Keys && gone != {}
    ensures Leak(DropAll(c, gone)) > Leak(c)
  {
    var key :| key in gone;
    var rest := gone - {key};
    DropAllKeeps(c, rest);
    DropOneMore(c, rest, key);
    assert rest + {key} == gone;
    DroppedKeeps(DropAll(c, rest), key);
  }

  /** How one command moves the leak. */
  lemma LeakStep(c: Cache, cmd: Command, limit: int, budget: nat)
    requires WellFormed(c)
    ensures var leak := Leak(Execute(c, cmd, limit, budget).0);
      if cmd.Clear? then leak == 0 else if Drops(c, cmd) then leak > Leak(c) else leak == Leak(c)
  {
    match cmd
    case Set(key, e) =>
      if key != "" {
        EvictedKeeps(c, Evictions(c, EntrySize(key, e), limit, budget));
        StoredKeeps(MakeRoom(c, EntrySize(key, e), limit, budget).0, key, e);
      }
    case Get(key, _) =>
      if key in c.data {
        DroppedKeeps(c, key);
        TouchKeeps(c, key);
      }
    case Erase(key) =>
      RemovedKeeps(c, key);
    case Keys(now) =>
      if ExpiredKeys(c, now) == {} {
        DropNothing(c);
      } else {
        DropAllLeaks(c, ExpiredKeys(c, now));
      }
    case Clear =>
  }

  /** THE ACCOUNT IS EXACT if and only if nothing expired has been dropped since the last Clear: neither a
      Get met an expired entry nor a Keys did.  Otherwise it overstates the live bytes. */
  lemma {:induction false} AccountExactly(cmds: seq<Command>, limit: int, budget: nat)
    ensures Leak(After(cmds, limit, budget)) >= 0
    ensures Leak(After(cmds, limit, budget)) == 0 <==> Clean(cmds, limit, budget)
  {
    if cmds != [] {
      var front := cmds[..|cmds| - 1];
      AccountExactly(front, limit, budget);
      RunKeeps(front, limit, budget);
      LeakStep(After(front, limit, budget), cmds[|cmds| - 1], limit, budget);
    }
  }

  /** A run that leaks: an entry is stored, expires, and is dropped by a lookup; the empty store still
      accounts for it. */
  lemma LeakingRun(key: string, e: Entry, now: int)
    requires key != "" && Expired(e.expireAt, now)
    ensures var c := After([] + [Set(key, e)] + [Get(key, now)], 0, MAX_EVICTIONS);
      c.data == map[] && c.bytes == EntrySize(key, e) && Leak(c) == c.bytes > 0
  {
    var set', get := [] + [Set(key, e)], [] + [Set(key, e)] + [Get(key, now)];
    assert get[..1] == set' && set'[..0] == [];
    assert After([], 0, MAX_EVICTIONS) == EMPTY;
    var c1 := Stored(EMPTY, key, e);
    assert After(set', 0, MAX_EVICTIONS) == c1;
    assert Delete([], key) == [];
    assert c1.lru == [key];
    assert Delete([key], key) == Delete([key][..0], key);
    assert After(get, 0, MAX_EVICTIONS) == Dropped(c1, key);
  }
}
