/** The ring as it is kept in memory: a sorted slice of positions, a map of owners, a set of members. */
module RingStore {
  import opened Prelude
  import opened HashRing
  import RingDistance
  import Decimal

  type Hash = string -> uint32

  /** The virtual nodes of `name`: the hashes of its name behind each replica number. */
  function VirtualHashes(hash: Hash, replicas: nat, name: string): seq<uint32> {
    seq<uint32>(replicas, i requires 0 <= i < replicas => hash(Decimal.Itoa(i) + name))
  }

  /** Do two different names have a virtual-node label in common? */
  predicate ShareLabel(replicas: nat, x: string, y: string) {
    x != y && exists i, j :: 0 <= i < replicas && 0 <= j < replicas && Decimal.Itoa(i) + x == Decimal.Itoa(j) + y
  }

  lemma {:induction false} DigitsLength(n: nat)
    ensures |Decimal.Digits(n)| == 1 <==> n < 10
    ensures |Decimal.Digits(n)| >= 1
  {
    if n >= 10 {
      DigitsLength(n / 10);
    }
  }

  lemma SameLengthSameLabel(i: nat, x: string, j: nat, y: string)
    requires Decimal.Itoa(i) + x == Decimal.Itoa(j) + y && |Decimal.Itoa(i)| == |Decimal.Itoa(j)|
    ensures x == y
  {
    var n := |Decimal.Itoa(i)|;
    assert (Decimal.Itoa(i) + x)[n..] == x && (Decimal.Itoa(j) + y)[n..] == y;
  }

  lemma ElevenShare(name: string)
    ensures Decimal.Itoa(10) + name == Decimal.Itoa(1) + ("0" + name)
  {
    assert Decimal.Digits(1) == "1" && Decimal.Itoa(10) == "10";
  }

  /** LABELS ARE NOT UNIQUE: different names can share one if and only if there are eleven replicas or more.
      Then "x" and "0x" share "10x". */
  lemma LabelsExactly(replicas: nat)
    ensures (exists x, y :: ShareLabel(replicas, x, y)) <==> replicas >= 11
  {
    if replicas >= 11 {
      ElevenShare("");
      assert ShareLabel(replicas, "", "0" + "");
    } else {
      forall x, y
        ensures !ShareLabel(replicas, x, y)
      {
        if ShareLabel(replicas, x, y) {
          var i, j :| 0 <= i < replicas && 0 <= j < replicas && Decimal.Itoa(i) + x == Decimal.Itoa(j) + y;
          DigitsLength(i);
          DigitsLength(j);
          SameLengthSameLabel(i, x, j, y);
        }
      }
    }
  }

  /** Names that share a label collide, whatever the hash: no ring is collision-free for both. */
  lemma LabelsCollide(hash: Hash, replicas: nat, x: string, y: string)
    requires ShareLabel(replicas, x, y)
    ensures !CollisionFree(name => VirtualHashes(hash, replicas, name), {x, y})
  {
    var p := name => VirtualHashes(hash, replicas, name);
    var i, j :| 0 <= i < replicas && 0 <= j < replicas && Decimal.Itoa(i) + x == Decimal.Itoa(j) + y;
    var k := hash(Decimal.Itoa(i) + x);
    assert p(x)[i] == k && p(y)[j] == k;
    CountMember(p(x), k);
    CountMember(p(y), k);
    assert Places(p, x, k) && Places(p, y, k);
  }

  /** `k` is the hash of one of the virtual nodes of `name`: its number, followed by the name. */
  predicate Position(hash: Hash, replicas: nat, name: string, k: uint32) {
    exists i: nat :: i < replicas && hash(Decimal.Itoa(i) + name) == k
  }

  /** A node's positions are the hashes of its virtual nodes, one for each, and nothing else. */
  lemma PositionsExactly(hash: Hash, replicas: nat, name: string)
    ensures |VirtualHashes(hash, replicas, name)| == replicas
    ensures forall k :: k in VirtualHashes(hash, replicas, name) <==> Position(hash, replicas, name, k)
    ensures forall k :: Count(VirtualHashes(hash, replicas, name), k) > 0 <==> Position(hash, replicas, name, k)
  {
    var hashes := VirtualHashes(hash, replicas, name);
    forall k
      ensures k in hashes <==> Position(hash, replicas, name, k)
      ensures Count(VirtualHashes(hash, replicas, name), k) > 0 <==> Position(hash, replicas, name, k)
    {
      if i: nat :| i < replicas && hash(Decimal.Itoa(i) + name) == k {
        assert hashes[i] == k;
      }
      CountMember(hashes, k);
    }
  }

  /** EXACTLY WHEN TWO NODES COLLIDE: if and only if some of their virtual nodes have one hash. */
  lemma CollisionExactly(hash: Hash, replicas: nat, x: string, y: string)
    requires x != y
    ensures CollisionFree(name => VirtualHashes(hash, replicas, name), {x, y}) <==>
      !exists i: nat, j: nat :: i < replicas && j < replicas && hash(Decimal.Itoa(i) + x) == hash(Decimal.Itoa(j) + y)
  {
    PositionsExactly(hash, replicas, x);
    PositionsExactly(hash, replicas, y);
    if i: nat, j: nat :| i < replicas && j < replicas && hash(Decimal.Itoa(i) + x) == hash(Decimal.Itoa(j) + y) {
      var k := hash(Decimal.Itoa(i) + x);
      var p := name => VirtualHashes(hash, replicas, name);
      assert Position(hash, replicas, x, k) && Position(hash, replicas, y, k);
      assert Places(p, x, k) && Places(p, y, k);
    } else {
      forall k | Position(hash, replicas, x, k)
        ensures !Position(hash, replicas, y, k)
      {
        var i: nat :| i < replicas && hash(Decimal.Itoa(i) + x) == k;
      }
    }
  }

  /** The leftmost position that is not below the target. */
  method FastBinarySearch(arr: seq<uint32>, target: uint32) returns (left: nat)
    requires Sorted(arr)
    ensures left <= |arr|
    ensures forall j :: 0 <= j < left ==> arr[j] < target
    ensures forall j :: left <= j < |arr| ==> arr[j] >= target
  {
    left := 0;
    var right := |arr|;
    while left < right
      invariant 0 <= left <= right <= |arr|
      invariant forall j :: 0 <= j < left ==> arr[j] < target
      invariant forall j :: right <= j < |arr| ==> arr[j] >= target
    {
      var mid := left + (right - left) / 2;
      if arr[mid] < target {
        left := mid + 1;
      } else {
        right := mid;
      }
    }
  }

  class ConsistentHash {
    const hashFunc: Hash
    const replicas: nat
    var keys: seq<uint32>
    var ring: map<uint32, string>
    var nodes: set<string>

    ghost function Place(): Placement {
      name => VirtualHashes(hashFunc, replicas, name)
    }

    ghost function State(): Ring
      reads this
    {
      Ring(keys, ring, nodes)
    }

    ghost predicate Valid()
      reads this
    {
      Coherent(Place(), State())
    }

    constructor (replicas: nat, fn: Hash)
      ensures Valid() && State() == EMPTY
      ensures this.replicas == replicas && hashFunc == fn
    {
      hashFunc, this.replicas := fn, replicas;
      keys, ring, nodes := [], map[], {};
    }

    /** Gives every virtual node of `name` to it and returns their hashes. */
    method ClaimPositions(name: string) returns (hashes: seq<uint32>)
      modifies this`ring
      ensures hashes == VirtualHashes(hashFunc, replicas, name)
      ensures ring == Claim(old(ring), hashes, name)
    {
      hashes := [];
      for i := 0 to replicas
        invariant hashes == VirtualHashes(hashFunc, replicas, name)[..i]
        invariant ring == Claim(old(ring), hashes, name)
      {
        var hash := hashFunc(Decimal.Itoa(i) + name);
        ClaimNext(old(ring), hashes, hash, name);
        hashes := hashes + [hash];
        ring := ring[hash := name];
      }
    }

    method Add(name: string)
      requires Valid()
      modifies this
      ensures Valid() && State() == Join(Place(), old(State()), name)
      ensures nodes == old(nodes) + {name} && Sorted(keys) && forall k :: k in keys <==> k in ring
      ensures name in old(nodes) ==> keys == old(keys) && ring == old(ring)
      ensures name !in old(nodes) ==>
        && |keys| == |old(keys)| + replicas
        && forall k :: Lookup(ring, k) == if Position(hashFunc, replicas, name, k) then Some(name) else Lookup(old(ring), k)
    {
      JoinCoherent(Place(), State(), name);
      JoinPositions(hashFunc, replicas, State(), name);
      OwnedPositions(Place(), Join(Place(), State(), name));
      if name in nodes {
        return;
      }
      nodes := nodes + {name};
      var hashes := ClaimPositions(name);
      assert hashes == Place()(name);
      SortSorted(hashes);
      keys := MergeSorted(keys, Sort(hashes));
      MergedIsSorted(keys, old(keys), hashes);
    }

    /** Takes every virtual node of `name` off the owner map and returns the set of their hashes. */
    method ReleasePositions(name: string) returns (toRemove: set<uint32>)
      modifies this`ring
      ensures toRemove == Elements(VirtualHashes(hashFunc, replicas, name))
      ensures ring == Outside(old(ring), toRemove)
    {
      ghost var hashes := VirtualHashes(hashFunc, replicas, name);
      toRemove := {};
      for i := 0 to replicas
        invariant toRemove == Elements(hashes[..i])
        invariant ring == Outside(old(ring), toRemove)
      {
        assert hashes[..i + 1] == hashes[..i] + [hashes[i]];
        var hash := hashFunc(Decimal.Itoa(i) + name);
        ring := WithoutKey(ring, hash);
        toRemove := toRemove + {hash};
      }
      assert hashes[..replicas] == hashes;
    }

    /** Keeps the positions outside `toRemove`, moving them to the front of the slice in place. */
    method FilterKeys(toRemove: set<uint32>)
      modifies this`keys
      ensures keys == Without(old(keys), toRemove)
    {
      ghost var before := keys;
      var newLen := 0;
      for i := 0 to |keys|
        invariant newLen <= i && |keys| == |before|
        invariant keys[i..] == before[i..]
        invariant keys[..newLen] == Without(before[..i], toRemove)
      {
        assert before[..i + 1][..i] == before[..i];
        assert keys[i] == keys[i..][0];
        assert keys[i + 1..] == before[i + 1..];
        if keys[i] !in toRemove {
          keys := keys[newLen := keys[i]];
          newLen := newLen + 1;
        }
      }
      assert before[..|keys|] == before;
      keys := keys[..newLen];
    }

    method Remove(name: string)
      requires Valid()
      modifies this
      ensures Valid() && State() == Leave(Place(), old(State()), name)
      ensures nodes == old(nodes) - {name} && Sorted(keys) && forall k :: k in keys <==> k in ring
      ensures name !in old(nodes) ==> keys == old(keys) && ring == old(ring)
      ensures name in old(nodes) ==>
        forall k :: Lookup(ring, k) == if Position(hashFunc, replicas, name, k) then None else Lookup(old(ring), k)
    {
      LeaveCoherent(Place(), State(), name);
      LeavePositions(hashFunc, replicas, State(), name);
      OwnedPositions(Place(), Leave(Place(), State(), name));
      if name !in nodes {
        return;
      }
      nodes := nodes - {name};
      var toRemove := ReleasePositions(name);
      FilterKeys(toRemove);
    }

    method Get(key: string) returns (node: string)
      requires Valid()
      ensures node == Primary(State(), hashFunc(key))
      ensures keys == [] ==> node == ""
      ensures keys != [] ==> exists k :: RingDistance.Nearest(State(), hashFunc(key), k) && ring[k] == node
    {
      if keys != [] {
        RingDistance.PrimaryByDistance(Place(), State(), hashFunc(key));
      }
      if |keys| == 0 {
        return "";
      }
      var hash := hashFunc(key);
      var i := FastBinarySearch(keys, hash);
      var index := i % |keys|;
      WalkAt(State(), hash, i, 0);
      return if keys[index] in ring then ring[keys[index]] else "";
    }

    method GetN(key: string, replicationFactor: int) returns (result: seq<string>)
      requires Valid()
      ensures result == Preference(State(), hashFunc(key), replicationFactor)
    {
      ghost var r := State();
      PreferenceMembers(Place(), r, hashFunc(key), replicationFactor);
      if |keys| == 0 || replicationFactor == 0 {
        return [];
      }
      var factor := if replicationFactor > |nodes| then |nodes| else replicationFactor;
      var hash := hashFunc(key);
      var startIndex := FastBinarySearch(keys, hash);
      ghost var walk := Walk(r, hash);
      WalkAt(r, hash, startIndex, 0);

      result := [];
      var seen: set<string> := {};
      var count := 0;
      while |result| < factor && count < |keys|
        invariant count <= |keys|
        invariant result == Distinct(walk[..count])
        invariant forall x :: x in seen <==> x in result
        invariant if factor < 0 then count == 0 else |result| <= factor
      {
        var currentIdx := (startIndex + count) % |keys|;
        var virtualNodeHash := keys[currentIdx];
        var nodeID := if virtualNodeHash in ring then ring[virtualNodeHash] else "";
        WalkStep(r, hash, startIndex, count);
        if nodeID !in seen {
          result := result + [nodeID];
          seen := seen + {nodeID};
        }
        count := count + 1;
      }
      TakenSoFar(walk, count, factor);
    }

    method Members() returns (names: seq<string>)
      requires Valid()
      ensures NoDuplicates(names) && Elements(names) == nodes
    {
      names := [];
      var rest := nodes;
      while rest != {}
        invariant NoDuplicates(names) && Elements(names) + rest == nodes && Elements(names) !! rest
      {
        var name :| name in rest;
        assert name !in Elements(names);
        assert Elements(names + [name]) == Elements(names) + {name};
        names := names + [name];
        rest := rest - {name};
      }
    }
  }

  lemma JoinPositions(hash: Hash, replicas: nat, r: Ring, name: string)
    ensures var joined := Join(x => VirtualHashes(hash, replicas, x), r, name);
      name !in r.nodes ==>
      && |joined.keys| == |r.keys| + replicas
      && forall k :: Lookup(joined.owner, k) == if Position(hash, replicas, name, k) then Some(name) else Lookup(r.owner, k)
  {
    PositionsExactly(hash, replicas, name);
    SortLength(r.keys + VirtualHashes(hash, replicas, name));
  }

  lemma LeavePositions(hash: Hash, replicas: nat, r: Ring, name: string)
    ensures var left := Leave(x => VirtualHashes(hash, replicas, x), r, name);
      name in r.nodes ==>
      forall k :: Lookup(left.owner, k) == if Position(hash, replicas, name, k) then None else Lookup(r.owner, k)
  {
    PositionsExactly(hash, replicas, name);
  }

  lemma {:induction false} InsertLength(s: seq<uint32>, x: uint32)
    ensures |Insert(s, x)| == |s| + 1
  {
    if !(s == [] || s[|s| - 1] <= x) {
      InsertLength(s[..|s| - 1], x);
    }
  }

  lemma {:induction false} SortLength(s: seq<uint32>)
    ensures |Sort(s)| == |s|
  {
    if s != [] {
      SortLength(s[..|s| - 1]);
      InsertLength(Sort(s[..|s| - 1]), s[|s| - 1]);
    }
  }

  lemma OwnedPositions(p: Placement, r: Ring)
    requires Coherent(p, r)
    ensures forall k :: k in r.keys <==> k in r.owner
  {
    forall k
      ensures k in r.keys <==> k in r.owner
    {
      CountMember(r.keys, k);
    }
  }

  /** `merged` holds every position as often as `s` and `t` together. */
  ghost predicate Merged(merged: seq<uint32>, s: seq<uint32>, t: seq<uint32>) {
    forall k :: Count(merged, k) == Count(s, k) + Count(t, k)
  }

  /** Where the walk of a preference list may stop. */
  lemma TakenSoFar(walk: seq<string>, count: nat, factor: int)
    requires count <= |walk|
    requires count == |walk| || |Distinct(walk[..count])| >= factor
    requires factor >= 0 ==> |Distinct(walk[..count])| <= factor
    requires factor < 0 ==> count == 0
    ensures Distinct(walk[..count]) == Take(Distinct(walk), factor)
  {
    DistinctPrefix(walk, count);
    assert walk[..|walk|] == walk;
  }

  lemma MergedIsSorted(merged: seq<uint32>, s: seq<uint32>, t: seq<uint32>)
    requires Sorted(merged)
    requires Merged(merged, s, Sort(t))
    ensures merged == Sort(s + t)
  {
    SortSorted(s + t);
    forall k
      ensures Count(merged, k) == Count(Sort(s + t), k)
    {
      SortCount(s + t, k);
      SortCount(t, k);
      CountConcat(s, t, k);
    }
    SortedUnique(merged, Sort(s + t));
  }

  /** The node met after `count` steps of the walk sits `count` positions past the search result. */
  lemma WalkAt(r: Ring, h: uint32, start: nat, count: nat)
    requires start <= |r.keys| && count < |r.keys|
    requires forall j :: 0 <= j < start ==> r.keys[j] < h
    requires forall j :: start <= j < |r.keys| ==> r.keys[j] >= h
    ensures |Walk(r, h)| == |r.keys|
    ensures Walk(r, h)[count] == r.OwnerOf(r.keys[(start + count) % |r.keys|])
  {
    var turn := r.keys[start..] + r.keys[..start];
    CutAt(r.keys, h, start);
    assert Walk(r, h) == Owners(r, turn);
    OwnersAt(r, turn);
    Rotated(r.keys, start, count);
  }

  lemma WalkStep(r: Ring, h: uint32, start: nat, count: nat)
    requires start <= |r.keys| && count < |r.keys|
    requires forall j :: 0 <= j < start ==> r.keys[j] < h
    requires forall j :: start <= j < |r.keys| ==> r.keys[j] >= h
    ensures |Walk(r, h)| == |r.keys|
    ensures var w, x := Walk(r, h), r.OwnerOf(r.keys[(start + count) % |r.keys|]);
      Distinct(w[..count + 1]) ==
        if x in Distinct(w[..count]) then Distinct(w[..count]) else Distinct(w[..count]) + [x]
  {
    WalkAt(r, h, start, count);
    assert Walk(r, h)[..count + 1][..count] == Walk(r, h)[..count];
  }

  lemma Rotated(s: seq<uint32>, start: nat, count: nat)
    requires start <= |s| && count < |s|
    ensures (s[start..] + s[..start])[count] == s[(start + count) % |s|]
  {
    var position := start + count;
    if position < |s| {
      NoWrapAround(position, |s|);
    } else {
      WrapAround(position, |s|);
    }
  }

  lemma NoWrapAround(a: nat, n: nat)
    requires a < n
    ensures a % n == a
  {
  }

  lemma ClaimNext(owner: map<uint32, string>, hashes: seq<uint32>, hash: uint32, name: string)
    ensures Claim(owner, hashes + [hash], name) == Claim(owner, hashes, name)[hash := name]
  {
  }

  lemma WrapAround(a: nat, n: nat)
    requires 0 < n <= a < 2 * n
    ensures a % n == a - n
  {
  }

  /** The merge of two lists: the smaller head first, the second list's on a tie. */
  function MergeOf(s: seq<uint32>, t: seq<uint32>): seq<uint32>
    decreases |s| + |t|
  {
    if s == [] then t
    else if t == [] then s
    else if s[0] < t[0] then [s[0]] + MergeOf(s[1..], t)
    else [t[0]] + MergeOf(s, t[1..])
  }

  lemma CountFirst(x: uint32, s: seq<uint32>, k: uint32)
    ensures Count([x] + s, k) == Count(s, k) + if x == k then 1 else 0
  {
    CountConcat([x], s, k);
    assert [x][..0] == [];
    assert Count([x], k) == if x == k then 1 else 0;
  }

  lemma {:induction false} MergeCount(s: seq<uint32>, t: seq<uint32>, k: uint32)
    ensures Count(MergeOf(s, t), k) == Count(s, k) + Count(t, k)
    decreases |s| + |t|
  {
    if s != [] && t != [] {
      if s[0] < t[0] {
        MergeCount(s[1..], t, k);
        CountFirst(s[0], MergeOf(s[1..], t), k);
        CountFirst(s[0], s[1..], k);
        assert s == [s[0]] + s[1..];
      } else {
        MergeCount(s, t[1..], k);
        CountFirst(t[0], MergeOf(s, t[1..]), k);
        CountFirst(t[0], t[1..], k);
        assert t == [t[0]] + t[1..];
      }
    }
  }

  lemma SortedFirst(x: uint32, s: seq<uint32>)
    requires Sorted(s) && (s != [] ==> x <= s[0])
    ensures Sorted([x] + s)
  {
  }

  lemma {:induction false} MergeSortedLists(s: seq<uint32>, t: seq<uint32>)
    requires Sorted(s) && Sorted(t)
    ensures Sorted(MergeOf(s, t))
    ensures MergeOf(s, t) != [] ==> MergeOf(s, t)[0] == if t == [] || (s != [] && s[0] < t[0]) then s[0] else t[0]
    decreases |s| + |t|
  {
    if s != [] && t != [] {
      if s[0] < t[0] {
        MergeSortedLists(s[1..], t);
        SortedFirst(s[0], MergeOf(s[1..], t));
      } else {
        MergeSortedLists(s, t[1..]);
        SortedFirst(t[0], MergeOf(s, t[1..]));
      }
    }
  }

  /** Merges two sorted slices with two indices. */
  method MergeSorted(keys: seq<uint32>, hashes: seq<uint32>) returns (newKeys: seq<uint32>)
    requires Sorted(keys) && Sorted(hashes)
    ensures Sorted(newKeys)
    ensures Merged(newKeys, keys, hashes)
  {
    newKeys := MergeLoop(keys, hashes);
    MergeSortedLists(keys, hashes);
    forall k
      ensures Count(newKeys, k) == Count(keys, k) + Count(hashes, k)
    {
      MergeCount(keys, hashes, k);
    }
  }

  method MergeLoop(keys: seq<uint32>, hashes: seq<uint32>) returns (newKeys: seq<uint32>)
    ensures newKeys == MergeOf(keys, hashes)
  {
    newKeys := [];
    var i, j := 0, 0;
    while i < |keys| && j < |hashes|
      invariant i <= |keys| && j <= |hashes|
      invariant newKeys + MergeOf(keys[i..], hashes[j..]) == MergeOf(keys, hashes)
    {
      MergeNext(newKeys, keys[i..], hashes[j..]);
      if keys[i] < hashes[j] {
        newKeys := newKeys + [keys[i]];
        i := i + 1;
      } else {
        newKeys := newKeys + [hashes[j]];
        j := j + 1;
      }
    }
    MergeRest(newKeys, keys[i..], hashes[j..]);
    if i < |keys| {
      newKeys := newKeys + keys[i..];
    }
    if j < |hashes| {
      newKeys := newKeys + hashes[j..];
    }
  }

  lemma MergeRest(merged: seq<uint32>, s: seq<uint32>, t: seq<uint32>)
    requires s == [] || t == []
    ensures merged + MergeOf(s, t) == if s != [] then merged + s else if t != [] then merged + t else merged
  {
  }

  lemma MergeNext(merged: seq<uint32>, s: seq<uint32>, t: seq<uint32>)
    requires s != [] && t != []
    ensures merged + MergeOf(s, t) ==
      if s[0] < t[0] then merged + [s[0]] + MergeOf(s[1..], t) else merged + [t[0]] + MergeOf(s, t[1..])
  {
  }
}
