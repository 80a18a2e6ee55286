/** Applying versioned writes: the guarded apply of a replica, and the deduplication of a batch. */
module LastWriteWins {
  import opened Prelude
  import Storage

  type Item = Storage.StoredItem

  /** A SET operation of a replication message. */
  datatype Op = Op(key: string, item: Item)

  type Store = map<string, Item>

  /** The version-guarded apply: only a strictly higher version overwrites.  The store refuses the
      empty key. */
  function Apply(s: Store, op: Op): Store {
    if op.key == "" || Outdated(s, op) then s else s[op.key := op.item]
  }

  /** The store has that version or a higher one already. */
  predicate Outdated(s: Store, op: Op) {
    op.key in s && op.item.version <= s[op.key].version
  }

  function ApplyAll(s: Store, ops: seq<Op>): Store {
    if ops == [] then s else Apply(ApplyAll(s, ops[..|ops| - 1]), ops[|ops| - 1])
  }

  /** The later of what is stored and what is offered; the stored item wins a tie. */
  function Newer(stored: Option<Item>, offered: Option<Item>): Option<Item> {
    if offered.None? then stored
    else if stored.None? || offered.value.version > stored.value.version then offered
    else stored
  }

  /** The item with the highest version that a batch holds for a key; the first of equals. */
  function Best(ops: seq<Op>, key: string): Option<Item> {
    if ops == [] then None
    else
      var front, last := Best(ops[..|ops| - 1], key), ops[|ops| - 1];
      if last.key == key then Newer(front, Some(last.item)) else front
  }

  lemma {:induction false} BestIsMaximum(ops: seq<Op>, key: string)
    ensures Best(ops, key).None? <==> forall i :: 0 <= i < |ops| ==> ops[i].key != key
    ensures Best(ops, key).Some? ==> Op(key, Best(ops, key).value) in ops
    ensures forall i :: 0 <= i < |ops| && ops[i].key == key ==>
      Best(ops, key).Some? && ops[i].item.version <= Best(ops, key).value.version
  {
    if ops != [] {
      BestIsMaximum(ops[..|ops| - 1], key);
    }
  }

  /** The operation at `i` has the highest version that `ops` holds for its key, and is the first that has it. */
  predicate FirstBest(ops: seq<Op>, i: nat) {
    && i < |ops|
    && (forall j :: 0 <= j < |ops| && ops[j].key == ops[i].key ==> ops[j].item.version <= ops[i].item.version)
    && (forall j :: 0 <= j < i && ops[j].key == ops[i].key ==> ops[j].item.version < ops[i].item.version)
  }

  lemma {:induction false} BestIsFirst(ops: seq<Op>, key: string) returns (i: nat)
    requires Best(ops, key).Some?
    ensures FirstBest(ops, i) && ops[i] == Op(key, Best(ops, key).value)
  {
    var front := ops[..|ops| - 1];
    BestIsMaximum(front, key);
    assert forall j :: 0 <= j < |front| ==> ops[j] == front[j];
    if Best(front, key) == Best(ops, key) {
      i := BestIsFirst(front, key);
    } else {
      i := |ops| - 1;
    }
  }

  /** Meaning of a batch: per key, the later of the stored item and the batch's best. */
  lemma {:induction false} ApplyAllMeaning(s: Store, ops: seq<Op>, key: string)
    ensures Lookup(ApplyAll(s, ops), key) ==
      if key == "" then Lookup(s, key) else Newer(Lookup(s, key), Best(ops, key))
  {
    if ops != [] {
      ApplyAllMeaning(s, ops[..|ops| - 1], key);
    }
  }

  lemma StoresEqual(s: Store, t: Store)
    requires forall key :: Lookup(s, key) == Lookup(t, key)
    ensures s == t
  {
    forall key
      ensures key in s <==> key in t
      ensures key in s ==> s[key] == t[key]
    {
      assert Lookup(s, key) == Lookup(t, key);
    }
  }

  lemma SameBestSameStore(s: Store, a: seq<Op>, b: seq<Op>)
    requires forall key :: key != "" ==> Best(a, key) == Best(b, key)
    ensures ApplyAll(s, a) == ApplyAll(s, b)
  {
    forall key
      ensures Lookup(ApplyAll(s, a), key) == Lookup(ApplyAll(s, b), key)
    {
      ApplyAllMeaning(s, a, key);
      ApplyAllMeaning(s, b, key);
    }
    StoresEqual(ApplyAll(s, a), ApplyAll(s, b));
  }

  // ---------------------------------------------------------------- deduplication

  /** `result` stands for the batch `ops`: one operation per key, the best one. */
  ghost predicate Represents(result: seq<Op>, ops: seq<Op>) {
    && (forall i, j :: 0 <= i < j < |result| && result[i].key != "" ==> result[i].key != result[j].key)
    && (forall i :: 0 <= i < |result| && result[i].key != "" ==> Best(ops, result[i].key) == Some(result[i].item))
    && (forall key :: key != "" && Best(ops, key).Some? ==> exists i :: 0 <= i < |result| && result[i].key == key)
  }

  /** What that means: for each key but the empty one exactly one operation, the first with the highest version. */
  lemma RepresentsMeans(result: seq<Op>, ops: seq<Op>)
    requires Represents(result, ops)
    ensures forall i :: 0 <= i < |result| && result[i].key != "" ==> exists j: nat :: FirstBest(ops, j) && ops[j] == result[i]
    ensures forall j :: 0 <= j < |ops| && ops[j].key != "" ==> exists i :: 0 <= i < |result| && result[i].key == ops[j].key
  {
    forall i | 0 <= i < |result| && result[i].key != ""
      ensures exists j: nat :: FirstBest(ops, j) && ops[j] == result[i]
    {
      var j := BestIsFirst(ops, result[i].key);
      assert ops[j] == result[i];
    }
    forall j | 0 <= j < |ops| && ops[j].key != ""
      ensures exists i :: 0 <= i < |result| && result[i].key == ops[j].key
    {
      BestIsMaximum(ops, ops[j].key);
    }
  }

  /** The operations of a batch that have a key. */
  function Keyed(ops: seq<Op>): set<Op> {
    set op | op in ops && op.key != ""
  }

  /** `keyMap` holds the best operation of `ops` for each key that occurs. */
  ghost predicate BestByKey(keyMap: map<string, Op>, ops: seq<Op>) {
    && (forall k :: k in keyMap <==> k != "" && Best(ops, k).Some?)
    && (forall k :: k in keyMap ==> keyMap[k].key == k && Best(ops, k) == Some(keyMap[k].item))
  }

  lemma OneMoreKeyless(ops: seq<Op>, i: nat)
    requires i < |ops|
    ensures Without(ops[..i + 1], Keyed(ops)) ==
      if ops[i].key == "" then Without(ops[..i], Keyed(ops)) + [ops[i]] else Without(ops[..i], Keyed(ops))
  {
    assert ops[..i + 1][..i] == ops[..i] && ops[i] in ops;
  }

  /** One more operation replaces the one of its key if its version is higher. */
  lemma BestNext(keyMap: map<string, Op>, ops: seq<Op>, i: nat)
    requires i < |ops| && BestByKey(keyMap, ops[..i])
    ensures var op := ops[i];
      BestByKey(if op.key != "" && (op.key !in keyMap || op.item.version > keyMap[op.key].item.version)
                then keyMap[op.key := op] else keyMap, ops[..i + 1])
  {
    assert ops[..i + 1][..i] == ops[..i];
  }

  /** Keeps, per key, the first operation with the highest version; operations without a key all stay.
      The survivors come out in whatever order the map is walked. */
  method FastKeyDedup(ops: seq<Op>) returns (result: seq<Op>)
    ensures Represents(result, ops) && |result| <= |ops|
    ensures var keyless := Without(ops, Keyed(ops));
      keyless <= result && forall i :: |keyless| <= i < |result| ==> result[i].key != ""
  {
    if |ops| == 0 {
      return [];
    }
    var keyless, keyMap := CollectBest(ops);
    result := AppendValues(keyless, keyMap, ops);
  }

  /** Walks the batch, keeping the best operation of each key in a map, and those without a key aside. */
  method CollectBest(ops: seq<Op>) returns (keyless: seq<Op>, keyMap: map<string, Op>)
    ensures BestByKey(keyMap, ops) && keyless == Without(ops, Keyed(ops))
    ensures forall j :: 0 <= j < |keyless| ==> keyless[j].key == ""
    ensures |keyless| + |keyMap| <= |ops|
  {
    keyless, keyMap := [], map[];
    ghost var keyed := Keyed(ops);
    for i := 0 to |ops|
      invariant BestByKey(keyMap, ops[..i]) && keyless == Without(ops[..i], keyed)
      invariant forall j :: 0 <= j < |keyless| ==> keyless[j].key == ""
      invariant |keyless| + |keyMap| <= i
    {
      var op := ops[i];
      BestNext(keyMap, ops, i);
      OneMoreKeyless(ops, i);
      if op.key != "" {
        keyMap := Offer(keyMap, op);
      } else {
        keyless := keyless + [op];
      }
    }
    assert ops[..|ops|] == ops;
  }

  method Offer(keyMap: map<string, Op>, op: Op) returns (better: map<string, Op>)
    ensures better ==
      if op.key !in keyMap || op.item.version > keyMap[op.key].item.version then keyMap[op.key := op] else keyMap
    ensures |better| <= |keyMap| + 1
  {
    better := keyMap;
    if op.key !in keyMap || op.item.version > keyMap[op.key].item.version {
      better := keyMap[op.key := op];
    }
  }

  /** Walks a map of best operations in any order, appending its values. */
  method AppendValues(keyless: seq<Op>, keyMap: map<string, Op>, ghost ops: seq<Op>) returns (result: seq<Op>)
    requires BestByKey(keyMap, ops)
    requires forall j :: 0 <= j < |keyless| ==> keyless[j].key == ""
    ensures Represents(result, ops) && |result| == |keyless| + |keyMap|
    ensures keyless <= result && forall i :: |keyless| <= i < |result| ==> result[i].key != ""
  {
    ghost var order;
    result, order := WalkValues(keyless, keyMap);
    ValuesRepresent(keyless, keyMap, order, ops);
  }

  method WalkValues(keyless: seq<Op>, keyMap: map<string, Op>) returns (result: seq<Op>, ghost order: seq<string>)
    ensures WalkedAll(order, keyMap.Keys) && result == keyless + Values(keyMap, order)
  {
    result := keyless;
    var rest := keyMap.Keys;
    order := [];
    while rest != {}
      invariant rest <= keyMap.Keys && WalkedAll(order, keyMap.Keys - rest)
      invariant result == keyless + Values(keyMap, order)
    {
      var k :| k in rest;
      WalkedMore(order, keyMap.Keys, rest, k);
      ValuesMore(keyMap, order, k);
      result := result + [keyMap[k]];
      rest, order := rest - {k}, order + [k];
    }
    assert keyMap.Keys - rest == keyMap.Keys;
  }

  /** `order` lists the keys `walked`, each once. */
  ghost predicate WalkedAll(order: seq<string>, walked: set<string>) {
    if order == [] then walked == {}
    else
      var last := order[|order| - 1];
      last in walked && WalkedAll(order[..|order| - 1], walked - {last})
  }

  function Values(keyMap: map<string, Op>, order: seq<string>): seq<Op> {
    if order == [] then []
    else
      var last := order[|order| - 1];
      Values(keyMap, order[..|order| - 1]) + if last in keyMap then [keyMap[last]] else []
  }

  lemma WalkedMore(order: seq<string>, all: set<string>, rest: set<string>, k: string)
    requires WalkedAll(order, all - rest) && k in rest && rest <= all
    ensures WalkedAll(order + [k], all - (rest - {k}))
  {
    assert (order + [k])[..|order|] == order;
    assert all - (rest - {k}) - {k} == all - rest;
  }

  lemma ValuesMore(keyMap: map<string, Op>, order: seq<string>, k: string)
    requires k in keyMap
    ensures Values(keyMap, order + [k]) == Values(keyMap, order) + [keyMap[k]]
  {
    assert (order + [k])[..|order|] == order;
  }

  lemma {:induction false} WalkedOnce(order: seq<string>, walked: set<string>)
    requires WalkedAll(order, walked)
    ensures |order| == |walked| && NoDuplicates(order) && forall k :: k in order <==> k in walked
  {
    if order != [] {
      var front, last := order[..|order| - 1], order[|order| - 1];
      WalkedOnce(front, walked - {last});
      assert order == front + [last];
    }
  }

  lemma {:induction false} ValuesAt(keyMap: map<string, Op>, order: seq<string>)
    requires forall k :: k in order ==> k in keyMap
    ensures |Values(keyMap, order)| == |order|
    ensures forall i :: 0 <= i < |order| ==> order[i] in keyMap && Values(keyMap, order)[i] == keyMap[order[i]]
  {
    if order != [] {
      var front := order[..|order| - 1];
      assert order[|order| - 1] in order && forall k :: k in front ==> k in order;
      ValuesAt(keyMap, front);
    }
  }

  lemma ValuesRepresent(keyless: seq<Op>, keyMap: map<string, Op>, order: seq<string>, ops: seq<Op>)
    requires BestByKey(keyMap, ops) && WalkedAll(order, keyMap.Keys)
    requires forall j :: 0 <= j < |keyless| ==> keyless[j].key == ""
    ensures var result := keyless + Values(keyMap, order);
      && Represents(result, ops) && |result| == |keyless| + |keyMap|
      && forall i :: |keyless| <= i < |result| ==> result[i].key != ""
  {
    WalkedOnce(order, keyMap.Keys);
    ValuesAt(keyMap, order);
    KeyedRepresents(keyless, Values(keyMap, order), keyMap, order, ops);
  }

  lemma KeyedRepresents(keyless: seq<Op>, values: seq<Op>, keyMap: map<string, Op>, order: seq<string>, ops: seq<Op>)
    requires BestByKey(keyMap, ops) && NoDuplicates(order) && forall k :: k in order <==> k in keyMap
    requires forall j :: 0 <= j < |keyless| ==> keyless[j].key == ""
    requires |values| == |order| && forall i :: 0 <= i < |order| ==> values[i] == keyMap[order[i]]
    ensures Represents(keyless + values, ops)
    ensures forall i :: |keyless| <= i < |keyless + values| ==> (keyless + values)[i].key != ""
  {
    var result, n := keyless + values, |keyless|;
    forall i | 0 <= i < |result| && result[i].key != ""
      ensures i >= n && result[i] == values[i - n] && result[i].key == order[i - n]
      ensures Best(ops, result[i].key) == Some(result[i].item)
    {
      assert i >= n;
      assert order[i - n] in order;
    }
    forall i | n <= i < |result|
      ensures result[i].key != ""
    {
      assert order[i - n] in order && result[i] == keyMap[order[i - n]];
    }
    forall key | key != "" && Best(ops, key).Some?
      ensures exists i :: 0 <= i < |result| && result[i].key == key
    {
      var j :| 0 <= j < |order| && order[j] == key;
      assert result[n + j] == values[j];
    }
  }

  lemma RepresentsBest(result: seq<Op>, ops: seq<Op>, key: string)
    requires Represents(result, ops) && key != ""
    ensures Best(result, key) == Best(ops, key)
  {
    BestIsMaximum(result, key);
    BestIsMaximum(ops, key);
    if Best(result, key).Some? {
      var i :| 0 <= i < |result| && result[i] == Op(key, Best(result, key).value);
      assert Best(ops, result[i].key) == Some(result[i].item);
    }
  }

  /** Reordering a deduplicated batch keeps what it stands for. */
  lemma ReorderedRepresents(result: seq<Op>, applied: seq<Op>, ops: seq<Op>)
    requires Represents(result, ops) && multiset(applied) == multiset(result)
    ensures Represents(applied, ops)
  {
    forall i | 0 <= i < |applied|
      ensures applied[i] in result
    {
      assert applied[i] in multiset(applied);
    }
    forall i | 0 <= i < |result|
      ensures result[i] in applied
    {
      assert result[i] in multiset(result);
    }
    forall i, j | 0 <= i < j < |applied| && applied[i].key != ""
      ensures applied[i].key != applied[j].key
    {
      if applied[i].key == applied[j].key {
        assert Best(ops, applied[i].key) == Some(applied[i].item) == Some(applied[j].item);
        TwiceInMultiset(applied, i, j);
        var a :| 0 <= a < |result| && result[a] == applied[i];
        OnceInMultiset(result, a);
        assert false;
      }
    }
    forall key | key != "" && Best(ops, key).Some?
      ensures exists i :: 0 <= i < |applied| && applied[i].key == key
    {
      var i :| 0 <= i < |result| && result[i].key == key;
      assert result[i] in applied;
    }
  }

  lemma TwiceInMultiset(s: seq<Op>, i: nat, j: nat)
    requires i < j < |s| && s[i] == s[j]
    ensures multiset(s)[s[i]] >= 2
  {
    assert s == s[..j] + [s[j]] + s[j + 1..];
    assert s[..j][i] == s[i];
  }

  lemma OnceInMultiset(s: seq<Op>, i: nat)
    requires i < |s| && forall j :: 0 <= j < |s| && j != i ==> s[j] != s[i]
    ensures multiset(s)[s[i]] == 1
  {
    assert s == s[..i] + [s[i]] + s[i + 1..];
    assert s[i] !in s[..i] && s[i] !in s[i + 1..];
  }

  /** DEDUPLICATION PRESERVES MEANING.  Applied in any order whatever, the deduplicated batch leaves
      every store as the whole batch applied in its own order would. */
  lemma DedupPreservesMeaning(s: Store, ops: seq<Op>, result: seq<Op>, applied: seq<Op>)
    requires Represents(result, ops) && multiset(applied) == multiset(result)
    ensures ApplyAll(s, applied) == ApplyAll(s, ops)
  {
    ReorderedRepresents(result, applied, ops);
    forall key | key != ""
      ensures Best(applied, key) == Best(ops, key)
    {
      RepresentsBest(applied, ops, key);
    }
    SameBestSameStore(s, applied, ops);
  }

  // ---------------------------------------------------------------- convergence

  /** Within these operations a key and a version determine the item. */
  ghost predicate VersionsDetermineItems(ops: seq<Op>) {
    forall a, b :: a in ops && b in ops && a.key == b.key && a.item.version == b.item.version ==> a == b
  }

  /** CONVERGENCE.  Replicas that start equal and see the same operations, in any order, grouping and
      with any repetition, end equal. */
  lemma Convergence(s: Store, a: seq<Op>, b: seq<Op>)
    requires VersionsDetermineItems(a)
    requires forall op :: op in a <==> op in b
    ensures ApplyAll(s, a) == ApplyAll(s, b)
  {
    forall key | key != ""
      ensures Best(a, key) == Best(b, key)
    {
      BestIsMaximum(a, key);
      BestIsMaximum(b, key);
      if Best(a, key).Some? {
        var x := Op(key, Best(a, key).value);
        assert x in b;
        var y := Op(key, Best(b, key).value);
        assert y in a;
      }
    }
    SameBestSameStore(s, a, b);
  }

  /** Grouping into messages does not matter. */
  lemma {:induction false} ApplyConcat(s: Store, a: seq<Op>, b: seq<Op>)
    ensures ApplyAll(s, a + b) == ApplyAll(ApplyAll(s, a), b)
  {
    if b == [] {
      assert a + b == a;
    } else {
      assert (a + b)[..|a + b| - 1] == a + b[..|b| - 1];
      ApplyConcat(s, a, b[..|b| - 1]);
    }
  }

  /** The premise is the right one: two operations may be applied in either order on every store if and
      only if they do not carry different items under one key and one version. */
  lemma AppliesCommute(a: Op, b: Op)
    ensures (forall s :: Apply(Apply(s, a), b) == Apply(Apply(s, b), a))
       <==> (a.key != b.key || a.key == "" || a.item.version != b.item.version || a.item == b.item)
  {
    if a.key == b.key && a.key != "" && a.item.version == b.item.version && a.item != b.item {
      var s: Store := map[];
      assert Apply(Apply(s, a), b)[a.key] == a.item;
      assert Apply(Apply(s, b), a)[a.key] == b.item;
    } else {
      forall s
        ensures Apply(Apply(s, a), b) == Apply(Apply(s, b), a)
      {
        StoresEqual(Apply(Apply(s, a), b), Apply(Apply(s, b), a));
      }
    }
  }
}
