/**
  The consistent-hash ring: every member owns some virtual positions on a 32-bit circle, a key belongs
  to the member met first when walking clockwise from the key's hash, and its preference list is the
  sequence of distinct members met on that walk.

  The laws are stated for an arbitrary placement of virtual nodes; module RingStore fixes the placement.
 */
module HashRing {
  import opened Prelude

  /** Where each member's virtual nodes sit; a position may be listed more than once. */
  type Placement = string -> seq<uint32>

  /** The contents of a ring: sorted positions, the owner of each position, and the members. */
  datatype Ring = Ring(keys: seq<uint32>, owner: map<uint32, string>, nodes: set<string>) {
    /** The owner recorded for a position; a missing map entry reads as the empty name. */
    function OwnerOf(k: uint32): string {
      if k in owner then owner[k] else ""
    }
  }

  const EMPTY := Ring([], map[], {})

  // ---------------------------------------------------------------- sorted positions

  ghost predicate Sorted(s: seq<uint32>) {
    forall i, j :: 0 <= i < j < |s| ==> s[i] <= s[j]
  }

  function Count(s: seq<uint32>, k: uint32): nat {
    if s == [] then 0 else Count(s[..|s| - 1], k) + if s[|s| - 1] == k then 1 else 0
  }

  lemma {:induction false} CountMember(s: seq<uint32>, k: uint32)
    ensures Count(s, k) > 0 <==> k in s
  {
    if s != [] {
      CountMember(s[..|s| - 1], k);
      assert s == s[..|s| - 1] + [s[|s| - 1]];
    }
  }

  lemma {:induction false} CountConcat(s: seq<uint32>, t: seq<uint32>, k: uint32)
    ensures Count(s + t, k) == Count(s, k) + Count(t, k)
  {
    if t == [] {
      assert s + t == s;
    } else {
      assert (s + t)[..|s + t| - 1] == s + t[..|t| - 1];
      CountConcat(s, t[..|t| - 1], k);
    }
  }

  function Insert(s: seq<uint32>, x: uint32): seq<uint32> {
    if s == [] || s[|s| - 1] <= x then s + [x] else Insert(s[..|s| - 1], x) + [s[|s| - 1]]
  }

  /** A specified sort. */
  function Sort(s: seq<uint32>): seq<uint32> {
    if s == [] then [] else Insert(Sort(s[..|s| - 1]), s[|s| - 1])
  }

  lemma {:induction false} InsertSorted(s: seq<uint32>, x: uint32)
    requires Sorted(s)
    ensures Sorted(Insert(s, x))
    ensures Insert(s, x) != []
    ensures var r := Insert(s, x); r[|r| - 1] == if s == [] || s[|s| - 1] <= x then x else s[|s| - 1]
  {
    if s != [] && s[|s| - 1] > x {
      InsertSorted(s[..|s| - 1], x);
    }
  }

  lemma {:induction false} InsertCount(s: seq<uint32>, x: uint32, k: uint32)
    ensures Count(Insert(s, x), k) == Count(s, k) + if x == k then 1 else 0
  {
    if s == [] || s[|s| - 1] <= x {
      assert (s + [x])[..|s|] == s;
    } else {
      InsertCount(s[..|s| - 1], x, k);
      var r := Insert(s[..|s| - 1], x);
      assert (r + [s[|s| - 1]])[..|r|] == r;
    }
  }

  lemma {:induction false} SortSorted(s: seq<uint32>)
    ensures Sorted(Sort(s))
  {
    if s != [] {
      SortSorted(s[..|s| - 1]);
      InsertSorted(Sort(s[..|s| - 1]), s[|s| - 1]);
    }
  }

  lemma {:induction false} SortCount(s: seq<uint32>, k: uint32)
    ensures Count(Sort(s), k) == Count(s, k)
  {
    if s != [] {
      SortCount(s[..|s| - 1], k);
      InsertCount(Sort(s[..|s| - 1]), s[|s| - 1], k);
    }
  }

  ghost predicate SameCounts(s: seq<uint32>, t: seq<uint32>) {
    forall k :: Count(s, k) == Count(t, k)
  }

  /** A sorted sequence is determined by how often it holds each position. */
  lemma {:induction false} SortedUnique(s: seq<uint32>, t: seq<uint32>)
    requires Sorted(s) && Sorted(t) && SameCounts(s, t)
    ensures s == t
  {
    if s == [] {
    } else {
      var x := s[|s| - 1];
      CountMember(s, x);
      CountMember(t, x);
      var y := t[|t| - 1];
      CountMember(t, y);
      CountMember(s, y);
      assert x == y;
      var s', t' := s[..|s| - 1], t[..|t| - 1];
      forall k
        ensures Count(s', k) == Count(t', k)
      {
        assert Count(s, k) == Count(t, k);
      }
      SortedUnique(s', t');
    }
  }

  /** The positions of `s` at or after `h`, order kept. */
  function From(s: seq<uint32>, h: uint32): seq<uint32> {
    if s == [] then []
    else
      var front := From(s[..|s| - 1], h);
      if s[|s| - 1] < h then front else front + [s[|s| - 1]]
  }

  /** The positions of `s` before `h`, order kept. */
  function Before(s: seq<uint32>, h: uint32): seq<uint32> {
    if s == [] then []
    else
      var front := Before(s[..|s| - 1], h);
      if s[|s| - 1] < h then front + [s[|s| - 1]] else front
  }

  lemma {:induction false} WithoutSorted(s: seq<uint32>, bad: set<uint32>)
    requires Sorted(s)
    ensures Sorted(Without(s, bad))
    ensures Without(s, bad) != [] ==> Without(s, bad)[|Without(s, bad)| - 1] <= s[|s| - 1]
  {
    if s != [] {
      WithoutSorted(s[..|s| - 1], bad);
    }
  }

  lemma {:induction false} WithoutCount(s: seq<uint32>, bad: set<uint32>, k: uint32)
    ensures Count(Without(s, bad), k) == if k in bad then 0 else Count(s, k)
  {
    if s != [] {
      var front, last := s[..|s| - 1], s[|s| - 1];
      WithoutCount(front, bad, k);
      if last !in bad {
        assert Without(s, bad)[..|Without(s, bad)| - 1] == Without(front, bad);
      }
    }
  }

  lemma {:induction false} WithoutConcat(s: seq<uint32>, t: seq<uint32>, bad: set<uint32>)
    ensures Without(s + t, bad) == Without(s, bad) + Without(t, bad)
  {
    if t == [] {
      assert s + t == s;
    } else {
      assert (s + t)[..|s + t| - 1] == s + t[..|t| - 1];
      WithoutConcat(s, t[..|t| - 1], bad);
    }
  }

  lemma {:induction false} WithoutFrom(s: seq<uint32>, bad: set<uint32>, h: uint32)
    ensures From(Without(s, bad), h) == Without(From(s, h), bad)
    ensures Before(Without(s, bad), h) == Without(Before(s, h), bad)
  {
    if s != [] {
      var front, last := s[..|s| - 1], s[|s| - 1];
      WithoutFrom(front, bad, h);
      if last !in bad {
        assert Without(s, bad)[..|Without(s, bad)| - 1] == Without(front, bad);
      }
      if last < h {
        assert Before(s, h)[..|Before(s, h)| - 1] == Before(front, h);
      } else {
        assert From(s, h)[..|From(s, h)| - 1] == From(front, h);
      }
    }
  }

  /** On sorted positions, cutting at the leftmost one not below `h` separates the two parts. */
  lemma {:induction false} CutAt(s: seq<uint32>, h: uint32, i: nat)
    requires i <= |s|
    requires forall j :: 0 <= j < i ==> s[j] < h
    requires forall j :: i <= j < |s| ==> s[j] >= h
    ensures s[i..] == From(s, h) && s[..i] == Before(s, h)
  {
    if s != [] {
      var front := s[..|s| - 1];
      if i == |s| {
        CutAt(front, h, i - 1);
        WholeFront(s);
      } else {
        CutAt(front, h, i);
        FrontCut(s, i);
      }
    }
  }

  lemma WholeFront(s: seq<uint32>)
    requires s != []
    ensures var front := s[..|s| - 1];
      front[..|front|] == front && s[..|s|] == front + [s[|s| - 1]] && s[|s|..] == [] && front[|front|..] == []
  {
  }

  lemma FrontCut(s: seq<uint32>, i: nat)
    requires i < |s|
    ensures var front := s[..|s| - 1];
      front[..i] == s[..i] && s[i..] == front[i..] + [s[|s| - 1]]
  {
  }

  // ---------------------------------------------------------------- joining and leaving

  /** Every hash of the list now belongs to `name`. */
  function Claim(owner: map<uint32, string>, hashes: seq<uint32>, name: string): map<uint32, string> {
    map k | k in owner.Keys + Elements(hashes) :: if k in hashes then name else owner[k]
  }

  /** The ring after `name` joined; joining twice changes nothing. */
  function Join(p: Placement, r: Ring, name: string): Ring {
    if name in r.nodes then r
    else Ring(Sort(r.keys + p(name)), Claim(r.owner, p(name), name), r.nodes + {name})
  }

  /** The ring after `name` left; a stranger's leaving changes nothing. */
  function Leave(p: Placement, r: Ring, name: string): Ring {
    if name !in r.nodes then r
    else Ring(Without(r.keys, Elements(p(name))), Outside(r.owner, Elements(p(name))), r.nodes - {name})
  }

  ghost predicate Places(p: Placement, x: string, k: uint32) {
    Count(p(x), k) > 0
  }

  lemma JoinParts(p: Placement, r: Ring, x: string, k: uint32)
    requires x !in r.nodes
    ensures var r' := Join(p, r, x);
      && Sorted(r'.keys)
      && Count(r'.keys, k) == Count(r.keys, k) + Count(p(x), k)
      && (k in r'.owner <==> k in r.owner || Places(p, x, k))
      && (k in r'.owner ==> r'.owner[k] == if Places(p, x, k) then x else r.owner[k])
  {
    SortSorted(r.keys + p(x));
    SortCount(r.keys + p(x), k);
    CountConcat(r.keys, p(x), k);
    CountMember(p(x), k);
  }

  lemma LeaveParts(p: Placement, r: Ring, x: string, k: uint32)
    requires x in r.nodes && Sorted(r.keys)
    ensures var r' := Leave(p, r, x);
      && Sorted(r'.keys)
      && Count(r'.keys, k) == (if Places(p, x, k) then 0 else Count(r.keys, k))
      && (k in r'.owner <==> k in r.owner && !Places(p, x, k))
      && (k in r'.owner ==> r'.owner[k] == r.owner[k])
  {
    WithoutSorted(r.keys, Elements(p(x)));
    WithoutCount(r.keys, Elements(p(x)), k);
    CountMember(p(x), k);
  }

  /** Holds of every ring, hash collisions or not: positions are sorted and are exactly the owned
      ones, and every owner is a member that placed a virtual node there. */
  ghost predicate Coherent(p: Placement, r: Ring) {
    && Sorted(r.keys)
    && (forall k :: Count(r.keys, k) > 0 <==> k in r.owner)
    && (forall k :: k in r.owner ==> r.owner[k] in r.nodes && Places(p, r.owner[k], k))
  }

  /** No member of `names` places a virtual node on one of another member. */
  ghost predicate CollisionFree(p: Placement, names: set<string>) {
    forall x, y, k :: x in names && y in names && x != y && Places(p, x, k) ==> !Places(p, y, k)
  }

  /** A coherent ring that nothing was lost from: each member still owns all it placed, as many times
      as it placed it. */
  ghost predicate Faithful(p: Placement, r: Ring) {
    && Coherent(p, r)
    && (forall x, k :: x in r.nodes && Places(p, x, k) ==> k in r.owner && r.owner[k] == x)
    && (forall k :: k in r.owner ==> Count(r.keys, k) == Count(p(r.owner[k]), k))
  }

  lemma JoinCoherent(p: Placement, r: Ring, x: string)
    requires Coherent(p, r)
    ensures Coherent(p, Join(p, r, x))
  {
    if x !in r.nodes {
      SortSorted(r.keys + p(x));
      forall k
        ensures Count(Join(p, r, x).keys, k) > 0 <==> k in Join(p, r, x).owner
        ensures k in Join(p, r, x).owner ==>
          Join(p, r, x).owner[k] in Join(p, r, x).nodes && Places(p, Join(p, r, x).owner[k], k)
      {
        JoinParts(p, r, x, k);
      }
    }
  }

  lemma LeaveCoherent(p: Placement, r: Ring, x: string)
    requires Coherent(p, r)
    ensures Coherent(p, Leave(p, r, x))
  {
    if x in r.nodes {
      WithoutSorted(r.keys, Elements(p(x)));
      forall k
        ensures Count(Leave(p, r, x).keys, k) > 0 <==> k in Leave(p, r, x).owner
        ensures k in Leave(p, r, x).owner ==>
          Leave(p, r, x).owner[k] in Leave(p, r, x).nodes && Places(p, Leave(p, r, x).owner[k], k)
      {
        LeaveParts(p, r, x, k);
      }
    }
  }

  lemma JoinFaithful(p: Placement, r: Ring, x: string)
    requires Faithful(p, r) && CollisionFree(p, r.nodes + {x})
    ensures Faithful(p, Join(p, r, x))
  {
    JoinCoherent(p, r, x);
    if x !in r.nodes {
      var r' := Join(p, r, x);
      forall y, k | y in r'.nodes && Places(p, y, k)
        ensures k in r'.owner && r'.owner[k] == y
      {
        JoinParts(p, r, x, k);
      }
      forall k | k in r'.owner
        ensures Count(r'.keys, k) == Count(p(r'.owner[k]), k)
      {
        JoinParts(p, r, x, k);
        assert !(Places(p, x, k) && k in r.owner);
      }
    }
  }

  lemma LeaveFaithful(p: Placement, r: Ring, x: string)
    requires Faithful(p, r)
    ensures Faithful(p, Leave(p, r, x))
  {
    LeaveCoherent(p, r, x);
    if x in r.nodes {
      var r' := Leave(p, r, x);
      forall y, k | y in r'.nodes && Places(p, y, k)
        ensures k in r'.owner && r'.owner[k] == y
      {
        LeaveParts(p, r, x, k);
      }
      forall k | k in r'.owner
        ensures Count(r'.keys, k) == Count(p(r'.owner[k]), k)
      {
        LeaveParts(p, r, x, k);
      }
    }
  }

  /** Do two rings agree about position `k`? */
  ghost predicate AgreeAt(a: Ring, b: Ring, k: uint32) {
    && Count(a.keys, k) == Count(b.keys, k)
    && (k in a.owner <==> k in b.owner)
    && (k in a.owner ==> a.owner[k] == b.owner[k])
  }

  lemma AgreeingRings(a: Ring, b: Ring)
    requires Sorted(a.keys) && Sorted(b.keys) && a.nodes == b.nodes
    ensures a == b <==> forall k :: AgreeAt(a, b, k)
  {
    if forall k :: AgreeAt(a, b, k) {
      forall k
        ensures Count(a.keys, k) == Count(b.keys, k)
      {
        assert AgreeAt(a, b, k);
      }
      SortedUnique(a.keys, b.keys);
      forall k
        ensures k in a.owner <==> k in b.owner
        ensures k in a.owner ==> a.owner[k] == b.owner[k]
      {
        assert AgreeAt(a, b, k);
      }
      assert a.owner == b.owner;
    }
  }

  /** A faithful ring is a function of its members. */
  lemma FaithfulUnique(p: Placement, r: Ring, s: Ring)
    requires Faithful(p, r) && Faithful(p, s) && r.nodes == s.nodes
    ensures r == s
  {
    forall k
      ensures AgreeAt(r, s, k)
    {
      if k in r.owner {
        assert Places(p, r.owner[k], k);
      }
      if k in s.owner {
        assert Places(p, s.owner[k], k);
      }
    }
    AgreeingRings(r, s);
  }

  // ---------------------------------------------------------------- histories

  datatype Event = Joined(name: string) | Left(name: string)

  /** The ring after a history of membership changes, starting empty. */
  function Replay(p: Placement, history: seq<Event>): Ring {
    if history == [] then EMPTY
    else
      var r := Replay(p, history[..|history| - 1]);
      match history[|history| - 1]
      case Joined(x) => Join(p, r, x)
      case Left(x) => Leave(p, r, x)
  }

  /** Is the last event that names `x` a join? */
  ghost predicate IsMember(history: seq<Event>, x: string) {
    history != [] &&
    var last := history[|history| - 1];
    if last.name == x then last.Joined? else IsMember(history[..|history| - 1], x)
  }

  /** Do the names of a history belong to `names`? */
  ghost predicate Names(history: seq<Event>, names: set<string>) {
    forall e :: e in history ==> e.name in names
  }

  /** Every ring that can arise is coherent, whatever collides, and its members are exactly those
      whose last event is a join. */
  lemma {:induction false} ReplayCoherent(p: Placement, history: seq<Event>)
    ensures Coherent(p, Replay(p, history))
    ensures forall x :: x in Replay(p, history).nodes <==> IsMember(history, x)
  {
    if history != [] {
      var h, e := history[..|history| - 1], history[|history| - 1];
      ReplayCoherent(p, h);
      JoinCoherent(p, Replay(p, h), e.name);
      LeaveCoherent(p, Replay(p, h), e.name);
    }
  }

  lemma {:induction false} ReplayFaithful(p: Placement, history: seq<Event>, names: set<string>)
    requires Names(history, names) && CollisionFree(p, names)
    ensures Faithful(p, Replay(p, history)) && Replay(p, history).nodes <= names
  {
    if history != [] {
      var h, e := history[..|history| - 1], history[|history| - 1];
      ReplayFaithful(p, h, names);
      assert e in history;
      match e
      case Joined(x) => JoinFaithful(p, Replay(p, h), x);
      case Left(x) => LeaveFaithful(p, Replay(p, h), x);
    }
  }

  /** HISTORY INDEPENDENCE.  Two nodes that saw different histories but ended with the same members
      hold the same ring, and hence compute the same owner and preference list for every key. */
  lemma HistoryIndependence(p: Placement, names: set<string>, h1: seq<Event>, h2: seq<Event>)
    requires CollisionFree(p, names) && Names(h1, names) && Names(h2, names)
    requires forall x :: IsMember(h1, x) <==> IsMember(h2, x)
    ensures Replay(p, h1) == Replay(p, h2)
  {
    ReplayCoherent(p, h1);
    ReplayCoherent(p, h2);
    ReplayFaithful(p, h1, names);
    ReplayFaithful(p, h2, names);
    FaithfulUnique(p, Replay(p, h1), Replay(p, h2));
  }

  lemma JoinsAgreeAt(p: Placement, r: Ring, x: string, y: string, k: uint32)
    requires x !in r.nodes && y !in r.nodes && x != y
    ensures AgreeAt(Join(p, Join(p, r, x), y), Join(p, Join(p, r, y), x), k)
       <==> !(Places(p, x, k) && Places(p, y, k))
  {
    JoinsParts(p, r, x, y, k);
    JoinsParts(p, r, y, x, k);
  }

  lemma JoinsParts(p: Placement, r: Ring, x: string, y: string, k: uint32)
    requires x !in r.nodes && y !in r.nodes && x != y
    ensures var both := Join(p, Join(p, r, x), y);
      && Count(both.keys, k) == Count(r.keys, k) + Count(p(x), k) + Count(p(y), k)
      && Lookup(both.owner, k) ==
           if Places(p, y, k) then Some(y) else if Places(p, x, k) then Some(x) else Lookup(r.owner, k)
  {
    JoinParts(p, r, x, k);
    JoinParts(p, Join(p, r, x), y, k);
  }

  /** Collisions are exactly what breaks it: two newcomers may join in either order if and only if
      they share no position. */
  lemma JoinsCommute(p: Placement, r: Ring, x: string, y: string)
    requires x !in r.nodes && y !in r.nodes && x != y
    ensures Join(p, Join(p, r, x), y) == Join(p, Join(p, r, y), x)
       <==> (forall k :: Places(p, x, k) ==> !Places(p, y, k))
  {
    var a, b := Join(p, Join(p, r, x), y), Join(p, Join(p, r, y), x);
    forall k
      ensures AgreeAt(a, b, k) <==> !(Places(p, x, k) && Places(p, y, k))
    {
      JoinsAgreeAt(p, r, x, y, k);
    }
    SortSorted(Join(p, r, x).keys + p(y));
    SortSorted(Join(p, r, y).keys + p(x));
    AgreeingRings(a, b);
  }

  lemma OneThenOther(p: Placement, x: string, y: string) returns (h: seq<Event>)
    ensures Replay(p, h) == Join(p, Join(p, EMPTY, x), y)
    ensures Names(h, {x, y}) && forall z :: IsMember(h, z) <==> z == x || z == y
  {
    h := [Joined(x)] + [Joined(y)];
    assert h[..1] == [Joined(x)] && [Joined(x)][..0] == [];
    assert Replay(p, []) == EMPTY;
    assert Replay(p, [Joined(x)]) == Join(p, EMPTY, x);
    assert forall z :: IsMember([Joined(x)], z) <==> z == x;
  }

  /** Do any two histories over `names` that end with the same members give the same ring? */
  ghost predicate Independent(p: Placement, names: set<string>) {
    forall h1, h2 :: SameMembers(h1, h2, names) ==> Replay(p, h1) == Replay(p, h2)
  }

  ghost predicate SameMembers(h1: seq<Event>, h2: seq<Event>, names: set<string>) {
    Names(h1, names) && Names(h2, names) && forall x :: IsMember(h1, x) <==> IsMember(h2, x)
  }

  /** EXACTLY WHEN THE RING IS A FUNCTION OF ITS MEMBERS: if and only if no two names share a position. */
  lemma IndependenceExactly(p: Placement, names: set<string>)
    ensures Independent(p, names) <==> CollisionFree(p, names)
  {
    if CollisionFree(p, names) {
      forall h1, h2 | SameMembers(h1, h2, names)
        ensures Replay(p, h1) == Replay(p, h2)
      {
        HistoryIndependence(p, names, h1, h2);
      }
    } else {
      var x, y, k :| x in names && y in names && x != y && Places(p, x, k) && Places(p, y, k);
      Dependent(p, names, x, y, k);
    }
  }

  /** Two names that share a position join in either order, with different rings. */
  lemma Dependent(p: Placement, names: set<string>, x: string, y: string, k: uint32)
    requires x in names && y in names && x != y && Places(p, x, k) && Places(p, y, k)
    ensures !Independent(p, names)
  {
    var h1 := OneThenOther(p, x, y);
    var h2 := OneThenOther(p, y, x);
    JoinsCommute(p, EMPTY, x, y);
    assert SameMembers(h1, h2, names);
  }

  /** A join followed by a leave restores the ring if and only if the newcomer's positions were all
      free. */
  lemma JoinThenLeave(p: Placement, r: Ring, x: string)
    requires Coherent(p, r) && x !in r.nodes
    ensures Leave(p, Join(p, r, x), x) == r <==> (forall k :: Places(p, x, k) ==> k !in r.owner)
  {
    JoinCoherent(p, r, x);
    var joined := Join(p, r, x);
    var r' := Leave(p, joined, x);
    forall k
      ensures Count(r'.keys, k) == if Places(p, x, k) then 0 else Count(r.keys, k)
      ensures k in r'.owner <==> k in r.owner && !Places(p, x, k)
      ensures k in r'.owner ==> r'.owner[k] == r.owner[k]
    {
      JoinParts(p, r, x, k);
      LeaveParts(p, joined, x, k);
    }
    if forall k :: Places(p, x, k) ==> k !in r.owner {
      LeaveCoherent(p, joined, x);
      SortedUnique(r'.keys, r.keys);
    }
  }

  // ---------------------------------------------------------------- lookup

  /** The owners met along a list of positions. */
  function Owners(r: Ring, ks: seq<uint32>): seq<string> {
    if ks == [] then [] else Owners(r, ks[..|ks| - 1]) + [r.OwnerOf(ks[|ks| - 1])]
  }

  /** The owners met on one full turn, clockwise from `h`. */
  function Walk(r: Ring, h: uint32): seq<string> {
    Owners(r, From(r.keys, h) + Before(r.keys, h))
  }

  /** The node responsible for a key with hash `h`: the first one met; nobody on an empty ring. */
  function Primary(r: Ring, h: uint32): string {
    if r.keys == [] then "" else Walk(r, h)[0]
  }

  /** The first `n` distinct nodes met clockwise from `h`. */
  function Preference(r: Ring, h: uint32, n: int): seq<string> {
    Take(Distinct(Walk(r, h)), n)
  }

  lemma {:induction false} OwnersAt(r: Ring, ks: seq<uint32>)
    ensures |Owners(r, ks)| == |ks|
    ensures forall i :: 0 <= i < |ks| ==> Owners(r, ks)[i] == r.OwnerOf(ks[i])
  {
    if ks != [] {
      OwnersAt(r, ks[..|ks| - 1]);
    }
  }

  lemma OwnersAppend(r: Ring, ks: seq<uint32>, k: uint32)
    ensures Owners(r, ks + [k]) == Owners(r, ks) + [r.OwnerOf(k)]
  {
  }

  lemma DeleteAppend<T>(s: seq<T>, y: T, x: T)
    ensures Delete(s + [y], x) == if y == x then Delete(s, x) else Delete(s, x) + [y]
  {
  }

  lemma {:induction false} OwnersDelete(big: Ring, small: Ring, ks: seq<uint32>, bad: set<uint32>, x: string)
    requires forall i :: 0 <= i < |ks| ==> if ks[i] in bad then big.OwnerOf(ks[i]) == x
      else big.OwnerOf(ks[i]) != x && small.OwnerOf(ks[i]) == big.OwnerOf(ks[i])
    ensures Owners(small, Without(ks, bad)) == Delete(Owners(big, ks), x)
  {
    if ks != [] {
      var front, last := ks[..|ks| - 1], ks[|ks| - 1];
      OwnersDelete(big, small, front, bad, x);
      DeleteAppend(Owners(big, front), big.OwnerOf(last), x);
      if last !in bad {
        OwnersAppend(small, Without(front, bad), last);
      }
    }
  }

  lemma {:induction false} FromBeforeOwned(ks: seq<uint32>, h: uint32, k: uint32)
    ensures Count(From(ks, h) + Before(ks, h), k) == Count(ks, k)
  {
    if ks != [] {
      var front, last := ks[..|ks| - 1], ks[|ks| - 1];
      FromBeforeOwned(front, h, k);
      CountConcat(From(front, h), Before(front, h), k);
      CountConcat(From(ks, h), Before(ks, h), k);
      if last < h {
        assert Before(ks, h)[..|Before(ks, h)| - 1] == Before(front, h);
      } else {
        assert From(ks, h)[..|From(ks, h)| - 1] == From(front, h);
      }
    }
  }

  /** One turn meets exactly the owners of positions. */
  lemma WalkOwners(p: Placement, r: Ring, h: uint32)
    requires Coherent(p, r)
    ensures forall i :: 0 <= i < |From(r.keys, h) + Before(r.keys, h)| ==> (From(r.keys, h) + Before(r.keys, h))[i] in r.owner
    ensures forall y :: y in Walk(r, h) <==> exists k :: k in r.owner && r.owner[k] == y
  {
    var ks := From(r.keys, h) + Before(r.keys, h);
    OwnersAt(r, ks);
    forall k
      ensures k in ks <==> k in r.owner
    {
      FromBeforeOwned(r.keys, h, k);
      CountMember(ks, k);
    }
    forall y | exists k :: k in r.owner && r.owner[k] == y
      ensures y in Walk(r, h)
    {
      var k :| k in r.owner && r.owner[k] == y;
      var i :| 0 <= i < |ks| && ks[i] == k;
      assert Walk(r, h)[i] == y;
    }
  }

  /** On every ring, collisions or not, a preference list holds distinct members only, so capping the
      request at the number of members loses nothing. */
  lemma PreferenceMembers(p: Placement, r: Ring, h: uint32, n: int)
    requires Coherent(p, r)
    ensures NoDuplicates(Preference(r, h, n))
    ensures Elements(Preference(r, h, n)) <= r.nodes
    ensures |Distinct(Walk(r, h))| <= |r.nodes|
  {
    WalkOwners(p, r, h);
    var d := Distinct(Walk(r, h));
    DistinctElements(Walk(r, h));
    NoDuplicatesCardinality(d);
    assert Elements(d) <= r.nodes;
    SubsetCardinality(Elements(d), r.nodes);
  }

  /** Without collisions a preference list is as long as the request and the membership allow. */
  lemma PreferenceLength(p: Placement, r: Ring, h: uint32, n: nat)
    requires Faithful(p, r)
    requires forall x :: x in r.nodes ==> p(x) != []
    ensures |Preference(r, h, n)| == if n <= |r.nodes| then n else |r.nodes|
    ensures n >= |r.nodes| ==> Elements(Preference(r, h, n)) == r.nodes
  {
    WalkOwners(p, r, h);
    var d := Distinct(Walk(r, h));
    DistinctElements(Walk(r, h));
    NoDuplicatesCardinality(d);
    forall x | x in r.nodes
      ensures x in d
    {
      CountMember(p(x), p(x)[0]);
      assert Places(p, x, p(x)[0]);
    }
    assert Elements(d) == r.nodes;
  }

  lemma WalkNonEmpty(r: Ring, h: uint32)
    requires r.keys != []
    ensures Walk(r, h) != []
  {
  }

  lemma {:induction false} DistinctFirst<T>(s: seq<T>)
    requires s != []
    ensures Take(Distinct(s), 1) == [s[0]]
  {
    if |s| > 1 {
      DistinctFirst(s[..|s| - 1]);
    } else {
      assert s[..0] == [];
    }
  }

  /** Asking for one replica is asking for the primary. */
  lemma FirstIsPrimary(p: Placement, r: Ring, h: uint32)
    requires Coherent(p, r) && r.keys != []
    ensures Preference(r, h, 1) == [Primary(r, h)]
    ensures Primary(r, h) in r.nodes
  {
    WalkNonEmpty(r, h);
    DistinctFirst(Walk(r, h));
    assert Walk(r, h)[0] in Walk(r, h);
    WalkOwners(p, r, h);
  }

  lemma LeaveOwners(p: Placement, r: Ring, x: string, ks: seq<uint32>)
    requires Faithful(p, r) && x in r.nodes
    requires forall i :: 0 <= i < |ks| ==> ks[i] in r.owner
    ensures Owners(Leave(p, r, x), Without(ks, Elements(p(x)))) == Delete(Owners(r, ks), x)
  {
    var bad := Elements(p(x));
    forall k
      ensures k in bad <==> Places(p, x, k)
    {
      CountMember(p(x), k);
    }
    OwnersDelete(r, Leave(p, r, x), ks, bad, x);
  }

  /** If `x` owns everything it placed, the walk without it is the old walk with `x` struck out. */
  lemma LeaveWalk(p: Placement, r: Ring, x: string, h: uint32)
    requires Faithful(p, r) && x in r.nodes
    ensures Walk(Leave(p, r, x), h) == Delete(Walk(r, h), x)
  {
    var turn, bad := From(r.keys, h) + Before(r.keys, h), Elements(p(x));
    WalkOwners(p, r, h);
    LeaveOwners(p, r, x, turn);
    WithoutConcat(From(r.keys, h), Before(r.keys, h), bad);
    WithoutFrom(r.keys, bad, h);
  }

  /** MINIMAL DISRUPTION, exactly: when `x` leaves, a preference list that named `x` loses it and gains
      the next node of the walk at its end; every other list is unchanged. */
  lemma MinimalDisruption(p: Placement, r: Ring, x: string, h: uint32, n: nat)
    requires Faithful(p, r) && x in r.nodes
    ensures var old' := Preference(r, h, n);
      Preference(Leave(p, r, x), h, n) == Delete(Preference(r, h, if x in old' then n + 1 else n), x)
  {
    LeaveWalk(p, r, x, h);
    DistinctElements(Walk(r, h));
    DistinctDelete(Walk(r, h), x);
    DeleteTake(Distinct(Walk(r, h)), x, n);
  }

  /** After a departure the survivors of the old list lead the new one, in the same order, and keys
      that `x` did not own keep their owner. */
  lemma LeaveDisruption(p: Placement, r: Ring, x: string, h: uint32, n: nat)
    requires Faithful(p, r) && x in r.nodes
    ensures Delete(Preference(r, h, n), x) <= Preference(Leave(p, r, x), h, n)
    ensures Primary(r, h) != x ==> Primary(Leave(p, r, x), h) == Primary(r, h)
  {
    MinimalDisruption(p, r, x, h, n);
    var d := Distinct(Walk(r, h));
    if x in Take(d, n) {
      assert Take(d, n) <= Take(d, n + 1);
      DeletePrefix(Take(d, n), Take(d, n + 1), x);
    }
    if Primary(r, h) != x && r.keys != [] {
      LeaveWalk(p, r, x, h);
      WalkNonEmpty(r, h);
      DeleteHead(Walk(r, h), x);
      OwnersAt(Leave(p, r, x), From(Leave(p, r, x).keys, h) + Before(Leave(p, r, x).keys, h));
    }
  }

  lemma {:induction false} DeleteHead<T>(s: seq<T>, x: T)
    requires s != [] && s[0] != x
    ensures Delete(s, x) != [] && Delete(s, x)[0] == s[0]
  {
    if |s| > 1 {
      DeleteHead(s[..|s| - 1], x);
    }
  }

  lemma DeletePrefix<T>(s: seq<T>, t: seq<T>, x: T)
    requires s <= t
    ensures Delete(s, x) <= Delete(t, x)
  {
    assert t == s + t[|s|..];
    DeleteConcat(s, t[|s|..], x);
  }

  /** After an arrival that collides with nobody, striking the newcomer from a new list leaves a prefix
      of the old one, and keys the newcomer does not own keep their owner. */
  lemma JoinDisruption(p: Placement, r: Ring, x: string, h: uint32, n: nat)
    requires Faithful(p, r) && x !in r.nodes && CollisionFree(p, r.nodes + {x})
    ensures Delete(Preference(Join(p, r, x), h, n), x) <= Preference(r, h, n)
    ensures var new' := Preference(Join(p, r, x), h, n);
      Preference(r, h, n) == Delete(Preference(Join(p, r, x), h, if x in new' then n + 1 else n), x)
    ensures Primary(Join(p, r, x), h) != x ==> Primary(Join(p, r, x), h) == Primary(r, h)
  {
    JoinFaithful(p, r, x);
    JoinThenLeave(p, r, x);
    MinimalDisruption(p, Join(p, r, x), x, h, n);
    LeaveDisruption(p, Join(p, r, x), x, h, n);
  }
}
