/** What a lookup on the ring finds, in terms of distances: preference lists name the nodes nearest to a key,
    nearest first. */
module RingDistance {
  import opened Prelude
  import opened HashRing

  /** How far one has to go clockwise from `h` to the position `k`. */
  function Distance(h: uint32, k: uint32): nat {
    if k >= h then k - h else k + 0x1_0000_0000 - h
  }

  /** `k` is the position of `x` that is nearest to `h`. */
  ghost predicate NearestOf(r: Ring, h: uint32, x: string, k: uint32) {
    && k in r.owner && r.owner[k] == x
    && forall other :: other in r.owner && r.owner[other] == x ==> Distance(h, k) <= Distance(h, other)
  }

  /** `k` is the position of the whole ring that is nearest to `h`. */
  ghost predicate Nearest(r: Ring, h: uint32, k: uint32) {
    k in r.owner && forall other :: other in r.owner ==> Distance(h, k) <= Distance(h, other)
  }

  lemma {:induction false} PartsSorted(s: seq<uint32>, h: uint32)
    requires Sorted(s)
    ensures Sorted(From(s, h)) && Sorted(Before(s, h))
    ensures forall i :: 0 <= i < |From(s, h)| ==> h <= From(s, h)[i] <= s[|s| - 1]
    ensures forall i :: 0 <= i < |Before(s, h)| ==> Before(s, h)[i] < h && Before(s, h)[i] <= s[|s| - 1]
  {
    if s != [] {
      PartsSorted(s[..|s| - 1], h);
    }
  }

  lemma TurnByDistance(s: seq<uint32>, h: uint32)
    requires Sorted(s)
    ensures var turn := From(s, h) + Before(s, h);
      forall i, j :: 0 <= i < j < |turn| ==> Distance(h, turn[i]) <= Distance(h, turn[j])
  {
    PartsSorted(s, h);
  }

  /** Of two elements of the list of first appearances, the earlier one appears before the later one does. */
  lemma {:induction false} AppearsBefore(s: seq<string>, i: nat, j: nat) returns (p: nat)
    requires i < j < |Distinct(s)|
    ensures p < |s| && s[p] == Distinct(s)[i] && forall q :: 0 <= q <= p ==> s[q] != Distinct(s)[j]
  {
    var front := s[..|s| - 1];
    DistinctElements(front);
    if j < |Distinct(front)| {
      p := AppearsBefore(front, i, j);
      assert forall q :: 0 <= q <= p ==> s[q] == front[q];
    } else {
      var d := Distinct(front);
      assert d[i] in d && d[i] in front;
      p :| 0 <= p < |front| && front[p] == d[i];
      assert forall q :: 0 <= q <= p ==> s[q] == front[q] && front[q] in front;
    }
  }

  /** Where a position is met on the turn. */
  lemma TurnIndex(p: Placement, r: Ring, h: uint32, k: uint32) returns (i: nat)
    requires Coherent(p, r) && k in r.owner
    ensures var turn := From(r.keys, h) + Before(r.keys, h);
      i < |turn| && turn[i] == k && |Walk(r, h)| == |turn| && Walk(r, h)[i] == r.owner[k]
  {
    var turn := From(r.keys, h) + Before(r.keys, h);
    FromBeforeOwned(r.keys, h, k);
    CountMember(turn, k);
    i :| 0 <= i < |turn| && turn[i] == k;
    OwnersAt(r, turn);
  }

  /** A node that the walk meets before it meets another is nearer. */
  lemma MetBefore(p: Placement, r: Ring, h: uint32, met: nat, x: string, a: uint32, y: string, b: uint32)
    requires Coherent(p, r) && met < |Walk(r, h)| && Walk(r, h)[met] == x
    requires forall q :: 0 <= q <= met ==> Walk(r, h)[q] != y
    requires NearestOf(r, h, x, a) && NearestOf(r, h, y, b)
    ensures Distance(h, a) < Distance(h, b)
  {
    var turn := From(r.keys, h) + Before(r.keys, h);
    OwnersAt(r, turn);
    WalkOwners(p, r, h);
    TurnByDistance(r.keys, h);
    var j := TurnIndex(p, r, h, b);
    assert met < j;
    assert turn[met] in r.owner && r.owner[turn[met]] == x;
    assert x != y by {
      assert Walk(r, h)[met] != y;
    }
  }

  /** The nodes in order of first appearance are in order of distance. */
  lemma DistinctByDistance(p: Placement, r: Ring, h: uint32, i: nat, j: nat, a: uint32, b: uint32)
    requires Coherent(p, r) && i < j < |Distinct(Walk(r, h))|
    requires NearestOf(r, h, Distinct(Walk(r, h))[i], a) && NearestOf(r, h, Distinct(Walk(r, h))[j], b)
    ensures Distance(h, a) < Distance(h, b)
  {
    var met := AppearsBefore(Walk(r, h), i, j);
    MetBefore(p, r, h, met, Distinct(Walk(r, h))[i], a, Distinct(Walk(r, h))[j], b);
  }

  /** A node with a position that a list leaves out comes later on the walk, and the list is full. */
  lemma LeftOut(p: Placement, r: Ring, h: uint32, n: int, y: string, b: uint32) returns (j: nat)
    requires Coherent(p, r) && y !in Preference(r, h, n) && NearestOf(r, h, y, b)
    ensures |Preference(r, h, n)| == if n > 0 then n else 0
    ensures |Preference(r, h, n)| <= j < |Distinct(Walk(r, h))| && Distinct(Walk(r, h))[j] == y
  {
    var list, all := Preference(r, h, n), Distinct(Walk(r, h));
    DistinctElements(Walk(r, h));
    WalkOwners(p, r, h);
    assert y in Walk(r, h);
    j :| 0 <= j < |all| && all[j] == y;
    assert j >= |list|;
  }

  /** PREFERENCE BY DISTANCE.  On every coherent ring a preference list is ordered by how near its nodes come to
      the key, and a node with a position that it leaves out is farther than all of it, and left out only
      because the list is as long as asked for. */
  lemma PreferenceByDistance(p: Placement, r: Ring, h: uint32, n: int)
    requires Coherent(p, r)
    ensures var list := Preference(r, h, n);
      && NoDuplicates(list) && |list| <= (if n > 0 then n else 0)
      && (forall i, j, a, b :: 0 <= i < j < |list| && NearestOf(r, h, list[i], a) && NearestOf(r, h, list[j], b) ==>
            Distance(h, a) < Distance(h, b))
      && (forall i, y, a, b :: 0 <= i < |list| && y !in list && NearestOf(r, h, list[i], a) && NearestOf(r, h, y, b) ==>
            Distance(h, a) < Distance(h, b))
      && (forall y, b :: y !in list && NearestOf(r, h, y, b) ==> |list| == if n > 0 then n else 0)
  {
    var list, all := Preference(r, h, n), Distinct(Walk(r, h));
    PreferenceMembers(p, r, h, n);
    forall i, j, a, b | 0 <= i < j < |list| && NearestOf(r, h, list[i], a) && NearestOf(r, h, list[j], b)
      ensures Distance(h, a) < Distance(h, b)
    {
      DistinctByDistance(p, r, h, i, j, a, b);
    }
    forall i, y, a, b | 0 <= i < |list| && y !in list && NearestOf(r, h, list[i], a) && NearestOf(r, h, y, b)
      ensures Distance(h, a) < Distance(h, b)
    {
      var j := LeftOut(p, r, h, n, y, b);
      DistinctByDistance(p, r, h, i, j, a, b);
    }
    forall y, b | y !in list && NearestOf(r, h, y, b)
      ensures |list| == if n > 0 then n else 0
    {
      var j := LeftOut(p, r, h, n, y, b);
    }
  }

  /** The primary owns the nearest position of all. */
  lemma PrimaryByDistance(p: Placement, r: Ring, h: uint32)
    requires Coherent(p, r) && r.keys != []
    ensures exists k :: Nearest(r, h, k) && r.owner[k] == Primary(r, h)
  {
    var turn := From(r.keys, h) + Before(r.keys, h);
    OwnersAt(r, turn);
    WalkOwners(p, r, h);
    WalkNonEmpty(r, h);
    TurnByDistance(r.keys, h);
    forall other | other in r.owner
      ensures Distance(h, turn[0]) <= Distance(h, other)
    {
      var i := TurnIndex(p, r, h, other);
    }
    assert Nearest(r, h, turn[0]);
  }
}
