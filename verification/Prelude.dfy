/** Machine integers and the few facts about sequences that several components share. */
module Prelude {

  type uint32 = x: int | 0 <= x < 0x1_0000_0000

  const INT64_MIN := -0x8000_0000_0000_0000

  type int64 = x: int | INT64_MIN <= x < 0x8000_0000_0000_0000

  type uint64 = x: int | 0 <= x < 0x1_0000_0000_0000_0000

  type byte = x: int | 0 <= x < 256

  datatype Option<+T> = None | Some(value: T)

  function Lookup<K, V>(m: map<K, V>, key: K): Option<V> {
    if key in m then Some(m[key]) else None
  }

  /** The entries of all keys but one. */
  function WithoutKey<K, V>(m: map<K, V>, key: K): map<K, V> {
    map k | k in m && k != key :: m[k]
  }

  lemma WithoutKeySize<K, V>(m: map<K, V>, key: K)
    ensures |WithoutKey(m, key)| == |m| - if key in m then 1 else 0
  {
    assert WithoutKey(m, key).Keys == m.Keys - {key};
  }

  /** The entries of the keys outside `keys`. */
  function Outside<K, V>(m: map<K, V>, keys: set<K>): map<K, V> {
    map k | k in m && k !in keys :: m[k]
  }

  /** The elements of `s` outside `bad`, order kept. */
  function Without<T>(s: seq<T>, bad: set<T>): seq<T> {
    if s == [] then []
    else
      var front := Without(s[..|s| - 1], bad);
      if s[|s| - 1] in bad then front else front + [s[|s| - 1]]
  }

  lemma {:induction false} WithoutElements<T>(s: seq<T>, bad: set<T>)
    ensures forall x :: x in Without(s, bad) <==> x in s && x !in bad
  {
    if s != [] {
      WithoutElements(s[..|s| - 1], bad);
      assert s == s[..|s| - 1] + [s[|s| - 1]];
    }
  }

  /** The elements of a sequence. */
  function Elements<T>(s: seq<T>): set<T> {
    set x | x in s
  }

  ghost predicate NoDuplicates<T>(s: seq<T>) {
    forall i, j :: 0 <= i < j < |s| ==> s[i] != s[j]
  }

  /** The first `n` elements, or all of them when there are fewer; nothing for n <= 0. */
  function Take<T>(s: seq<T>, n: int): seq<T> {
    if n <= 0 then [] else if |s| <= n then s else s[..n]
  }

  /** `s` without any occurrence of `x`. */
  function Delete<T(==)>(s: seq<T>, x: T): seq<T> {
    if s == [] then []
    else
      var front := Delete(s[..|s| - 1], x);
      if s[|s| - 1] == x then front else front + [s[|s| - 1]]
  }

  /** The elements of `s` in order of first appearance. */
  function Distinct<T(==)>(s: seq<T>): seq<T> {
    if s == [] then []
    else
      var front := Distinct(s[..|s| - 1]);
      if s[|s| - 1] in front then front else front + [s[|s| - 1]]
  }

  lemma {:induction false} DistinctElements<T>(s: seq<T>)
    ensures NoDuplicates(Distinct(s))
    ensures forall x :: x in Distinct(s) <==> x in s
  {
    if s != [] {
      DistinctElements(s[..|s| - 1]);
      assert s == s[..|s| - 1] + [s[|s| - 1]];
    }
  }

  lemma {:induction false} DeleteElements<T>(s: seq<T>, x: T)
    ensures |Delete(s, x)| <= |s|
    ensures forall y :: y in Delete(s, x) <==> y in s && y != x
  {
    if s != [] {
      DeleteElements(s[..|s| - 1], x);
      assert s == s[..|s| - 1] + [s[|s| - 1]];
    }
  }

  lemma {:induction false} DeleteAbsent<T>(s: seq<T>, x: T)
    requires x !in s
    ensures Delete(s, x) == s
  {
    if s != [] {
      DeleteAbsent(s[..|s| - 1], x);
    }
  }

  lemma {:induction false} DeleteConcat<T>(s: seq<T>, t: seq<T>, x: T)
    ensures Delete(s + t, x) == Delete(s, x) + Delete(t, x)
  {
    if t == [] {
      assert s + t == s;
    } else {
      assert (s + t)[..|s + t| - 1] == s + t[..|t| - 1];
      DeleteConcat(s, t[..|t| - 1], x);
    }
  }

  /** Deleting an element and keeping first appearances commute. */
  lemma {:induction false} DistinctDelete<T>(s: seq<T>, x: T)
    ensures Distinct(Delete(s, x)) == Delete(Distinct(s), x)
  {
    if s != [] {
      var front, last := s[..|s| - 1], s[|s| - 1];
      DistinctDelete(front, x);
      DeleteElements(Distinct(front), x);
      if last in Distinct(front) {
        if last != x {
          assert Delete(s, x)[..|Delete(s, x)| - 1] == Delete(front, x);
        }
      } else {
        assert Distinct(s)[..|Distinct(s)| - 1] == Distinct(front);
        if last != x {
          assert Delete(s, x)[..|Delete(s, x)| - 1] == Delete(front, x);
        }
      }
    }
  }

  lemma {:induction false} DistinctPrefix<T>(s: seq<T>, i: nat)
    requires i <= |s|
    ensures Distinct(s[..i]) <= Distinct(s)
  {
    if i < |s| {
      assert s[..|s| - 1][..i] == s[..i];
      DistinctPrefix(s[..|s| - 1], i);
    } else {
      assert s[..i] == s;
    }
  }

  lemma {:induction false} DeleteOnce<T>(s: seq<T>, x: T)
    requires NoDuplicates(s)
    ensures |Delete(s, x)| == if x in s then |s| - 1 else |s|
  {
    if s != [] {
      var front, last := s[..|s| - 1], s[|s| - 1];
      DeleteOnce(front, x);
      assert last !in front;
      assert x in s <==> x in front || x == last;
    }
  }

  /** Deleting from a prefix of a duplicate-free list: one further element makes up for the loss. */
  lemma {:induction false} DeleteTake<T>(s: seq<T>, x: T, n: nat)
    requires NoDuplicates(s)
    ensures Delete(Take(s, if x in Take(s, n) then n + 1 else n), x) == Take(Delete(s, x), n)
  {
    if |s| <= n {
      DeleteOnce(s, x);
    } else {
      var front, last := s[..|s| - 1], s[|s| - 1];
      DeleteOnce(front, x);
      if n < |front| || x !in front {
        DeleteTake(front, x, n);
        TakeFront(s, n);
        TakeMore(Delete(front, x), last, n);
      } else {
        assert Take(s, n) == front;
      }
    }
  }

  lemma TakeFront<T>(s: seq<T>, n: nat)
    requires n < |s|
    ensures Take(s[..|s| - 1], n) == Take(s, n)
    ensures n < |s| - 1 ==> Take(s[..|s| - 1], n + 1) == Take(s, n + 1)
  {
  }

  lemma TakeMore<T>(s: seq<T>, x: T, n: nat)
    ensures n <= |s| ==> Take(s + [x], n) == Take(s, n)
  {
  }

  /** A duplicate-free list has as many entries as elements. */
  lemma {:induction false} NoDuplicatesCardinality<T>(s: seq<T>)
    requires NoDuplicates(s)
    ensures |s| == |Elements(s)|
  {
    if s != [] {
      var front, last := s[..|s| - 1], s[|s| - 1];
      NoDuplicatesCardinality(front);
      assert s == front + [last];
      assert Elements(s) == Elements(front) + {last};
      assert last !in front;
    }
  }

  lemma SmallMultiple(x: int, d: int)
    requires 0 - d < x * d < d
    ensures x == 0
  {
  }

  lemma {:induction false} SubsetCardinality<T>(s: set<T>, t: set<T>)
    requires s <= t
    ensures |s| <= |t|
  {
    if x :| x in s {
      SubsetCardinality(s - {x}, t - {x});
    }
  }

  /** There is always another name. */
  lemma {:induction false} LongerThanAll(ids: set<string>) returns (id: string)
    ensures forall x :: x in ids ==> |x| < |id|
  {
    if x :| x in ids {
      var shorter := LongerThanAll(ids - {x});
      id := seq(|shorter| + |x| + 1, _ => 'x');
    } else {
      id := "";
    }
  }
}
