/**
  Ascending sort of scored entries, as std::sort with a "distance less than"
  comparator is used by the search. std::sort is not stable, so callers may
  rely on the result being ordered by distance and being a permutation of
  the input, and on nothing about the order of ties.
*/
module Sorting {

  /** An entry paired with its distance to the query. */
  datatype Scored<T> = Scored(item: T, dist: real)

  predicate SortedByDist<T>(s: seq<Scored<T>>)
  {
    forall i, j | 0 <= i < j < |s| :: s[i].dist <= s[j].dist
  }

  /** The entries without their distances, in the same order. */
  function Items<T>(s: seq<Scored<T>>): (r: seq<T>)
    ensures |r| == |s|
    ensures forall i | 0 <= i < |s| :: r[i] == s[i].item
  {
    seq(|s|, i requires 0 <= i < |s| => s[i].item)
  }

  function Insert<T>(x: Scored<T>, s: seq<Scored<T>>): (r: seq<Scored<T>>)
    requires SortedByDist(s)
    ensures SortedByDist(r)
    ensures multiset(r) == multiset(s) + multiset{x}
    ensures |r| == |s| + 1
  {
    if |s| == 0 then [x]
    else if x.dist <= s[0].dist then [x] + s
    else
      var rest := Insert(x, s[1..]);
      assert s == [s[0]] + s[1..];
      HeadBelowRest(x, s, rest);
      [s[0]] + rest
  }

  /** The head of a sorted s is no farther than anything in s's tail with a farther x inserted. */
  lemma HeadBelowRest<T>(x: Scored<T>, s: seq<Scored<T>>, rest: seq<Scored<T>>)
    requires SortedByDist(s) && |s| > 0 && s[0].dist < x.dist
    requires multiset(rest) == multiset(s[1..]) + multiset{x}
    ensures forall k | 0 <= k < |rest| :: s[0].dist <= rest[k].dist
  {
    forall k | 0 <= k < |rest|
      ensures s[0].dist <= rest[k].dist
    {
      assert rest[k] in multiset(rest);
      if rest[k] != x {
        assert rest[k] in multiset(s[1..]);
        var j :| 0 <= j < |s[1..]| && s[1..][j] == rest[k];
        assert s[1..][j] == s[j + 1];
      }
    }
  }

  /** An ascending permutation of s (insertion sort; ties in no promised order). */
  function SortByDist<T>(s: seq<Scored<T>>): (r: seq<Scored<T>>)
    ensures SortedByDist(r)
    ensures multiset(r) == multiset(s)
    ensures |r| == |s|
  {
    if |s| == 0 then []
    else
      assert s == [s[0]] + s[1..];
      Insert(s[0], SortByDist(s[1..]))
  }

  lemma ItemsConcat<T>(a: seq<Scored<T>>, b: seq<Scored<T>>)
    ensures Items(a + b) == Items(a) + Items(b)
  {
  }

  /** Permuting scored entries permutes their items the same way. */
  lemma {:induction false} ItemsPermutation<T>(s1: seq<Scored<T>>, s2: seq<Scored<T>>)
    requires multiset(s1) == multiset(s2)
    ensures multiset(Items(s1)) == multiset(Items(s2))
    decreases |s1|
  {
    if |s1| == 0 {
      assert |multiset(s2)| == 0;
      assert s2 == [];
    } else {
      var x := s1[0];
      assert x in multiset(s2);
      var i :| 0 <= i < |s2| && s2[i] == x;
      var s2' := s2[..i] + s2[i + 1..];
      assert s2 == s2[..i] + [x] + s2[i + 1..];
      assert s1 == [x] + s1[1..];
      assert multiset(s1) == multiset{x} + multiset(s1[1..]);
      assert multiset(s2) == multiset(s2[..i]) + multiset{x} + multiset(s2[i + 1..]);
      assert multiset(s2') == multiset(s2[..i]) + multiset(s2[i + 1..]);
      assert multiset(s1[1..]) == multiset(s1) - multiset{x};
      assert multiset(s2') == multiset(s2) - multiset{x};
      ItemsPermutation(s1[1..], s2');
      ItemsConcat([x], s1[1..]);
      ItemsConcat(s2[..i] + [x], s2[i + 1..]);
      ItemsConcat(s2[..i], [x]);
      ItemsConcat(s2[..i], s2[i + 1..]);
    }
  }

  /** Splitting a permutation of s at k: the first k items and the rest together are the items of s. */
  lemma SplitItems<T>(sorted: seq<Scored<T>>, s: seq<Scored<T>>, k: nat)
    requires multiset(sorted) == multiset(s) && k <= |sorted|
    ensures multiset(Items(sorted[..k])) + multiset(Items(sorted[k..])) == multiset(Items(s))
  {
    assert sorted == sorted[..k] + sorted[k..];
    ItemsConcat(sorted[..k], sorted[k..]);
    ItemsPermutation(sorted, s);
  }
}
