/** Pigeonhole facts about sequences without repetition. */
module Counting {
  predicate Distinct<T(==)>(s: seq<T>)
  {
    forall i, j :: 0 <= i < j < |s| ==> s[i] != s[j]
  }

  function Range(n: nat): (r: set<int>)
    ensures forall x :: x in r <==> 0 <= x < n
    ensures |r| == n
  {
    if n == 0 then {} else Range(n - 1) + {n - 1}
  }

  function Elements<T>(s: seq<T>): set<T>
  {
    set x | x in s
  }

  lemma {:induction false} DistinctCount<T>(s: seq<T>)
    requires Distinct(s)
    ensures |Elements(s)| == |s|
  {
    if s != [] {
      var init, last := s[..|s| - 1], s[|s| - 1];
      DistinctCount(init);
      assert last !in init;
      assert Elements(s) == Elements(init) + {last};
    }
  }

  lemma SubsetSize<T>(a: set<T>, b: set<T>)
    requires a <= b
    ensures |a| <= |b|
    decreases |a|
  {
    if a != {} {
      var x :| x in a;
      SubsetSize(a - {x}, b - {x});
    }
  }

  /** Distinct naturals below `n` number at most `n`. */
  lemma DistinctBelow(s: seq<int>, n: nat)
    requires Distinct(s)
    requires forall x :: x in s ==> 0 <= x < n
    ensures |s| <= n
  {
    DistinctCount(s);
    SubsetSize(Elements(s), Range(n));
  }

  /** A sequence without repetition drawn from a set is no longer than the set. */
  lemma DistinctWithin<T>(s: seq<T>, universe: set<T>)
    requires Distinct(s)
    requires forall x :: x in s ==> x in universe
    ensures |s| <= |universe|
  {
    DistinctCount(s);
    SubsetSize(Elements(s), universe);
  }
}
