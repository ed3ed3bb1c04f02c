/** The Kotlin list operations the Fibonacci branch relies on, `takeWhile` and
    `distinct`, over sequences of integers, and the orderings the classifier
    promises of its results. */
module Collections {

  /** Strictly ascending, and therefore free of duplicates. */
  predicate StrictlyIncreasing(s: seq<int>)
  {
    forall i, j :: 0 <= i < j < |s| ==> s[i] < s[j]
  }

  predicate NonDecreasing(s: seq<int>)
  {
    forall i, j :: 0 <= i < j < |s| ==> s[i] <= s[j]
  }

  predicate NoDuplicates(s: seq<int>)
  {
    forall i, j :: 0 <= i < j < |s| ==> s[i] != s[j]
  }

  /** A strictly ascending sequence is determined by its elements. */
  lemma {:induction false} IncreasingUnique(a: seq<int>, b: seq<int>)
    requires StrictlyIncreasing(a) && StrictlyIncreasing(b)
    requires forall x :: x in a <==> x in b
    ensures a == b
    decreases |a|
  {
    if b != [] {
      assert b[0] in b;
    }
    if a != [] {
      assert a[0] in a && b != [];
      assert a[0] == b[0] by {
        var i :| 0 <= i < |b| && b[i] == a[0];
        var j :| 0 <= j < |a| && a[j] == b[0];
        assert b[0] <= b[i] && a[0] <= a[j];
      }
      forall x
        ensures x in a[1..] <==> x in b[1..]
      {
        if x in a[1..] {
          var i :| 1 <= i < |a| && a[i] == x;
          assert x in b && x != b[0];
        }
        if x in b[1..] {
          var i :| 1 <= i < |b| && b[i] == x;
          assert x in a && x != a[0];
        }
      }
      IncreasingUnique(a[1..], b[1..]);
      assert a == [a[0]] + a[1..] && b == [b[0]] + b[1..];
    }
  }

  /** `s.takeWhile { it < bound }`: the longest prefix of `s` whose elements
      all lie below `bound`. */
  function TakeWhileBelow(s: seq<int>, bound: int): (r: seq<int>)
    ensures r <= s
    ensures forall x :: x in r ==> x < bound
    ensures |r| < |s| ==> s[|r|] >= bound
  {
    if s == [] || s[0] >= bound then []
    else [s[0]] + TakeWhileBelow(s[1..], bound)
  }

  /** On an ascending list the prefix taken is exactly the elements below
      the bound. */
  lemma TakeWhileOfSorted(s: seq<int>, bound: int)
    requires NonDecreasing(s)
    ensures NonDecreasing(TakeWhileBelow(s, bound))
    ensures forall x :: x in TakeWhileBelow(s, bound) <==> x in s && x < bound
  {
    var r := TakeWhileBelow(s, bound);
    assert r == s[..|r|];
    forall x | x in s && x < bound
      ensures x in r
    {
      var k :| 0 <= k < |s| && s[k] == x;
      assert r[k] == x;
    }
  }

  /** `s.distinct()`: the elements of `s` without repeats. The contract leaves
      their order open; on an ascending input `DistinctOfSorted` and
      `IncreasingUnique` fix it. */
  function Distinct(s: seq<int>): (r: seq<int>)
    ensures forall x :: x in r <==> x in s
    ensures NoDuplicates(r)
    ensures |r| <= |s|
  {
    if s == [] then []
    else
      var rest := Distinct(s[..|s| - 1]);
      var x := s[|s| - 1];
      assert s == s[..|s| - 1] + [x];
      if x in rest then rest else rest + [x]
  }

  /** Removing duplicates from an ascending list leaves a strictly ascending one. */
  lemma {:induction false} DistinctOfSorted(s: seq<int>)
    requires NonDecreasing(s)
    ensures StrictlyIncreasing(Distinct(s))
    decreases |s|
  {
    if s != [] {
      var init := s[..|s| - 1];
      var x := s[|s| - 1];
      DistinctOfSorted(init);
      var rest := Distinct(init);
      if x !in rest {
        forall y | y in rest
          ensures y < x
        {
          var k :| 0 <= k < |init| && init[k] == y;
          assert s[k] == y;
        }
        var r := rest + [x];
        assert r == Distinct(s);
        forall i, j | 0 <= i < j < |r|
          ensures r[i] < r[j]
        {
          if j == |rest| {
            assert r[i] in rest;
          }
        }
      }
    }
  }
}
