/** Prefix and suffix on sequences (`starts_with` / `ends_with` on slices) and a
    counting fact about sequences of distinct values. */
module Seqs {

  predicate IsPrefixOf<T(==)>(p: seq<T>, s: seq<T>) {
    |p| <= |s| && s[..|p|] == p
  }

  predicate IsSuffixOf<T(==)>(p: seq<T>, s: seq<T>) {
    |p| <= |s| && s[|s| - |p|..] == p
  }

  /** A prefix extended by one element is a prefix exactly when the next element agrees. */
  lemma PrefixSnoc<T>(a: seq<T>, x: T, s: seq<T>)
    ensures IsPrefixOf(a + [x], s) <==> IsPrefixOf(a, s) && |a| < |s| && s[|a|] == x
  {
    if IsPrefixOf(a, s) && |a| < |s| && s[|a|] == x {
      assert s[..|a| + 1] == s[..|a|] + [s[|a|]];
    }
    if IsPrefixOf(a + [x], s) {
      assert s[..|a|] == s[..|a| + 1][..|a|] == (a + [x])[..|a|] == a;
      assert s[|a|] == s[..|a| + 1][|a|];
    }
  }

  predicate Distinct<T(==)>(xs: seq<T>) {
    forall i, j :: 0 <= i < j < |xs| ==> xs[i] != xs[j]
  }

  lemma {:induction false} DistinctSetSize<T>(xs: seq<T>)
    requires Distinct(xs)
    ensures |set x | x in xs| == |xs|
  {
    if |xs| > 0 {
      var tail := xs[1..];
      assert Distinct(tail) by {
        forall i, j | 0 <= i < j < |tail| ensures tail[i] != tail[j] {
          assert tail[i] == xs[i + 1] && tail[j] == xs[j + 1];
        }
      }
      DistinctSetSize(tail);
      assert xs[0] !in tail;
      assert (set x | x in xs) == (set x | x in tail) + {xs[0]} by {
        assert xs == [xs[0]] + tail;
      }
    } else {
      assert (set x | x in xs) == {};
    }
  }

  /** The set 1..n. */
  function Range(n: nat): (r: set<int>)
    ensures forall k :: k in r <==> 1 <= k <= n
    ensures |r| == n
  {
    if n == 0 then {} else Range(n - 1) + {n}
  }

  /** A subset is no larger than its superset. */
  lemma {:induction false} SubsetSize<T>(a: set<T>, b: set<T>)
    requires a <= b
    ensures |a| <= |b|
    decreases |a|
  {
    if a != {} {
      var x :| x in a;
      SubsetSize(a - {x}, b - {x});
    }
  }

  /** Distinct values drawn from 1..n that cover all of 1..n number exactly n. */
  lemma DistinctCoverSize(xs: seq<int>, n: nat)
    requires Distinct(xs)
    requires forall i :: 0 <= i < |xs| ==> 1 <= xs[i] <= n
    requires forall k :: 1 <= k <= n ==> k in xs
    ensures |xs| == n
  {
    DistinctSetSize(xs);
    assert (set x | x in xs) == Range(n);
  }
}
