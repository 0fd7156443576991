/** Sums of a weight over the entries of a table. */
module Tally {

  function Sum<T>(xs: seq<T>, weight: T -> nat): nat {
    if xs == [] then 0 else weight(xs[0]) + Sum(xs[1..], weight)
  }

  lemma {:induction false} SumUpdate<T>(xs: seq<T>, i: nat, x: T, weight: T -> nat)
    requires i < |xs|
    ensures Sum(xs[i := x], weight) + weight(xs[i]) == Sum(xs, weight) + weight(x)
  {
    if i == 0 {
      assert xs[0 := x][1..] == xs[1..];
    } else {
      assert xs[i := x][1..] == xs[1..][i - 1 := x];
      SumUpdate(xs[1..], i - 1, x, weight);
    }
  }

  lemma {:induction false} SumUniform<T>(xs: seq<T>, c: nat, weight: T -> nat)
    requires forall i :: 0 <= i < |xs| ==> weight(xs[i]) == c
    ensures Sum(xs, weight) == |xs| * c
  {
    if xs != [] {
      SumUniform(xs[1..], c, weight);
    }
  }

  lemma {:induction false} SumAtMost<T>(xs: seq<T>, c: nat, weight: T -> nat)
    requires forall i :: 0 <= i < |xs| ==> weight(xs[i]) <= c
    ensures Sum(xs, weight) <= |xs| * c
  {
    if xs != [] {
      SumAtMost(xs[1..], c, weight);
    }
  }

  /** A set of indices below n that has n members is all of them. */
  lemma {:induction false} FullSet(s: set<nat>, n: nat)
    requires forall i :: i in s ==> i < n
    ensures |s| <= n
    ensures |s| == n <==> forall i :: 0 <= i < n ==> i in s
  {
    if n == 0 {
      assert s == {};
    } else {
      var t := s - {n - 1};
      FullSet(t, n - 1);
      assert s == if n - 1 in s then t + {n - 1} else t;
    }
  }

  lemma SubsetSize<T>(a: set<T>, b: set<T>)
    requires a <= b
    ensures |a| <= |b| && (|a| == |b| ==> a == b)
  {
    assert b == a + (b - a);
  }
}
