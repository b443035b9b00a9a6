/**
 * Counting without repetition: a list of different numbers below n has at most n of them.
 */
module Counting {

  ghost predicate Distinct(xs: seq<nat>) {
    forall i, j :: 0 <= i < j < |xs| ==> xs[i] != xs[j]
  }

  ghost function Members(xs: seq<nat>): set<nat> {
    set x | x in xs
  }

  lemma {:induction false} DistinctCount(xs: seq<nat>)
    requires Distinct(xs)
    ensures |Members(xs)| == |xs|
  {
    if xs != [] {
      var n := |xs| - 1;
      DistinctCount(xs[..n]);
      assert Members(xs) == Members(xs[..n]) + {xs[n]};
    }
  }

  lemma {:induction false} SetBelow(n: nat, x: set<nat>)
    requires forall s :: s in x ==> s < n
    ensures |x| <= n
  {
    if n > 0 {
      SetBelow(n - 1, x - {n - 1});
      assert x <= (x - {n - 1}) + {n - 1};
    } else {
      assert x == {};
    }
  }

  lemma DistinctBelow(n: nat, xs: seq<nat>)
    requires Distinct(xs) && forall i :: 0 <= i < |xs| ==> xs[i] < n
    ensures |xs| <= n
  {
    DistinctCount(xs);
    SetBelow(n, Members(xs));
  }
}
