/** Sequences without repetition. */
module Distinct {

  ghost predicate NoDup<T>(s: seq<T>) {
    forall i, j :: 0 <= i < j < |s| ==> s[i] != s[j]
  }

  /** Distinct elements of a set are no more than the set has. */
  lemma {:induction false} DistinctFit<T>(s: seq<T>, all: set<T>)
    requires NoDup(s) && forall k :: 0 <= k < |s| ==> s[k] in all
    ensures |s| <= |all|
  {
    if s == [] {
      assert |s| == 0;
    } else {
      var front, x := s[..|s| - 1], s[|s| - 1];
      assert forall k :: 0 <= k < |front| ==> front[k] == s[k] != x;
      DistinctFit(front, all - {x});
    }
  }
}
