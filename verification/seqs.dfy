/**
 * Facts about sequences that the maze model uses but that say nothing
 * about cells: lists without repeats, and non-decreasing lists of levels.
 */
module Seqs {

  /** No element occurs twice. */
  ghost predicate Distinct<T>(s: seq<T>) {
    forall i, j :: 0 <= i < j < |s| ==> s[i] != s[j]
  }

  /** Joining two repeat-free lists with no common element leaves no repeat. */
  lemma AppendDistinct<T>(a: seq<T>, b: seq<T>)
    requires Distinct(a) && Distinct(b) && forall i, j :: 0 <= i < |a| && 0 <= j < |b| ==> a[i] != b[j]
    ensures Distinct(a + b)
  {
    forall i, j | 0 <= i < j < |a + b|
      ensures (a + b)[i] != (a + b)[j]
    {
      if j < |a| {
      } else if i >= |a| {
        assert (a + b)[i] == b[i - |a|] && (a + b)[j] == b[j - |a|];
      } else {
        assert (a + b)[i] == a[i] && (a + b)[j] == b[j - |a|];
      }
    }
  }

  /** A list without repeats has as many elements as the set of its elements. */
  lemma {:induction false} DistinctCard<T>(s: seq<T>)
    requires Distinct(s)
    ensures |set v | v in s| == |s|
  {
    if s != [] {
      var init := s[..|s| - 1];
      DistinctCard(init);
      assert (set v | v in s) == (set v | v in init) + {s[|s| - 1]};
      assert s[|s| - 1] !in init;
    }
  }

  /** Each element is at most every later one. */
  predicate Sorted(levels: seq<nat>) {
    forall i, j :: 0 <= i < j < |levels| ==> levels[i] <= levels[j]
  }

  /** k copies of v. */
  function Repeat(v: nat, k: nat): seq<nat>
  {
    seq(k, _ => v)
  }

  /** One more copy at the end. */
  lemma RepeatAppend(s: seq<nat>, v: nat, k: nat)
    ensures s + Repeat(v, k) + [v] == s + Repeat(v, k + 1)
  {
    assert Repeat(v, k + 1) == Repeat(v, k) + [v];
  }
}
