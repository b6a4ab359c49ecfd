/** Order and uniqueness facts about sequences, used to describe the
    per-package result relative to the package's top scope. */
module Seqs {

  /** No element occurs twice. */
  predicate Distinct<T(==)>(s: seq<T>) {
    forall i, j | 0 <= i < j < |s| :: s[i] != s[j]
  }

  /** `idx` picks the elements of `r` out of `s` at strictly increasing
      positions. */
  ghost predicate Embeds<T>(idx: seq<nat>, r: seq<T>, s: seq<T>) {
    && |idx| == |r|
    && (forall k | 0 <= k < |idx| :: idx[k] < |s| && s[idx[k]] == r[k])
    && (forall k, l | 0 <= k < l < |idx| :: idx[k] < idx[l])
  }

  /** `r` is `s` with some elements dropped and the rest kept in order. */
  ghost predicate IsSubsequence<T>(r: seq<T>, s: seq<T>) {
    exists idx: seq<nat> :: Embeds(idx, r, s)
  }

  /** Extending the source never loses a subsequence, and a new last
      element may be kept. */
  lemma SubsequenceExtend<T>(r: seq<T>, s: seq<T>, x: T, keep: bool)
    requires IsSubsequence(r, s)
    ensures IsSubsequence(if keep then r + [x] else r, s + [x])
  {
    var idx: seq<nat> :| Embeds(idx, r, s);
    if keep {
      assert Embeds(idx + [|s|], r + [x], s + [x]);
    } else {
      assert Embeds(idx, r, s + [x]);
    }
  }
}
