/** Index sequences that pick out a subsequence: strictly increasing positions into a sequence of a given length. */
module Positions {

  ghost predicate IsEmbedding(idx: seq<nat>, n: nat) {
    && (forall k :: 0 <= k < |idx| ==> idx[k] < n)
    && (forall k, l :: 0 <= k < l < |idx| ==> idx[k] < idx[l])
  }
}
