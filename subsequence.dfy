/** The fuzzy match of the suggestion filter (`TagSuggest._isSubsequence`, main.ts): the
    query must occur in the candidate as a not necessarily contiguous subsequence,
    compared character by character with no case folding. */
module Subsequence {

  /** `sub` is obtained from `s` by deleting characters, matched greedily from the left. */
  predicate IsSubsequence(sub: string, s: string)
    decreases |s|
  {
    if sub == [] then true
    else if s == [] then false
    else if s[0] == sub[0] then IsSubsequence(sub[1..], s[1..])
    else IsSubsequence(sub, s[1..])
  }

  /** An independent description of the same relation: `idx` lists strictly increasing
      positions of `s` that spell out `sub`. */
  ghost predicate IsEmbedding(sub: string, s: string, idx: seq<nat>) {
    && |idx| == |sub|
    && (forall k :: 0 <= k < |idx| ==> idx[k] < |s| && s[idx[k]] == sub[k])
    && (forall k, l :: 0 <= k < l < |idx| ==> idx[k] < idx[l])
  }

  function Shift(idx: seq<nat>): (r: seq<nat>)
    ensures |r| == |idx| && forall k :: 0 <= k < |idx| ==> r[k] == idx[k] + 1
  {
    seq(|idx|, k requires 0 <= k < |idx| => idx[k] + 1)
  }

  function Unshift(idx: seq<nat>): (r: seq<nat>)
    requires forall k :: 0 <= k < |idx| ==> idx[k] >= 1
    ensures |r| == |idx| && forall k :: 0 <= k < |idx| ==> r[k] == idx[k] - 1
  {
    seq(|idx|, k requires 0 <= k < |idx| => idx[k] - 1)
  }

  /** The greedy test succeeds exactly when some embedding exists. */
  lemma {:induction false} SubsequenceIffEmbedding(sub: string, s: string)
    ensures IsSubsequence(sub, s) <==> exists idx :: IsEmbedding(sub, s, idx)
    decreases |s|
  {
    if IsSubsequence(sub, s) {
      var idx := GreedyEmbedding(sub, s);
      assert IsEmbedding(sub, s, idx);
    }
    if idx :| IsEmbedding(sub, s, idx) {
      EmbeddingIsFound(sub, s, idx);
    }
  }

  /** The positions the greedy scan matches form an embedding. */
  lemma {:induction false} GreedyEmbedding(sub: string, s: string) returns (idx: seq<nat>)
    requires IsSubsequence(sub, s)
    ensures IsEmbedding(sub, s, idx)
    decreases |s|
  {
    if sub == [] {
      idx := [];
    } else if s[0] == sub[0] {
      var rest := GreedyEmbedding(sub[1..], s[1..]);
      idx := [0] + Shift(rest);
    } else {
      var rest := GreedyEmbedding(sub, s[1..]);
      idx := Shift(rest);
    }
  }

  /** Whenever an embedding exists, the greedy scan does not miss it. */
  lemma {:induction false} EmbeddingIsFound(sub: string, s: string, idx: seq<nat>)
    requires IsEmbedding(sub, s, idx)
    ensures IsSubsequence(sub, s)
    decreases |s|
  {
    if sub != [] {
      assert idx[0] < |s|;
      // Every position after the first lies beyond it, so past position 0 of `s`.
      assert forall k :: 1 <= k < |idx| ==> idx[k] >= 1 by {
        forall k | 1 <= k < |idx| ensures idx[k] >= 1 {
          assert idx[0] < idx[k];
        }
      }
      if s[0] == sub[0] {
        // The rest of `sub` is embedded in the rest of `s`, whatever position sub[0] used.
        var rest := Unshift(idx[1..]);
        assert IsEmbedding(sub[1..], s[1..], rest);
        EmbeddingIsFound(sub[1..], s[1..], rest);
      } else {
        assert idx[0] != 0;
        var rest := Unshift(idx);
        assert IsEmbedding(sub, s[1..], rest);
        EmbeddingIsFound(sub, s[1..], rest);
      }
    }
  }

  /** `_isSubsequence(s, sub)`: the source's two-pointer loop. */
  method CheckSubsequence(s: string, sub: string) returns (found: bool)
    ensures found == IsSubsequence(sub, s)
  {
    var i, j := 0, 0;
    while i < |s| && j < |sub|
      invariant 0 <= j <= i <= |s| && j <= |sub|
      invariant IsSubsequence(sub[j..], s[i..]) == IsSubsequence(sub, s)
    {
      assert s[i..][1..] == s[i + 1..] && sub[j..][1..] == sub[j + 1..];
      if s[i] == sub[j] {
        j := j + 1;
      }
      i := i + 1;
    }
    found := j == |sub|;
  }
}
