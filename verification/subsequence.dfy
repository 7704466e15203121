/** In-order subsequence matching. The finder's matchers scan the text once and consume a query
    character whenever the next text character equals it; this module proves that greedy scan
    finds a match exactly when some strictly increasing choice of text positions spells the query. */
module Subsequences {

  /** `idx` picks, for each of `q[qi..]`, a position of `t` at or after `k` holding that character,
      in strictly increasing order. */
  ghost predicate EmbedsFrom(q: string, t: string, qi: nat, k: nat, idx: seq<int>)
    requires qi <= |q|
  {
    && |idx| == |q| - qi
    && (forall i :: 0 <= i < |idx| ==> k <= idx[i] < |t| && t[idx[i]] == q[qi + i])
    && (forall i, j :: 0 <= i < j < |idx| ==> idx[i] < idx[j])
  }

  /** The reference meaning of "`q` is a subsequence of `t`". */
  ghost predicate IsSubsequence(q: string, t: string) {
    exists idx :: EmbedsFrom(q, t, 0, 0, idx)
  }

  /** The positions the greedy scan consumes, starting at query index `qi` and text index `k`.
      Every consumed position holds the query character it was matched to. */
  function GreedyFrom(q: string, t: string, qi: nat, k: nat): (r: seq<nat>)
    requires qi <= |q| && k <= |t|
    ensures |r| <= |q| - qi
    ensures forall i :: 0 <= i < |r| ==> k <= r[i] < |t| && t[r[i]] == q[qi + i]
    ensures forall i, j :: 0 <= i < j < |r| ==> r[i] < r[j]
    decreases |t| - k
  {
    if qi == |q| || k == |t| then []
    else if t[k] == q[qi] then [k] + GreedyFrom(q, t, qi + 1, k + 1)
    else GreedyFrom(q, t, qi, k + 1)
  }

  /** The greedy positions over the whole text. */
  function Greedy(q: string, t: string): (r: seq<nat>)
    ensures |r| <= |q|
    ensures forall i :: 0 <= i < |r| ==> r[i] < |t| && t[r[i]] == q[i]
    ensures forall i, j :: 0 <= i < j < |r| ==> r[i] < r[j]
  {
    GreedyFrom(q, t, 0, 0)
  }

  /** Completeness of the greedy choice: if any embedding of `q[qi..]` into `t[k..]` exists, the
      greedy scan consumes all of `q[qi..]`. */
  lemma {:induction false} GreedyFromComplete(q: string, t: string, qi: nat, k: nat, idx: seq<int>)
    requires qi <= |q| && k <= |t|
    requires EmbedsFrom(q, t, qi, k, idx)
    ensures |GreedyFrom(q, t, qi, k)| == |q| - qi
    decreases |t| - k
  {
    if qi < |q| {
      assert k <= idx[0] < |t|;
      if t[k] == q[qi] {
        var rest := idx[1..];
        assert EmbedsFrom(q, t, qi + 1, k + 1, rest) by {
          forall i | 0 <= i < |rest|
            ensures k + 1 <= rest[i] < |t| && t[rest[i]] == q[qi + 1 + i]
          {
            assert idx[0] < idx[i + 1];
          }
        }
        GreedyFromComplete(q, t, qi + 1, k + 1, rest);
      } else {
        assert EmbedsFrom(q, t, qi, k + 1, idx) by {
          forall i | 0 <= i < |idx|
            ensures k + 1 <= idx[i]
          {
            if i > 0 { assert idx[0] < idx[i]; }
          }
        }
        GreedyFromComplete(q, t, qi, k + 1, idx);
      }
    }
  }

  /** The greedy scan consumes the whole query exactly when the query is a subsequence. */
  lemma GreedyIffSubsequence(q: string, t: string)
    ensures |Greedy(q, t)| == |q| <==> IsSubsequence(q, t)
  {
    var g := Greedy(q, t);
    if |g| == |q| {
      var idx: seq<int> := g;
      assert EmbedsFrom(q, t, 0, 0, idx);
    }
    if IsSubsequence(q, t) {
      var idx :| EmbedsFrom(q, t, 0, 0, idx);
      GreedyFromComplete(q, t, 0, 0, idx);
    }
  }

  /** A contiguous occurrence is in particular an in-order embedding. */
  lemma OccurrenceIsSubsequence(q: string, t: string, i: nat)
    requires i + |q| <= |t| && t[i..i + |q|] == q
    ensures IsSubsequence(q, t)
  {
    var idx := seq(|q|, j requires 0 <= j < |q| => i + j);
    assert forall j :: 0 <= j < |q| ==> t[idx[j]] == t[i..i + |q|][j];
    assert EmbedsFrom(q, t, 0, 0, idx);
  }

  /** `is_subsequence` (rust/src/search.rs) and `_is_subsequence` (Python prototype): one pass over
      the text, advancing the query index on each equal character. */
  method IsSubsequenceScan(q: string, t: string) returns (b: bool)
    ensures b <==> IsSubsequence(q, t)
  {
    var qi := 0;
    for k := 0 to |t|
      invariant qi <= |q|
      invariant |Greedy(q, t)| == qi + |GreedyFrom(q, t, qi, k)|
    {
      if qi < |q| && t[k] == q[qi] {
        qi := qi + 1;
      }
    }
    GreedyIffSubsequence(q, t);
    b := qi == |q|;
  }
}
