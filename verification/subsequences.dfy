/** Subsequences of character lists, the blanking of deleted slots, and the
    greedy scan `cadena_find_caca` that decides whether a needle is a
    subsequence of a (partly blanked) haystack. */
module Subsequences {

  /** The mark that `cadena_quitar_caca` writes into a deleted slot. */
  const Blank: char := ','

  /** `P` lists, in strictly increasing order, positions of `s` that spell `q`. */
  ghost predicate IsEmbedding(P: seq<int>, q: seq<char>, s: seq<char>) {
    |P| == |q| &&
    (forall i :: 0 <= i < |P| ==> 0 <= P[i] < |s| && s[P[i]] == q[i]) &&
    (forall i, j :: 0 <= i < j < |P| ==> P[i] < P[j])
  }

  ghost predicate IsSubsequence(q: seq<char>, s: seq<char>) {
    exists P :: IsEmbedding(P, q, s)
  }

  /** No position is listed twice. */
  predicate Distinct(D: seq<int>) {
    forall i, j :: 0 <= i < j < |D| ==> D[i] != D[j]
  }

  /** Every listed position indexes a list of length `n`. */
  predicate InRange(D: seq<int>, n: nat) {
    forall i :: 0 <= i < |D| ==> 0 <= D[i] < n
  }

  /** `s` with every slot listed in `slots` overwritten by the blank mark. */
  function Blanked(s: seq<char>, slots: seq<int>): (r: seq<char>)
    ensures |r| == |s|
  {
    seq(|s|, p requires 0 <= p < |s| => if p in slots then Blank else s[p])
  }

  lemma EmbeddingPrefix(P: seq<int>, q: seq<char>, s: seq<char>, k: nat)
    requires IsEmbedding(P, q, s) && k <= |q|
    ensures IsEmbedding(P[..k], q[..k], s)
  {
  }

  /** A prefix of a subsequence is a subsequence. */
  lemma SubsequencePrefix(q: seq<char>, s: seq<char>, k: nat)
    requires IsSubsequence(q, s) && k <= |q|
    ensures IsSubsequence(q[..k], s)
  {
    var P :| IsEmbedding(P, q, s);
    EmbeddingPrefix(P, q, s, k);
  }

  /** Blanking more slots never helps a needle without the blank mark: a
      needle embedded after blanking `more` is embedded after blanking only
      `fewer`, when every slot of `fewer` is also in `more`. */
  lemma BlankingMonotone(q: seq<char>, s: seq<char>, fewer: seq<int>, more: seq<int>)
    requires Blank !in q
    requires forall p :: p in fewer ==> p in more
    requires IsSubsequence(q, Blanked(s, more))
    ensures IsSubsequence(q, Blanked(s, fewer))
  {
    var P :| IsEmbedding(P, q, Blanked(s, more));
    forall i | 0 <= i < |P|
      ensures Blanked(s, fewer)[P[i]] == q[i]
    {
      assert q[i] in q;
      assert P[i] !in more;
    }
    assert IsEmbedding(P, q, Blanked(s, fewer));
  }

  /** The greedy choice: after the leftmost embedding `P` of `q[..i]`, the
      first slot at or after `P[i - 1] + 1` holding `q[i]` extends it to the
      leftmost embedding of `q[..i + 1]`; when no slot holds it, `q[..i + 1]`
      is not a subsequence at all. */
  lemma GreedyStep(s: seq<char>, q: seq<char>, i: nat, P: seq<int>, idx: int)
    requires i < |q| && IsEmbedding(P, q[..i], s)
    requires i > 0 ==> forall E :: IsEmbedding(E, q[..i], s) ==> P[i - 1] <= E[i - 1]
    requires (if i == 0 then 0 else P[i - 1] + 1) <= idx
    requires forall k :: (if i == 0 then 0 else P[i - 1] + 1) <= k < idx && k < |s| ==> s[k] != q[i]
    requires idx < |s| ==> s[idx] == q[i]
    ensures forall E :: IsEmbedding(E, q[..i + 1], s) ==> idx <= E[i]
    ensures idx < |s| ==> IsEmbedding(P + [idx], q[..i + 1], s)
    ensures idx >= |s| ==> !IsSubsequence(q[..i + 1], s)
  {
    assert q[..i + 1][..i] == q[..i];
    forall E | IsEmbedding(E, q[..i + 1], s)
      ensures idx <= E[i]
    {
      EmbeddingPrefix(E, q[..i + 1], s, i);
    }
  }

  /** Once a prefix of the needle is not a subsequence, no longer prefix is. */
  lemma NoLongerSubsequence(q: seq<char>, s: seq<char>, i: nat)
    requires i < |q| && !IsSubsequence(q[..i], s)
    ensures !IsSubsequence(q[..i + 1], s)
  {
    if IsSubsequence(q[..i + 1], s) {
      assert q[..i + 1][..i] == q[..i];
      SubsequencePrefix(q[..i + 1], s, i);
    }
  }

  /** `cadena_find_caca`: the greedy leftmost scan. For each needle letter it
      advances `idx` to the next slot holding that letter; `matched` counts
      the letters found, and the answer is whether all were found. */
  method ScanSubsequence(a: array<char>, q: seq<char>) returns (found: bool)
    ensures found <==> IsSubsequence(q, a[..])
  {
    var idx := 0;
    var n := a.Length;
    var matched := 0;
    ghost var P: seq<int> := [];
    for i := 0 to |q|
      invariant 0 <= matched <= i
      invariant matched == i ==> IsEmbedding(P, q[..i], a[..])
      invariant matched == i ==> idx == if i == 0 then 0 else P[i - 1] + 1
      invariant matched == i && i > 0 ==>
        forall E :: IsEmbedding(E, q[..i], a[..]) ==> P[i - 1] <= E[i - 1]
      invariant matched < i ==> n <= idx && !IsSubsequence(q[..i], a[..])
    {
      var c := q[i];
      ghost var start := idx;
      while idx < n && c != a[idx]
        invariant start <= idx
        invariant matched == i ==> idx <= n
        invariant forall k :: start <= k < idx && k < n ==> a[k] != c
        invariant matched < i ==> idx == start
      {
        idx := idx + 1;
      }
      if matched == i {
        GreedyStep(a[..], q, i, P, idx);
        if idx < n {
          P := P + [idx];
        }
      } else {
        NoLongerSubsequence(q, a[..], i);
      }
      if idx < n {
        matched := matched + 1;
      }
      idx := idx + 1;
    }
    assert q[..|q|] == q;
    found := matched == |q|;
  }
}
