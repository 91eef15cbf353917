/** The per-letter position index: a dictionary from each haystack letter to
    a `SortedCollection` of the positions holding it, with the helpers that
    build it, delete positions from it (keeping a backup log of
    `(position, letter)` pairs), put them back, and walk it to decide whether
    a needle is still a subsequence (`cacadena_es_subsequencia`). */
module PositionIndex {
  import opened Outcomes
  import opened SortedCollections
  import opened Subsequences

  /** The dictionary `posiciones_cadena`, updated in place. */
  class PositionMap {
    var table: map<char, SortedCollection>

    /** Each letter owns its own collection, and every collection is sorted. */
    ghost predicate Valid()
      reads this, table.Values
    {
      Injective(table) && forall c :: c in table ==> table[c].Valid()
    }

    /** The list each letter's collection holds. */
    ghost function Items(): map<char, seq<int>>
      reads this, table.Values
    {
      map c | c in table :: table[c].items
    }

    /** The positions each letter's collection holds, counted with multiplicity. */
    ghost function Bags(): map<char, multiset<int>>
      reads this, table.Values
    {
      BagsOf(Items())
    }

    /** `{}`: the empty dictionary. */
    constructor ()
      ensures Valid() && table == map[]
    {
      table := map[];
    }
  }

  /** No two letters share a collection object. */
  ghost predicate Injective(t: map<char, SortedCollection>) {
    forall c, d :: c in t && d in t && c != d ==> t[c] != t[d]
  }

  ghost function BagsOf(items: map<char, seq<int>>): map<char, multiset<int>> {
    map c | c in items :: multiset(items[c])
  }

  /** The positions of `s` holding `c` that are not in `gone`. */
  ghost function LiveOccurrences(s: seq<char>, c: char, gone: set<int>): multiset<int> {
    multiset(OccurrenceSet(s, c, gone))
  }

  ghost function OccurrenceSet(s: seq<char>, c: char, gone: set<int>): set<int> {
    set p | 0 <= p < |s| && s[p] == c && p !in gone
  }

  /** The index of haystack `h` once the positions in `gone` are deleted:
      one entry per letter of `h`, holding that letter's live positions. */
  ghost function LiveIndex(h: seq<char>, gone: set<int>): map<char, multiset<int>> {
    map c | c in h :: LiveOccurrences(h, c, gone)
  }

  /** The positions of `D` that hold letter `c` in `h`. */
  ghost function LetterSet(h: seq<char>, D: seq<int>, c: char): set<int> {
    set p | p in D && 0 <= p < |h| && h[p] == c
  }

  /** The index after deleting every position of `D` from the collection of its letter. */
  ghost function RemovedBags(B: map<char, multiset<int>>, h: seq<char>, D: seq<int>): map<char, multiset<int>> {
    map c | c in B :: B[c] - multiset(LetterSet(h, D, c))
  }

  /** The `(position, letter)` pairs that deleting `D` appends to the backup log. */
  function BackupOf(h: seq<char>, D: seq<int>): (bk: seq<(int, char)>)
    requires InRange(D, |h|)
    ensures |bk| == |D|
    ensures forall i :: 0 <= i < |D| ==> bk[i] == (D[i], h[D[i]])
  {
    seq(|D|, i requires 0 <= i < |D| => (D[i], h[D[i]]))
  }

  /** The positions that the pairs of `bk` file under letter `c`. */
  ghost function BackupBag(bk: seq<(int, char)>, c: char): multiset<int> {
    if bk == [] then multiset{}
    else
      var (p, letter) := bk[|bk| - 1];
      BackupBag(bk[..|bk| - 1], c) + (if letter == c then multiset{p} else multiset{})
  }

  /** The index after inserting every pair of `bk` back under its letter. */
  ghost function RestoredBags(B: map<char, multiset<int>>, bk: seq<(int, char)>): map<char, multiset<int>> {
    map c | c in B :: B[c] + BackupBag(bk, c)
  }

  /** `P` picks, for the first `|P|` needle letters in turn, a non-negative
      position from that letter's collection, in strictly increasing order. */
  ghost predicate IsPartialEmbedding(P: seq<int>, q: seq<char>, B: map<char, multiset<int>>) {
    |P| <= |q| &&
    (forall i :: 0 <= i < |P| ==> q[i] in B && 0 <= P[i] && P[i] in B[q[i]]) &&
    (forall i, j :: 0 <= i < j < |P| ==> P[i] < P[j])
  }

  /** `P` picks a position for every needle letter. */
  ghost predicate IsIndexEmbedding(P: seq<int>, q: seq<char>, B: map<char, multiset<int>>) {
    |P| == |q| && IsPartialEmbedding(P, q, B)
  }

  ghost predicate EmbedsInIndex(q: seq<char>, B: map<char, multiset<int>>) {
    exists P :: IsIndexEmbedding(P, q, B)
  }

  /** Each position of `P` is the first one of its letter after the previous
      position (after -1 for the first letter): what repeated `find_gt` picks. */
  ghost predicate IsLeftmost(P: seq<int>, q: seq<char>, B: map<char, multiset<int>>)
    requires IsPartialEmbedding(P, q, B)
  {
    forall i, x :: 0 <= i < |P| && x in B[q[i]] && (if i == 0 then -1 else P[i - 1]) < x ==> P[i] <= x
  }

  /** The last matched position, or -1 before any match. */
  function Before(P: seq<int>): int {
    if P == [] then -1 else P[|P| - 1]
  }

  /** A leftmost partial embedding lies, entry by entry, at or before any full embedding. */
  lemma {:induction false} LeftmostBelow(P: seq<int>, q: seq<char>, B: map<char, multiset<int>>, E: seq<int>, i: nat)
    requires IsPartialEmbedding(P, q, B) && IsLeftmost(P, q, B)
    requires IsIndexEmbedding(E, q, B) && i < |P|
    ensures P[i] <= E[i]
  {
    if i > 0 {
      LeftmostBelow(P, q, B, E, i - 1);
    }
  }

  /** Taking the first position of the next letter after the last match
      extends a leftmost partial embedding to a leftmost one. */
  lemma ExtendLeftmost(P: seq<int>, q: seq<char>, B: map<char, multiset<int>>, M: multiset<int>, x: int)
    requires IsPartialEmbedding(P, q, B) && IsLeftmost(P, q, B) && |P| < |q|
    requires q[|P|] in B && B[q[|P|]] == M
    requires x in M && Before(P) < x
    requires forall y :: y in M && Before(P) < y ==> x <= y
    ensures IsPartialEmbedding(P + [x], q, B) && IsLeftmost(P + [x], q, B)
    ensures Sorted(P + [x]) && Before(P + [x]) == x
  {
    ExtendEmbedding(P, q, B, M, x);
    var k := |P|;
    var P' := P + [x];
    forall i, y | 0 <= i < |P'| && y in B[q[i]] && (if i == 0 then -1 else P'[i - 1]) < y
      ensures P'[i] <= y
    {
      if i < k {
        assert P'[i] == P[i];
        assert i > 0 ==> P'[i - 1] == P[i - 1];
      } else {
        assert y in M;
      }
    }
  }

  /** Appending a position of the next letter above the last match keeps a
      partial embedding. */
  lemma ExtendEmbedding(P: seq<int>, q: seq<char>, B: map<char, multiset<int>>, M: multiset<int>, x: int)
    requires IsPartialEmbedding(P, q, B) && |P| < |q|
    requires q[|P|] in B && B[q[|P|]] == M
    requires x in M && Before(P) < x
    ensures IsPartialEmbedding(P + [x], q, B)
    ensures Sorted(P + [x]) && Before(P + [x]) == x
  {
    var k := |P|;
    var P' := P + [x];
    assert 0 <= x by {
      if k > 0 {
        assert 0 <= P[k - 1];
      }
    }
    forall i, j | 0 <= i < j < |P'| ensures P'[i] < P'[j] {
      if j == k && i < k - 1 {
        assert P[i] < P[k - 1];
      }
    }
  }

  /** When no position of the next letter follows the last match of a
      leftmost partial embedding, the needle does not embed at all. */
  lemma NoExtension(P: seq<int>, q: seq<char>, B: map<char, multiset<int>>, M: multiset<int>)
    requires IsPartialEmbedding(P, q, B) && IsLeftmost(P, q, B) && |P| < |q|
    requires q[|P|] in B && B[q[|P|]] == M
    requires !exists y :: y in M && Before(P) < y
    ensures !EmbedsInIndex(q, B)
  {
    forall E | IsIndexEmbedding(E, q, B)
      ensures Before(P) < E[|P|] && E[|P|] in M
    {
      NextAfterLast(P, q, B, E);
    }
  }

  lemma NextAfterLast(P: seq<int>, q: seq<char>, B: map<char, multiset<int>>, E: seq<int>)
    requires IsPartialEmbedding(P, q, B) && IsLeftmost(P, q, B) && |P| < |q|
    requires IsIndexEmbedding(E, q, B)
    ensures Before(P) < E[|P|]
  {
    if |P| > 0 {
      LeftmostBelow(P, q, B, E, |P| - 1);
    }
  }

  /** Inserting an entry above every other one puts it at the end. */
  lemma InsertAboveAll(s: seq<int>, x: int)
    requires Sorted(s) && Before(s) < x
    ensures BisectLeft(s, x) == |s|
    ensures s[..|s|] + [x] + s[|s|..] == s + [x]
  {
    assert forall j :: 0 <= j < |s| ==> s[j] <= Before(s);
    assert s[..|s|] == s && s[|s|..] == [];
  }

  /** A needle letter with no entry in the index cannot be embedded. */
  lemma MissingLetter(q: seq<char>, B: map<char, multiset<int>>, k: nat)
    requires k < |q| && q[k] !in B
    ensures !EmbedsInIndex(q, B)
  {
  }


  lemma LetterSetStep(h: seq<char>, D: seq<int>, c: char)
    requires |D| > 0 && Distinct(D)
    ensures multiset(LetterSet(h, D, c)) == multiset(LetterSet(h, D[..|D| - 1], c)) +
      (if 0 <= D[|D| - 1] < |h| && h[D[|D| - 1]] == c then multiset{D[|D| - 1]} else multiset{})
  {
    var last := D[|D| - 1];
    var init := D[..|D| - 1];
    assert D == init + [last];
    assert last !in init;
    if 0 <= last < |h| && h[last] == c {
      assert LetterSet(h, D, c) == LetterSet(h, init, c) + {last};
    } else {
      assert LetterSet(h, D, c) == LetterSet(h, init, c);
    }
  }
  /** `LetterSetStep` for the prefix `D[..i + 1]` of a list without repeats. */
  lemma LetterSetAt(h: seq<char>, D: seq<int>, i: nat, c: char)
    requires i < |D| && Distinct(D) && InRange(D, |h|)
    ensures multiset(LetterSet(h, D[..i + 1], c)) == multiset(LetterSet(h, D[..i], c)) +
      (if h[D[i]] == c then multiset{D[i]} else multiset{})
  {
    assert Distinct(D[..i + 1]);
    assert D[..i + 1][..i] == D[..i];
    LetterSetStep(h, D[..i + 1], c);
  }


  lemma OccurrencesStep(h: seq<char>, c: char, k: nat)
    requires k < |h|
    ensures LiveOccurrences(h[..k + 1], c, {}) ==
      LiveOccurrences(h[..k], c, {}) + (if h[k] == c then multiset{k} else multiset{})
  {
    if h[k] == c {
      assert OccurrenceSet(h[..k + 1], c, {}) == OccurrenceSet(h[..k], c, {}) + {k};
    } else {
      assert OccurrenceSet(h[..k + 1], c, {}) == OccurrenceSet(h[..k], c, {});
    }
  }

  /** The backup log of deleting `D` files each position under its own letter. */
  lemma {:induction false} BackupBagOf(h: seq<char>, D: seq<int>, c: char)
    requires Distinct(D) && InRange(D, |h|)
    ensures BackupBag(BackupOf(h, D), c) == multiset(LetterSet(h, D, c))
  {
    if D == [] {
      assert LetterSet(h, D, c) == {};
    } else {
      var init := D[..|D| - 1];
      assert BackupOf(h, D)[..|D| - 1] == BackupOf(h, init);
      BackupBagOf(h, init, c);
      LetterSetStep(h, D, c);
    }
  }

  /** Putting back the logged pairs undoes the deletion: the index returns to
      exactly what it held before, letter by letter. */
  lemma RestoreUndoesRemove(B: map<char, multiset<int>>, h: seq<char>, D: seq<int>)
    requires Distinct(D) && InRange(D, |h|)
    requires forall i :: 0 <= i < |D| ==> h[D[i]] in B && D[i] in B[h[D[i]]]
    ensures RestoredBags(RemovedBags(B, h, D), BackupOf(h, D)) == B
  {
    forall c | c in B
      ensures (B[c] - multiset(LetterSet(h, D, c))) + BackupBag(BackupOf(h, D), c) == B[c]
    {
      RestoreLetter(B, h, D, c);
    }
  }

  /** `RestoreUndoesRemove` for the collection of one letter `c`. */
  lemma RestoreLetter(B: map<char, multiset<int>>, h: seq<char>, D: seq<int>, c: char)
    requires Distinct(D) && InRange(D, |h|) && c in B
    requires forall i :: 0 <= i < |D| ==> h[D[i]] in B && D[i] in B[h[D[i]]]
    ensures (B[c] - multiset(LetterSet(h, D, c))) + BackupBag(BackupOf(h, D), c) == B[c]
  {
    BackupBagOf(h, D, c);
    var X := multiset(LetterSet(h, D, c));
    forall x | x in X ensures X[x] <= B[c][x] {
      var i :| 0 <= i < |D| && D[i] == x;
    }
    assert X <= B[c];
  }

  /** Deleting `D` from the freshly built index of `h` gives the index of `h`
      with the positions of `D` gone. */
  lemma RemovingFromLiveIndex(h: seq<char>, D: seq<int>)
    ensures RemovedBags(LiveIndex(h, {}), h, D) == LiveIndex(h, set p | p in D)
  {
    var gone := set p | p in D;
    forall c | c in h
      ensures LiveOccurrences(h, c, {}) - multiset(LetterSet(h, D, c)) == LiveOccurrences(h, c, gone)
    {
      var all := OccurrenceSet(h, c, {});
      assert LetterSet(h, D, c) <= all;
      assert OccurrenceSet(h, c, gone) == all - LetterSet(h, D, c);
    }
  }

  /** The two subsequence tests agree: walking the index of `h` with the
      positions of `D` deleted succeeds exactly when the needle is a
      subsequence of `h` with the slots of `D` blanked, for a needle without
      the blank mark. */
  lemma IndexAgreesWithBlanking(h: seq<char>, q: seq<char>, D: seq<int>)
    requires Blank !in q
    ensures EmbedsInIndex(q, LiveIndex(h, set p | p in D)) <==> IsSubsequence(q, Blanked(h, D))
  {
    var gone := set p | p in D;
    var B := LiveIndex(h, gone);
    var s := Blanked(h, D);
    if EmbedsInIndex(q, B) {
      var P :| IsIndexEmbedding(P, q, B);
      forall i | 0 <= i < |P|
        ensures 0 <= P[i] < |s| && s[P[i]] == q[i]
      {
        assert P[i] in OccurrenceSet(h, q[i], gone);
      }
      assert IsEmbedding(P, q, s);
    }
    if IsSubsequence(q, s) {
      var P :| IsEmbedding(P, q, s);
      forall i | 0 <= i < |P|
        ensures q[i] in B && P[i] in B[q[i]]
      {
        assert q[i] in q;
        assert P[i] !in D && h[P[i]] == q[i];
        assert P[i] in OccurrenceSet(h, q[i], gone);
      }
      assert IsIndexEmbedding(P, q, B);
    }
  }

  /** The index after filing every position of `s` under its letter, on top of `B`. */
  ghost function Generated(B: map<char, multiset<int>>, s: seq<char>): map<char, multiset<int>> {
    map c | c in B || c in s :: (if c in B then B[c] else multiset{}) + LiveOccurrences(s, c, {})
  }

  lemma GeneratedNothing(B: map<char, multiset<int>>)
    ensures Generated(B, []) == B
  {
    var G := Generated(B, []);
    forall c | c in B ensures G[c] == B[c] {
      assert OccurrenceSet([], c, {}) == {};
    }
  }

  lemma GeneratedKeys(B: map<char, multiset<int>>, h: seq<char>, k: nat)
    requires k < |h|
    ensures Generated(B, h[..k + 1]).Keys == Generated(B, h[..k]).Keys + {h[k]}
  {
    assert h[..k + 1] == h[..k] + [h[k]];
  }

  lemma GeneratedOther(B: map<char, multiset<int>>, h: seq<char>, k: nat, d: char)
    requires k < |h| && d != h[k] && d in Generated(B, h[..k]) && d in Generated(B, h[..k + 1])
    ensures Generated(B, h[..k + 1])[d] == Generated(B, h[..k])[d]
  {
    OccurrencesStep(h, d, k);
  }

  lemma GeneratedSame(B: map<char, multiset<int>>, h: seq<char>, k: nat)
    requires k < |h| && h[k] in Generated(B, h[..k + 1])
    ensures var G := Generated(B, h[..k]);
      Generated(B, h[..k + 1])[h[k]] == (if h[k] in G then G[h[k]] else multiset{}) + multiset{k}
  {
    var c := h[k];
    OccurrencesStep(h, c, k);
    if c !in Generated(B, h[..k]) {
      assert OccurrenceSet(h[..k], c, {}) == {};
    }
  }

  lemma GeneratedStep(B: map<char, multiset<int>>, h: seq<char>, k: nat)
    requires k < |h|
    ensures var G := Generated(B, h[..k]);
      Generated(B, h[..k + 1]) == G[h[k] := (if h[k] in G then G[h[k]] else multiset{}) + multiset{k}]
  {
    var G := Generated(B, h[..k]);
    var G' := Generated(B, h[..k + 1]);
    GeneratedKeys(B, h, k);
    forall d | d in G && d != h[k]
      ensures G'[d] == G[d]
    {
      GeneratedOther(B, h, k, d);
    }
    GeneratedSame(B, h, k);
    MapPut(G', G, h[k], (if h[k] in G then G[h[k]] else multiset{}) + multiset{k});
  }



  lemma RemovedNothing(B: map<char, multiset<int>>, h: seq<char>)
    ensures RemovedBags(B, h, []) == B
  {
    var R := RemovedBags(B, h, []);
    forall c | c in B ensures R[c] == B[c] {
      assert LetterSet(h, [], c) == {};
    }
  }

  lemma RemovedStep(B: map<char, multiset<int>>, h: seq<char>, D: seq<int>, i: nat)
    requires Distinct(D) && InRange(D, |h|) && i < |D| && h[D[i]] in B
    ensures var R := RemovedBags(B, h, D[..i]);
      h[D[i]] in R && R[h[D[i]]][D[i]] == B[h[D[i]]][D[i]] &&
      RemovedBags(B, h, D[..i + 1]) == R[h[D[i]] := R[h[D[i]]] - multiset{D[i]}]
  {
    var p := D[i];
    var R := RemovedBags(B, h, D[..i]);
    var R' := RemovedBags(B, h, D[..i + 1]);
    NotYetRemoved(B, h, D, i);
    forall c | c in B
      ensures R'[c] == if c == h[p] then R[c] - multiset{p} else R[c]
    {
      RemovedLetter(B, h, D, i, c);
    }
    MapUpdate(R', R, h[p], R[h[p]] - multiset{p});
  }

  /** Step `i` of the deletion changes only the collection of letter `h[D[i]]`. */
  lemma RemovedLetter(B: map<char, multiset<int>>, h: seq<char>, D: seq<int>, i: nat, c: char)
    requires Distinct(D) && InRange(D, |h|) && i < |D| && c in B
    ensures RemovedBags(B, h, D[..i + 1])[c] ==
      if c == h[D[i]] then RemovedBags(B, h, D[..i])[c] - multiset{D[i]} else RemovedBags(B, h, D[..i])[c]
  {
    LetterSetAt(h, D, i, c);
  }

  /** Before step `i`, position `D[i]` is still in its letter's collection as
      often as at the start, since `D` lists it only once. */
  lemma NotYetRemoved(B: map<char, multiset<int>>, h: seq<char>, D: seq<int>, i: nat)
    requires Distinct(D) && InRange(D, |h|) && i < |D| && h[D[i]] in B
    ensures var R := RemovedBags(B, h, D[..i]);
      h[D[i]] in R && R[h[D[i]]][D[i]] == B[h[D[i]]][D[i]]
  {
    assert D[i] !in D[..i];
    assert D[i] !in LetterSet(h, D[..i], h[D[i]]);
  }

  lemma MapUpdate(M': map<char, multiset<int>>, M: map<char, multiset<int>>, k: char, v: multiset<int>)
    requires k in M && M'.Keys == M.Keys && M'[k] == v
    requires forall c :: c in M && c != k ==> M'[c] == M[c]
    ensures M' == M[k := v]
  {
  }

  lemma UpdateSame(M: map<char, multiset<int>>, k: char)
    requires k in M
    ensures M[k := M[k]] == M
  {
  }

  lemma MapPut(M': map<char, multiset<int>>, M: map<char, multiset<int>>, k: char, v: multiset<int>)
    requires M'.Keys == M.Keys + {k} && M'[k] == v
    requires forall c :: c in M && c != k ==> M'[c] == M[c]
    ensures M' == M[k := v]
  {
  }

  lemma BackupBagStep(bk: seq<(int, char)>, i: nat, c: char)
    requires i < |bk|
    ensures BackupBag(bk[..i + 1], c) ==
      BackupBag(bk[..i], c) + (if bk[i].1 == c then multiset{bk[i].0} else multiset{})
  {
    assert bk[..i + 1][..i] == bk[..i];
    assert bk[..i + 1][i] == bk[i];
  }

  lemma RestoredStep(B: map<char, multiset<int>>, bk: seq<(int, char)>, i: nat)
    requires i < |bk| && bk[i].1 in B
    ensures var R := RestoredBags(B, bk[..i]);
      RestoredBags(B, bk[..i + 1]) == R[bk[i].1 := R[bk[i].1] + multiset{bk[i].0}]
  {
    var R := RestoredBags(B, bk[..i]);
    var R' := RestoredBags(B, bk[..i + 1]);
    var k := bk[i].1;
    forall c | c in B
      ensures R'[c] == R[c] + (if c == k then multiset{bk[i].0} else multiset{})
    {
      BackupBagStep(bk, i, c);
    }
    MapUpdate(R', R, k, R[k] + multiset{bk[i].0});
  }

  lemma RestoredNothing(B: map<char, multiset<int>>)
    ensures RestoredBags(B, []) == B
  {
    var R := RestoredBags(B, []);
    assert R.Keys == B.Keys;
    forall c | c in B ensures R[c] == B[c] {
      assert BackupBag([], c) == multiset{};
    }
  }

  lemma OverwriteSame(M: map<char, multiset<int>>, c: char, u: multiset<int>, v: multiset<int>)
    ensures M[c := u][c := v] == M[c := v]
  {
    var L := M[c := u][c := v];
    var R := M[c := v];
    assert L.Keys == R.Keys;
    forall d | d in L ensures L[d] == R[d] {
    }
  }

  lemma BagsOfUpdate(items: map<char, seq<int>>, c: char, l: seq<int>)
    ensures BagsOf(items[c := l]) == BagsOf(items)[c := multiset(l)]
  {
    var M' := BagsOf(items[c := l]);
    var M := BagsOf(items);
    forall d | d in M && d != c ensures M'[d] == M[d] {
    }
    MapPut(M', M, c, multiset(l));
  }

  /** Changing the contents of one letter's collection, and no other, changes
      that letter's entry of the index and keeps the index well formed;
      `items` is what the collections held before. */
  lemma OneCollectionChanged(pm: PositionMap, c: char, items: map<char, seq<int>>)
    requires c in pm.table && items.Keys == pm.table.Keys && Injective(pm.table)
    requires forall d :: d in pm.table && d != c ==> pm.table[d].items == items[d] && Sorted(items[d])
    requires pm.table[c].Valid()
    ensures pm.Valid()
    ensures pm.Bags() == BagsOf(items)[c := multiset(pm.table[c].items)]
  {
    var l := pm.table[c].items;
    assert pm.Items() == items[c := l];
    BagsOfUpdate(items, c, l);
  }

  /** Giving a new letter a new, empty collection adds an empty entry;
      `t` and `items` are the table and the collections' lists before. */
  lemma CollectionAdded(pm: PositionMap, c: char, t: map<char, SortedCollection>, items: map<char, seq<int>>)
    requires c !in t && c in pm.table && pm.table == t[c := pm.table[c]] && items.Keys == t.Keys
    requires Injective(t) && forall d :: d in t ==> t[d] != pm.table[c]
    requires forall d :: d in t ==> pm.table[d].items == items[d] && Sorted(items[d])
    requires pm.table[c].items == []
    ensures pm.Valid()
    ensures pm.Bags() == BagsOf(items)[c := multiset{}]
  {
    assert pm.Items() == items[c := []];
    BagsOfUpdate(items, c, []);
  }

  /** `dict.setdefault(c, SortedCollection())`: the collection of letter `c`,
      created empty when the letter has none. */
  method SetDefault(pm: PositionMap, c: char) returns (coll: SortedCollection)
    requires pm.Valid()
    modifies pm
    ensures pm.Valid() && c in pm.table && coll == pm.table[c]
    ensures pm.table.Keys == old(pm.table.Keys) + {c}
    ensures forall d :: d in old(pm.table) ==> pm.table[d] == old(pm.table[d])
    ensures c !in old(pm.table) ==> fresh(coll)
    ensures pm.Bags() == if c in old(pm.table) then old(pm.Bags()) else old(pm.Bags())[c := multiset{}]
  {
    if c !in pm.table {
      ghost var t := pm.table;
      ghost var items := pm.Items();
      var created := new SortedCollection();
      pm.table := pm.table[c := created];
      CollectionAdded(pm, c, t, items);
    }
    coll := pm.table[c];
  }

  /** One step of `cacadena_genera_posiciones_cadena`: files position `k`
      under letter `c`, creating the letter's collection when needed. */
  method FilePosition(pm: PositionMap, c: char, k: int)
    requires pm.Valid()
    modifies pm, pm.table.Values
    ensures pm.Valid()
    ensures pm.table.Keys == old(pm.table.Keys) + {c}
    ensures forall d :: d in old(pm.table) ==> pm.table[d] == old(pm.table[d])
    ensures forall d :: d in pm.table && d !in old(pm.table) ==> fresh(pm.table[d])
    ensures pm.Bags() == old(pm.Bags())[c := (if c in old(pm.Bags()) then old(pm.Bags())[c] else multiset{}) + multiset{k}]
  {
    ghost var B0 := pm.Bags();
    var coll := SetDefault(pm, c);
    ghost var B1 := pm.Bags();
    ghost var items := pm.Items();
    ghost var v := (if c in B0 then B0[c] else multiset{}) + multiset{k};
    assert B1 == BagsOf(items) && B1[c] == multiset(items[c]);
    assert B1[c] == (if c in B0 then B0[c] else multiset{});
    coll.Insert(k);
    forall d | d in pm.table && d != c
      ensures pm.table[d].items == items[d] && Sorted(items[d])
    {
      assert pm.table[d] != coll;
    }
    OneCollectionChanged(pm, c, items);
    assert multiset(coll.items) == v;
    if c !in B0 {
      OverwriteSame(B0, c, multiset{}, v);
    }
  }

  /** `cacadena_genera_posiciones_cadena`: files every position of `h` under
      its letter, creating a letter's collection the first time it is seen.
      Letters already present keep their collection objects; the others get
      fresh ones, so the caller may go on updating the index it built. */
  method GeneratePositions(h: seq<char>, pm: PositionMap)
    requires pm.Valid()
    modifies pm, pm.table.Values
    ensures pm.Valid()
    ensures pm.table.Keys == old(pm.table.Keys) + set c | c in h
    ensures pm.Bags() == Generated(old(pm.Bags()), h)
    ensures forall d :: d in old(pm.table) ==> pm.table[d] == old(pm.table[d])
    ensures forall c :: c in pm.table ==> pm.table[c] in old(pm.table.Values) || fresh(pm.table[c])
  {
    ghost var before := pm.Bags();
    BagsKeys(pm);
    GeneratedNothing(before);
    for k := 0 to |h|
      invariant pm.Valid()
      invariant old(pm.table).Keys <= pm.table.Keys
      invariant forall c :: c in pm.table ==>
        if c in old(pm.table) then pm.table[c] == old(pm.table[c]) else fresh(pm.table[c])
      invariant pm.Bags() == Generated(before, h[..k])
    {
      FileNext(h, pm, k, before);
    }
    assert h[..|h|] == h;
    GeneratedKeysAll(before, h);
    BagsKeys(pm);
  }

  /** The loop body of `cacadena_genera_posiciones_cadena`: filing position
      `k` extends the index built from `h[..k]` to the one built from `h[..k + 1]`. */
  method FileNext(h: seq<char>, pm: PositionMap, k: nat, ghost before: map<char, multiset<int>>)
    requires pm.Valid() && k < |h| && pm.Bags() == Generated(before, h[..k])
    modifies pm, pm.table.Values
    ensures pm.Valid() && pm.Bags() == Generated(before, h[..k + 1])
    ensures forall d :: d in old(pm.table) ==> d in pm.table && pm.table[d] == old(pm.table[d])
    ensures forall d :: d in pm.table && d !in old(pm.table) ==> fresh(pm.table[d])
  {
    GeneratedStep(before, h, k);
    FilePosition(pm, h[k], k);
  }

  lemma GeneratedKeysAll(B: map<char, multiset<int>>, s: seq<char>)
    ensures Generated(B, s).Keys == B.Keys + set c | c in s
  {
  }

  lemma BagsKeys(pm: PositionMap)
    ensures pm.Bags().Keys == pm.table.Keys
  {
  }


  /** Building the index into an empty dictionary files every position of `h`
      exactly once, under its own letter. */
  lemma GeneratedFromEmpty(h: seq<char>)
    ensures Generated(map[], h) == LiveIndex(h, {})
    ensures forall p :: 0 <= p < |h| ==> h[p] in LiveIndex(h, {}) && LiveIndex(h, {})[h[p]][p] == 1
    ensures forall c, p :: c in LiveIndex(h, {}) && !(0 <= p < |h| && h[p] == c) ==> LiveIndex(h, {})[c][p] == 0
  {
    var G := Generated(map[], h);
    var L := LiveIndex(h, {});
    forall c | c in L ensures G[c] == L[c] {
    }
    forall p | 0 <= p < |h| ensures h[p] in L && L[h[p]][p] == 1 {
      assert p in OccurrenceSet(h, h[p], {});
    }
  }


  /** `cacadena_remover_posicion`: deletes position `p` from the collection of
      its letter and returns the letter; `KeyError` when the letter has no
      collection, `ValueError` when the position is not in it. */
  method RemovePosition(h: seq<char>, pm: PositionMap, p: int) returns (r: Result<char>)
    requires pm.Valid() && 0 <= p < |h|
    modifies pm.table.Values
    ensures pm.Valid() && pm.table == old(pm.table)
    ensures h[p] !in pm.table ==> r == Failure(KeyError)
    ensures h[p] in pm.table && p !in old(pm.Bags())[h[p]] ==> r == Failure(ValueError)
    ensures h[p] in pm.table && p in old(pm.Bags())[h[p]] ==> r == Success(h[p])
    ensures pm.Bags() == if r.Success? then old(pm.Bags())[h[p] := old(pm.Bags())[h[p]] - multiset{p}]
                         else old(pm.Bags())
  {
    var c := h[p];
    if c !in pm.table {
      r := Failure(KeyError);
    } else {
      ghost var items := pm.Items();
      var coll := pm.table[c];
      var outcome := coll.Remove(p);
      forall d | d in pm.table && d != c
        ensures pm.table[d].items == items[d] && Sorted(items[d])
      {
        assert pm.table[d] != coll;
      }
      OneCollectionChanged(pm, c, items);
      if outcome.Fail? {
        UpdateSame(BagsOf(items), c);
        r := Failure(outcome.error);
      } else {
        r := Success(c);
      }
    }
  }

  /** Position `p` is filed under letter `h[p]` in `B`. */
  ghost predicate Filed(B: map<char, multiset<int>>, h: seq<char>, p: int)
    requires 0 <= p < |h|
  {
    h[p] in B && p in B[h[p]]
  }

  /** The first index of `D` whose position is not filed in `B`, or `|D|`. */
  ghost function FirstUnfiled(B: map<char, multiset<int>>, h: seq<char>, D: seq<int>): (n: nat)
    requires InRange(D, |h|)
    ensures n <= |D|
    ensures forall j :: 0 <= j < n ==> Filed(B, h, D[j])
    ensures n < |D| ==> !Filed(B, h, D[n])
  {
    if D == [] || !Filed(B, h, D[0]) then 0 else 1 + FirstUnfiled(B, h, D[1..])
  }

  /** `cadena_remover_posiciones`: deletes each position of `D` in turn, as
      `cacadena_remover_posicion` does, and appends `(position, letter)` to the
      backup log. The exception of the first position that is not filed ends
      it, leaving the deletions and log entries made so far: `ValueError` when
      its letter has a collection, `KeyError` when it has none. */
  method RemovePositions(h: seq<char>, pm: PositionMap, D: seq<int>, backup: seq<(int, char)>)
    returns (backup': seq<(int, char)>, r: Outcome)
    requires pm.Valid() && Distinct(D) && InRange(D, |h|)
    modifies pm.table.Values
    ensures pm.Valid() && pm.table == old(pm.table)
    ensures var n := FirstUnfiled(old(pm.Bags()), h, D);
      backup' == backup + BackupOf(h, D)[..n] && pm.Bags() == RemovedBags(old(pm.Bags()), h, D[..n])
    ensures r.Pass? <==> FirstUnfiled(old(pm.Bags()), h, D) == |D|
    ensures r.Fail? ==> var n := FirstUnfiled(old(pm.Bags()), h, D);
      r.error == if h[D[n]] in old(pm.Bags()) then ValueError else KeyError
  {
    ghost var before := pm.Bags();
    ghost var stop := FirstUnfiled(before, h, D);
    RemovedNothing(before, h);
    BagsKeys(pm);
    backup' := backup;
    r := Pass;
    var i := 0;
    while i < |D| && r.Pass?
      invariant i <= stop && pm.Valid() && pm.table == old(pm.table)
      invariant backup' == backup + BackupOf(h, D)[..i]
      invariant pm.Bags() == RemovedBags(before, h, D[..i])
      invariant r.Fail? ==> i == stop < |D| && r.error == if h[D[i]] in before then ValueError else KeyError
      decreases |D| - i, if r.Pass? then 1 else 0
    {
      backup', r := RemoveNext(h, pm, D, i, before, backup, backup');
      if r.Pass? {
        i := i + 1;
      }
    }
  }

  /** One turn of `cadena_remover_posiciones`: deletes `D[i]` and logs it; on
      the exception nothing changes. */
  method RemoveNext(h: seq<char>, pm: PositionMap, D: seq<int>, i: nat, ghost before: map<char, multiset<int>>,
                    ghost backup: seq<(int, char)>, log: seq<(int, char)>)
    returns (log': seq<(int, char)>, r: Outcome)
    requires pm.Valid() && Distinct(D) && InRange(D, |h|) && i < |D|
    requires before.Keys == pm.table.Keys
    requires pm.Bags() == RemovedBags(before, h, D[..i]) && log == backup + BackupOf(h, D)[..i]
    modifies pm.table.Values
    ensures pm.Valid() && pm.table == old(pm.table)
    ensures r.Pass? <==> Filed(before, h, D[i])
    ensures r.Fail? ==> r.error == (if h[D[i]] in before then ValueError else KeyError)
    ensures r.Fail? ==> pm.Bags() == old(pm.Bags()) && log' == log
    ensures r.Pass? ==> pm.Bags() == RemovedBags(before, h, D[..i + 1]) && log' == backup + BackupOf(h, D)[..i + 1]
  {
    var p := D[i];
    BagsKeys(pm);
    if h[p] in before {
      RemovedStep(before, h, D, i);
    }
    var letter := RemovePosition(h, pm, p);
    if letter.Failure? {
      r, log' := Fail(letter.error), log;
    } else {
      BackupAppend(h, D, i, backup, log);
      r, log' := Pass, log + [(p, h[p])];
    }
  }

  lemma BackupAppend(h: seq<char>, D: seq<int>, i: nat, backup: seq<(int, char)>, log: seq<(int, char)>)
    requires InRange(D, |h|) && i < |D| && log == backup + BackupOf(h, D)[..i]
    ensures log + [(D[i], h[D[i]])] == backup + BackupOf(h, D)[..i + 1]
  {
    var bk := BackupOf(h, D);
    assert bk[..i + 1] == bk[..i] + [bk[i]];
  }


  /** The first entry of `bk` whose letter is not among `keys`, or `|bk|`
      when there is none. */
  function FirstAbsent(bk: seq<(int, char)>, keys: set<char>): (n: nat)
    ensures n <= |bk|
    ensures forall i :: 0 <= i < n ==> bk[i].1 in keys
    ensures n < |bk| ==> bk[n].1 !in keys
  {
    if bk == [] || bk[0].1 !in keys then 0 else 1 + FirstAbsent(bk[1..], keys)
  }

  /** `cadena_restaurar_posiciones`: inserts every logged position back into
      the collection of its logged letter. At the first logged letter with no
      collection it stops with `KeyError`, keeping the insertions made so far. */
  method RestorePositions(pm: PositionMap, backup: seq<(int, char)>) returns (r: Outcome)
    requires pm.Valid()
    modifies pm.table.Values
    ensures pm.Valid() && pm.table == old(pm.table)
    ensures var n := FirstAbsent(backup, old(pm.table.Keys));
      pm.Bags() == RestoredBags(old(pm.Bags()), backup[..n]) && (r.Pass? <==> n == |backup|)
    ensures r.Fail? ==> r.error == KeyError
  {
    ghost var before := pm.Bags();
    ghost var stop := FirstAbsent(backup, pm.table.Keys);
    RestoredNothing(before);
    r := Pass;
    var i := 0;
    while i < |backup| && r.Pass?
      invariant i <= stop && pm.Valid() && pm.table == old(pm.table)
      invariant pm.Bags() == RestoredBags(before, backup[..i])
      invariant r.Fail? ==> i == stop < |backup| && r.error == KeyError
      decreases |backup| - i, if r.Pass? then 1 else 0
    {
      if backup[i].1 !in pm.table {
        r := Fail(KeyError);
      } else {
        RestoreNext(pm, backup, i, before);
        i := i + 1;
      }
    }
  }

  /** The loop body of `cadena_restaurar_posiciones`: re-inserting pair `i`
      extends the restoration of `backup[..i]` to that of `backup[..i + 1]`. */
  method RestoreNext(pm: PositionMap, backup: seq<(int, char)>, i: nat, ghost before: map<char, multiset<int>>)
    requires pm.Valid() && i < |backup| && backup[i].1 in pm.table
    requires pm.Bags() == RestoredBags(before, backup[..i])
    modifies pm.table.Values
    ensures pm.Valid() && pm.table == old(pm.table)
    ensures pm.Bags() == RestoredBags(before, backup[..i + 1])
  {
    var (p, letter) := backup[i];
    BagsKeys(pm);
    RestoredStep(before, backup, i);
    ghost var items := pm.Items();
    var coll := pm.table[letter];
    coll.Insert(p);
    forall d | d in pm.table && d != letter
      ensures pm.table[d].items == items[d] && Sorted(items[d])
    {
      assert pm.table[d] != coll;
    }
    OneCollectionChanged(pm, letter, items);
  }

  /** `cadena_poner_posiciones`: appends `(position, letter)` for each position
      of `D` to the log, then restores the WHOLE log, entries that were in it
      beforehand included, with the outcome of `cadena_restaurar_posiciones`. */
  method PutPositions(h: seq<char>, pm: PositionMap, D: seq<int>, backup: seq<(int, char)>)
    returns (backup': seq<(int, char)>, r: Outcome)
    requires pm.Valid() && InRange(D, |h|)
    modifies pm.table.Values
    ensures pm.Valid() && pm.table == old(pm.table)
    ensures backup' == backup + BackupOf(h, D)
    ensures var n := FirstAbsent(backup', old(pm.table.Keys));
      pm.Bags() == RestoredBags(old(pm.Bags()), backup'[..n]) && (r.Pass? <==> n == |backup'|)
    ensures r.Fail? ==> r.error == KeyError
  {
    backup' := backup;
    for i := 0 to |D|
      invariant backup' == backup + BackupOf(h, D)[..i]
    {
      backup' := backup' + [(D[i], h[D[i]])];
    }
    assert BackupOf(h, D)[..|D|] == BackupOf(h, D);
    r := RestorePositions(pm, backup');
  }

  /** `cacadena_es_subsequencia`: walks the needle, asking each letter's
      collection for its first position after the last match (`find_gt`,
      starting after -1). Returns the matched positions (the contents of the
      collection it builds), `None` as soon as a lookup fails, or `KeyError`
      when it reaches a letter with no collection. It only reads the index. */
  method IndexedSubsequence(q: seq<char>, pm: PositionMap) returns (r: Result<Option<seq<int>>>)
    requires pm.Valid()
    ensures r.Success? && r.value.Some? <==> EmbedsInIndex(q, pm.Bags())
    ensures r.Success? && r.value.Some? ==>
      IsIndexEmbedding(r.value.value, q, pm.Bags()) && IsLeftmost(r.value.value, q, pm.Bags())
    ensures r.Failure? ==> r.error == KeyError && exists i :: 0 <= i < |q| && q[i] !in pm.table
    ensures r.Failure? <==> exists k :: 0 <= k < |q| && q[k] !in pm.table && EmbedsInIndex(q[..k], pm.Bags())
    ensures (forall i :: 0 <= i < |q| ==> q[i] in pm.table) ==> r.Success?
  {
    BagsKeys(pm);
    var matched, k, missing, stuck := Walk(q, pm, pm.Bags());
    WalkVerdict(q, pm.Bags(), matched, missing, stuck);
    if missing {
      r := Failure(KeyError);
    } else if stuck {
      r := Success(None);
    } else {
      r := Success(Some(matched));
    }
  }

  /** What the way the walk ended says about the needle: it ends at a missing
      letter exactly when some missing letter has an embeddable prefix before
      it, and it matches the whole needle exactly when the needle embeds. */
  lemma WalkVerdict(q: seq<char>, B: map<char, multiset<int>>, matched: seq<int>, missing: bool, stuck: bool)
    requires WalkEnded(q, B, matched, missing, stuck)
    ensures missing <==> exists k :: 0 <= k < |q| && q[k] !in B && EmbedsInIndex(q[..k], B)
    ensures !missing && !stuck <==> EmbedsInIndex(q, B)
  {
    if missing {
      MissingLetter(q, B, |matched|);
      PartialEmbeds(matched, q, B);
    } else {
      WalkReachesNoMissing(q, B, matched, stuck);
    }
  }

  /** A partial embedding is a full embedding of the needle prefix it covers. */
  lemma PartialEmbeds(P: seq<int>, q: seq<char>, B: map<char, multiset<int>>)
    requires IsPartialEmbedding(P, q, B)
    ensures IsIndexEmbedding(P, q[..|P|], B) && EmbedsInIndex(q[..|P|], B)
  {
    assert IsIndexEmbedding(P, q[..|P|], B);
  }

  /** With no embedding of the prefix `q[..j]` there is none of a longer prefix. */
  lemma NoLongerEmbedding(q: seq<char>, B: map<char, multiset<int>>, j: nat, m: nat)
    requires j <= m <= |q| && !EmbedsInIndex(q[..j], B)
    ensures !EmbedsInIndex(q[..m], B)
  {
    forall E | IsIndexEmbedding(E, q[..m], B)
      ensures IsIndexEmbedding(E[..j], q[..j], B)
    {
      assert forall i :: 0 <= i < j ==> E[..j][i] == E[i] && q[..j][i] == q[..m][i];
    }
  }

  /** What the walk knows carries over to any needle prefix it already covers. */
  lemma WalkedPrefix(P: seq<int>, q: seq<char>, B: map<char, multiset<int>>, j: nat)
    requires IsPartialEmbedding(P, q, B) && IsLeftmost(P, q, B) && |P| <= j <= |q|
    ensures IsPartialEmbedding(P, q[..j], B) && IsLeftmost(P, q[..j], B)
  {
  }

  /** When the walk does not end at a missing letter, the needle prefix before
      any missing letter has no embedding: either the walk matched the whole
      needle, which then has no missing letter, or it got stuck at a letter
      whose prefix does not embed. */
  lemma WalkReachesNoMissing(q: seq<char>, B: map<char, multiset<int>>, matched: seq<int>, stuck: bool)
    requires IsPartialEmbedding(matched, q, B)
    requires stuck ==> |matched| < |q| && q[|matched|] in B && !EmbedsInIndex(q[..|matched| + 1], B)
    requires !stuck ==> |matched| == |q|
    ensures forall k :: 0 <= k < |q| && q[k] !in B ==> !EmbedsInIndex(q[..k], B)
  {
    forall k | 0 <= k < |q| && q[k] !in B
      ensures !EmbedsInIndex(q[..k], B)
    {
      if |matched| < k {
        NoLongerEmbedding(q, B, |matched| + 1, k);
      }
    }
  }

  /** The loop of `cacadena_es_subsequencia` over the index `pm`, whose
      contents are `B`. It stops at needle letter `k` when that letter has
      no collection (`missing`) or no position after the last match
      (`stuck`); otherwise it matches the whole needle. */
  method Walk(q: seq<char>, pm: PositionMap, ghost B: map<char, multiset<int>>)
    returns (matched: seq<int>, k: nat, missing: bool, stuck: bool)
    requires pm.Valid() && pm.Bags() == B
    ensures k == |matched| && WalkEnded(q, B, matched, missing, stuck)
  {
    var last := -1;
    matched := [];
    k := 0;
    missing, stuck := false, false;
    while k < |q|
      invariant k == |matched| && Walked(matched, q, B, last)
      invariant !missing && !stuck
    {
      var found;
      matched, last, found, missing, stuck := Advance(q, pm, B, matched, last);
      if !found {
        break;
      }
      k := k + 1;
    }
  }

  /** One turn of the walk: `find_gt` for needle letter `|P|` after `last`,
      then `posiciones_subseq.insert` of the position found. */
  method Advance(q: seq<char>, pm: PositionMap, ghost B: map<char, multiset<int>>, P: seq<int>, last: int)
    returns (P': seq<int>, last': int, found: bool, missing: bool, stuck: bool)
    requires pm.Valid() && pm.Bags() == B
    requires |P| < |q| && Walked(P, q, B, last)
    ensures found <==> !missing && !stuck
    ensures missing <==> q[|P|] !in B
    ensures stuck ==> !missing && !EmbedsInIndex(q[..|P| + 1], B) && !EmbedsInIndex(q, B)
    ensures found ==> |P'| == |P| + 1 && Walked(P', q, B, last')
    ensures !found ==> P' == P && last' == last && WalkEnded(q, B, P, missing, stuck)
  {
    P', last' := P, last;
    found, missing, stuck := false, false, false;
    var next := NextPosition(pm, q[|P|], last);
    if next.Failure? {
      if next.error == KeyError {
        missing := true;
      } else {
        WalkedPrefix(P, q, B, |P| + 1);
        NoExtension(P, q[..|P| + 1], B, B[q[|P|]]);
        NoExtension(P, q, B, B[q[|P|]]);
        stuck := true;
      }
    } else {
      last' := next.value;
      WalkStep(P, q, B, B[q[|P|]], last');
      // the new position lies above every earlier one, so the insertion
      // point is the end
      var at := BisectLeft(P, last');
      P' := P[..at] + [last'] + P[at..];
      found := true;
    }
  }

  /** How the walk ends with the positions `matched`: it stops short of the
      whole needle exactly when it meets a letter with no collection
      (`missing`) or a letter with no position after the last match (`stuck`,
      and then the needle prefix up to that letter has no embedding);
      otherwise `matched` embeds the whole needle. In every case `matched` is
      a leftmost partial embedding. */
  ghost predicate WalkEnded(q: seq<char>, B: map<char, multiset<int>>, matched: seq<int>, missing: bool, stuck: bool) {
    Walked(matched, q, B, Before(matched)) &&
    ((missing || stuck) <==> |matched| < |q|) &&
    (missing ==> !stuck && q[|matched|] !in B) &&
    (stuck ==> q[|matched|] in B && !EmbedsInIndex(q[..|matched| + 1], B) && !EmbedsInIndex(q, B)) &&
    (!missing && !stuck ==> IsIndexEmbedding(matched, q, B))
  }

  /** What the walk knows after matching `P`: a sorted, leftmost partial
      embedding whose last entry is `last`. */
  ghost predicate Walked(P: seq<int>, q: seq<char>, B: map<char, multiset<int>>, last: int) {
    IsPartialEmbedding(P, q, B) && IsLeftmost(P, q, B) && Sorted(P) && last == Before(P)
  }

  /** One successful `find_gt` step of the walk, including the insertion of
      the new position at the end of the matched list. */
  lemma WalkStep(P: seq<int>, q: seq<char>, B: map<char, multiset<int>>, M: multiset<int>, x: int)
    requires Walked(P, q, B, Before(P)) && |P| < |q|
    requires q[|P|] in B && B[q[|P|]] == M
    requires x in M && Before(P) < x
    requires forall y :: y in M && Before(P) < y ==> x <= y
    ensures BisectLeft(P, x) == |P| && P[..|P|] + [x] + P[|P|..] == P + [x]
    ensures Walked(P + [x], q, B, x)
  {
    ExtendLeftmost(P, q, B, M, x);
    InsertAboveAll(P, x);
  }

  /** `posiciones_cadenota[c].find_gt(last)`: the first position of letter
      `c` after `last`; `KeyError` when the letter has no collection,
      `ValueError` when no position of it follows `last`. */
  function NextPosition(pm: PositionMap, c: char, last: int): (r: Result<int>)
    reads pm, pm.table.Values
    requires pm.Valid()
    ensures r == Failure(KeyError) <==> c !in pm.Bags()
    ensures r.Failure? ==> r.error == KeyError || r.error == ValueError
    ensures c in pm.Bags() ==> (r.Success? <==> exists y :: y in pm.Bags()[c] && last < y)
    ensures r.Success? ==> c in pm.Bags() && r.value in pm.Bags()[c] && last < r.value
    ensures r.Success? ==> forall y :: y in pm.Bags()[c] && last < y ==> r.value <= y
  {
    BagsKeys(pm);
    if c !in pm.table then Failure(KeyError)
    else
      CollectionBag(pm, c);
      var r := pm.table[c].FindGt(last);
      assert r.Success? ==> r.value in pm.Bags()[c];
      assert forall y :: y in pm.Bags()[c] ==> y in pm.table[c].items;
      r
  }

  lemma CollectionBag(pm: PositionMap, c: char)
    requires c in pm.table
    ensures c in pm.Bags() && pm.Bags()[c] == multiset(pm.table[c].items)
  {
  }


}
