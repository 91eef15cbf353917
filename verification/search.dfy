/** The driver `cacadena_core`: a galloping binary search for how many
    leading entries of the deletion order can be blanked out of the haystack
    while the needle stays a subsequence. It keeps one working copy of the
    haystack, blanks (`cadena_quitar_caca`) or restores (`cadena_poner_caca`)
    one block of the deletion order per probe, and rescans the copy with
    `cadena_find_caca`. */
module Search {
  import opened Subsequences

  function Min(a: nat, b: nat): (m: nat)
    ensures m <= a && m <= b && (m == a || m == b)
  {
    if a <= b then a else b
  }

  /** The needle survives deleting the first `m` entries of the deletion
      order; like a Python slice, `m` beyond the end means the whole order. */
  ghost predicate Feasible(h: seq<char>, q: seq<char>, D: seq<int>, m: nat) {
    IsSubsequence(q, Blanked(h, D[..Min(m, |D|)]))
  }

  /** Every count from 0 to `|D|` is feasible. */
  ghost predicate AllFeasible(h: seq<char>, q: seq<char>, D: seq<int>) {
    forall m: nat :: m <= |D| ==> Feasible(h, q, D, m)
  }

  /** `r` is where feasibility stops: `r` itself is feasible (or zero) and
      one more deletion is not. */
  ghost predicate IsBoundary(h: seq<char>, q: seq<char>, D: seq<int>, r: nat) {
    (r == 0 || Feasible(h, q, D, r)) && !Feasible(h, q, D, r + 1)
  }

  /** `s` with every slot listed in `slots` copied back from the original `h`. */
  function Restored(s: seq<char>, h: seq<char>, slots: seq<int>): (r: seq<char>)
    requires |s| == |h|
    ensures |r| == |s|
  {
    seq(|s|, p requires 0 <= p < |s| => if p in slots then h[p] else s[p])
  }

  /** Blanking one block after another is blanking both at once. */
  lemma BlankedTwice(h: seq<char>, A: seq<int>, B: seq<int>)
    ensures Blanked(Blanked(h, A), B) == Blanked(h, A + B)
  {
    var l := Blanked(Blanked(h, A), B);
    var r := Blanked(h, A + B);
    forall p | 0 <= p < |h| ensures l[p] == r[p] {
      assert p in A + B <==> p in A || p in B;
    }
  }

  /** Restoring a block that was blanked after `A`, and shares no slot with
      it, gives back the haystack with only `A` blanked. */
  lemma RestoreBlanked(h: seq<char>, A: seq<int>, B: seq<int>)
    requires forall p :: p in B ==> p !in A
    ensures Restored(Blanked(h, A + B), h, B) == Blanked(h, A)
  {
    var l := Restored(Blanked(h, A + B), h, B);
    var r := Blanked(h, A);
    forall p | 0 <= p < |h| ensures l[p] == r[p] {
      assert p in A + B <==> p in A || p in B;
    }
  }

  /** The deletion-order prefix of length `j`, cut at `i`. */
  lemma PrefixSplit(D: seq<int>, i: nat, j: nat)
    requires i <= j <= |D|
    ensures D[..i] + D[i..j] == D[..j]
  {
  }

  /** A block of a deletion order without repeats shares no slot with the prefix before it. */
  lemma BlockDisjoint(D: seq<int>, i: nat, j: nat)
    requires Distinct(D) && i <= j <= |D|
    ensures forall p :: p in D[i..j] ==> p !in D[..i]
  {
  }

  /** A deletion order without repeats, inside a haystack of length `n`, has at most `n` entries. */
  lemma DistinctInRangeBound(D: seq<int>, n: nat)
    requires Distinct(D) && InRange(D, n)
    ensures |D| <= n
  {
    var R := seq(n, i => i);
    assert Distinct(R);
    var S := set p | p in D;
    var T := set p | p in R;
    forall p | p in D ensures p in R {
      assert R[p] == p;
    }
    DistinctCardinality(D);
    DistinctCardinality(R);
    SubsetCardinality(S, T);
  }

  lemma {:induction false} DistinctCardinality(D: seq<int>)
    requires Distinct(D)
    ensures |set p | p in D| == |D|
  {
    if D != [] {
      var init := D[..|D| - 1];
      var last := D[|D| - 1];
      assert Distinct(init);
      DistinctCardinality(init);
      assert D == init + [last];
      assert last !in init;
      assert (set p | p in D) == (set p | p in init) + {last};
    }
  }

  lemma SubsetCardinality(S: set<int>, T: set<int>)
    requires S <= T
    ensures |S| <= |T|
  {
    assert T == S + (T - S);
  }

  /** When the needle does not use the blank mark, feasibility only gets
      harder with more deletions. */
  lemma FeasibleDownward(h: seq<char>, q: seq<char>, D: seq<int>, m: nat, k: nat)
    requires Blank !in q && k <= m && Feasible(h, q, D, m)
    ensures Feasible(h, q, D, k)
  {
    BlankingMonotone(q, h, D[..Min(k, |D|)], D[..Min(m, |D|)]);
  }

  /** With a needle free of the blank mark the boundary is the largest
      feasible count, and it is feasible whenever deleting nothing is. */
  lemma BoundaryIsLargestFeasible(h: seq<char>, q: seq<char>, D: seq<int>, r: nat)
    requires Blank !in q && IsBoundary(h, q, D, r)
    ensures forall m: nat :: Feasible(h, q, D, m) ==> m <= r
    ensures Feasible(h, q, D, 0) ==> Feasible(h, q, D, r)
  {
    forall m: nat | Feasible(h, q, D, m) ensures m <= r {
      if m > r {
        FeasibleDownward(h, q, D, m, r + 1);
      }
    }
  }

  /** The boundary is unique when the needle does not use the blank mark. */
  lemma BoundaryUnique(h: seq<char>, q: seq<char>, D: seq<int>, r1: nat, r2: nat)
    requires Blank !in q && IsBoundary(h, q, D, r1) && IsBoundary(h, q, D, r2)
    ensures r1 == r2
  {
    BoundaryIsLargestFeasible(h, q, D, r1);
    BoundaryIsLargestFeasible(h, q, D, r2);
  }

  /** An empty needle survives any deletion. */
  lemma EmptyNeedleFeasible(h: seq<char>, D: seq<int>)
    ensures AllFeasible(h, [], D)
  {
    forall m | 0 <= m <= |D| ensures Feasible(h, [], D, m) {
      assert IsEmbedding([], [], Blanked(h, D[..m]));
    }
  }

  ghost predicate IsPow2(c: nat) {
    c == 1 || (c > 1 && c % 2 == 0 && IsPow2(c / 2))
  }

  /** `c` is the smallest power of two at or above `n` (1 when `n` is 0 or 1). */
  ghost predicate CapacityFor(n: nat, c: nat) {
    IsPow2(c) && n <= c && (c == 1 || c / 2 < n)
  }

  lemma {:induction false} Pow2Below(a: nat, b: nat)
    requires IsPow2(a) && IsPow2(b) && a < b
    ensures b % 2 == 0 && a <= b / 2
  {
    if a > 1 {
      Pow2Below(a / 2, b / 2);
    }
  }

  /** There is only one capacity for a length. */
  lemma CapacityUnique(n: nat, c1: nat, c2: nat)
    requires CapacityFor(n, c1) && CapacityFor(n, c2)
    ensures c1 == c2
  {
    if c1 < c2 {
      Pow2Below(c1, c2);
    } else if c2 < c1 {
      Pow2Below(c2, c1);
    }
  }

  /** The `exp_2` loop: doubles from 1 until it reaches `n`. */
  method CeilPowerOfTwo(n: nat) returns (c: nat)
    ensures CapacityFor(n, c)
  {
    c := 1;
    while c < n
      invariant IsPow2(c) && (c == 1 || c / 2 < n)
      decreases n - c
    {
      c := c * 2;
    }
  }

  /** `cadena_quitar_caca`: writes the blank mark into each listed slot of the working copy. */
  method BlankSlots(tmp: array<char>, slots: seq<int>)
    requires InRange(slots, tmp.Length)
    modifies tmp
    ensures tmp[..] == Blanked(old(tmp[..]), slots)
  {
    ghost var s := tmp[..];
    for i := 0 to |slots|
      invariant tmp[..] == Blanked(s, slots[..i])
    {
      BlankedTwice(s, slots[..i], [slots[i]]);
      assert slots[..i] + [slots[i]] == slots[..i + 1];
      tmp[slots[i]] := Blank;
    }
    assert slots[..|slots|] == slots;
  }

  /** `cadena_poner_caca`: copies each listed slot back from the haystack `h`. */
  method RestoreSlots(h: seq<char>, tmp: array<char>, slots: seq<int>)
    requires tmp.Length == |h| && InRange(slots, |h|)
    modifies tmp
    ensures tmp[..] == Restored(old(tmp[..]), h, slots)
  {
    ghost var s := tmp[..];
    for i := 0 to |slots|
      invariant tmp[..] == Restored(s, h, slots[..i])
    {
      assert slots[..i + 1] == slots[..i] + [slots[i]];
      tmp[slots[i]] := h[slots[i]];
    }
    assert slots[..|slots|] == slots;
  }

  /** The state the driver keeps between probes: `cap` is the capacity of
      the haystack, `delta` the current step, `ub` (`ultimo_bueno`) the last
      count found feasible and `tam` (`tam_brinco`) the count now blanked in
      the working copy. In add mode the next probe is `ub + delta`; in
      subtract mode `tam` overshoots it by `delta`. */
  ghost predicate Galloping(h: seq<char>, q: seq<char>, D: seq<int>, cap: nat, add: bool, delta: nat, tam: nat, ub: nat) {
    CapacityFor(|h|, cap) && IsPow2(delta) && 1 <= delta <= cap &&
    (delta == cap || delta < |h|) &&
    (if add then tam == ub else tam == ub + 2 * delta) &&
    (ub == 0 || Feasible(h, q, D, ub)) &&
    (!Feasible(h, q, D, |D|) ==> !Feasible(h, q, D, ub + 2 * delta)) &&
    (AllFeasible(h, q, D) ==> add && ub == 2 * cap - 2 * delta) &&
    (AllFeasible(h, q, D) && cap == |h| ==> delta == cap)
  }

  /** What the driver promises of its result `r`. */
  ghost predicate SearchOutcome(h: seq<char>, q: seq<char>, D: seq<int>, r: nat) {
    (r == 0 || Feasible(h, q, D, r)) &&
    (!Feasible(h, q, D, |D|) ==> r <= |D| && IsBoundary(h, q, D, r)) &&
    (AllFeasible(h, q, D) ==>
      exists c: nat :: CapacityFor(|h|, c) && r == if c == |h| then c else 2 * c - 1)
  }

  lemma GallopStart(h: seq<char>, q: seq<char>, D: seq<int>, cap: nat)
    requires Distinct(D) && InRange(D, |h|) && CapacityFor(|h|, cap)
    ensures Galloping(h, q, D, cap, true, cap, 0, 0)
  {
    DistinctInRangeBound(D, |h|);
    assert Min(2 * cap, |D|) == |D|;
  }

  /** A feasible probe that does not stop the search becomes the new last good count. */
  lemma GallopFound(h: seq<char>, q: seq<char>, D: seq<int>, cap: nat, add: bool, delta: nat, tam: nat, ub: nat)
    requires Galloping(h, q, D, cap, add, delta, tam, ub)
    requires Feasible(h, q, D, ub + delta) && delta != |h| && delta != 1
    ensures Galloping(h, q, D, cap, true, delta / 2, ub + delta, ub + delta)
  {
  }

  /** An infeasible probe that does not stop the search switches to restoring. */
  lemma GallopMissed(h: seq<char>, q: seq<char>, D: seq<int>, cap: nat, add: bool, delta: nat, tam: nat, ub: nat)
    requires Galloping(h, q, D, cap, add, delta, tam, ub)
    requires !Feasible(h, q, D, ub + delta) && delta != 1
    ensures Galloping(h, q, D, cap, false, delta / 2, ub + delta, ub)
  {
    var m := Min(ub + delta, |D|);
    assert AllFeasible(h, q, D) ==> Feasible(h, q, D, m);
  }

  /** A feasible probe at the haystack length or at step 1 ends the search with the probe. */
  lemma GallopStopFound(h: seq<char>, q: seq<char>, D: seq<int>, cap: nat, add: bool, delta: nat, tam: nat, ub: nat)
    requires Distinct(D) && InRange(D, |h|)
    requires Galloping(h, q, D, cap, add, delta, tam, ub)
    requires Feasible(h, q, D, ub + delta) && (delta == |h| || delta == 1)
    ensures SearchOutcome(h, q, D, ub + delta)
  {
    DistinctInRangeBound(D, |h|);
    if AllFeasible(h, q, D) {
      if cap == |h| {
        assert ub + delta == cap;
      }
    }
  }

  /** An infeasible probe at step 1 ends the search with the last good count. */
  lemma GallopStopMissed(h: seq<char>, q: seq<char>, D: seq<int>, cap: nat, add: bool, delta: nat, tam: nat, ub: nat)
    requires Galloping(h, q, D, cap, add, delta, tam, ub)
    requires !Feasible(h, q, D, ub + delta) && delta == 1
    ensures SearchOutcome(h, q, D, ub)
  {
    var m := Min(ub + delta, |D|);
    assert AllFeasible(h, q, D) ==> Feasible(h, q, D, m);
  }

  /** One probe of the driver (the loop body up to `cadena_find_caca`):
      moves `tam` by `delta`, blanks the newly covered block of the deletion
      order or restores the uncovered one, and rescans the working copy. */
  method Probe(h: seq<char>, q: seq<char>, D: seq<int>, tmp: array<char>, add: bool, tam: nat, delta: nat)
    returns (t: nat, found: bool)
    requires Distinct(D) && InRange(D, |h|) && tmp.Length == |h|
    requires tmp[..] == Blanked(h, D[..Min(tam, |D|)])
    requires 1 <= delta && (add || delta < tam)
    modifies tmp
    ensures t == if add then tam + delta else tam - delta
    ensures 1 <= t
    ensures tmp[..] == Blanked(h, D[..Min(t, |D|)])
    ensures found <==> Feasible(h, q, D, t)
  {
    var L := |D|;
    if add {
      t := tam + delta;
      ProbeAfterBlanking(h, D, tam, t);
      BlankSlots(tmp, D[Min(tam, L)..Min(t, L)]);
    } else {
      t := tam - delta;
      ProbeAfterRestoring(h, D, t, tam);
      RestoreSlots(h, tmp, D[Min(t, L)..Min(tam, L)]);
    }
    found := ScanSubsequence(tmp, q);
  }

  /** `cacadena_core` as written. The deletion order must list distinct
      haystack positions. The result is zero or feasible; when deleting the
      whole order is not feasible, it is a boundary inside the order. When
      every count is feasible the code returns the haystack length if that is
      a power of two and `2 * capacity - 1` otherwise, which can exceed `|D|`. */
  method CoreSearch(h: seq<char>, q: seq<char>, D: seq<int>) returns (r: nat)
    requires Distinct(D) && InRange(D, |h|)
    ensures r == 0 || Feasible(h, q, D, r)
    ensures !Feasible(h, q, D, |D|) ==> r <= |D| && IsBoundary(h, q, D, r)
    ensures AllFeasible(h, q, D) ==>
      exists c: nat :: CapacityFor(|h|, c) && r == if c == |h| then c else 2 * c - 1
  {
    var add := true;
    var cap := CeilPowerOfTwo(|h|);
    var delta: nat := cap;
    var tam: nat := 0;
    var ub: nat := 0;
    var tmp := new char[|h|](i requires 0 <= i < |h| => h[i]);
    assert tmp[..] == Blanked(h, D[..0]);
    GallopStart(h, q, D, cap);
    while true
      invariant Galloping(h, q, D, cap, add, delta, tam, ub)
      invariant tmp.Length == |h| && tmp[..] == Blanked(h, D[..Min(tam, |D|)])
      decreases delta
    {
      var stop;
      add, delta, tam, ub, stop := Round(h, q, D, tmp, cap, add, delta, tam, ub);
      if stop {
        break;
      }
    }
    r := if tam != 0 then tam else ub;
  }

  /** One round of the `while True` loop of `cacadena_core`: a probe, then
      either the exit (`tam` is zeroed when the last step-1 probe failed) or
      the switch of direction and the halving of `delta`. */
  method Round(h: seq<char>, q: seq<char>, D: seq<int>, tmp: array<char>,
               cap: nat, add: bool, delta: nat, tam: nat, ub: nat)
    returns (add': bool, delta': nat, tam': nat, ub': nat, stop: bool)
    requires Distinct(D) && InRange(D, |h|)
    requires Galloping(h, q, D, cap, add, delta, tam, ub)
    requires tmp.Length == |h| && tmp[..] == Blanked(h, D[..Min(tam, |D|)])
    modifies tmp
    ensures stop ==> SearchOutcome(h, q, D, if tam' != 0 then tam' else ub')
    ensures !stop ==> Galloping(h, q, D, cap, add', delta', tam', ub') && delta' < delta
    ensures !stop ==> tmp[..] == Blanked(h, D[..Min(tam', |D|)])
  {
    var found;
    add', delta', ub', stop := add, delta, ub, false;
    tam', found := Probe(h, q, D, tmp, add, tam, delta);
    if found {
      if delta == |h| || delta == 1 {
        GallopStopFound(h, q, D, cap, add, delta, tam, ub);
        stop := true;
      } else {
        GallopFound(h, q, D, cap, add, delta, tam, ub);
        add', ub', delta' := true, tam', delta / 2;
      }
    } else if delta == 1 {
      GallopStopMissed(h, q, D, cap, add, delta, tam, ub);
      tam', stop := 0, true;
    } else {
      GallopMissed(h, q, D, cap, add, delta, tam, ub);
      add', delta' := false, delta / 2;
    }
  }

  /** Blanking the block `[a, b)` on top of the first `a` entries blanks the first `b`. */
  lemma ProbeAfterBlanking(h: seq<char>, D: seq<int>, a: nat, b: nat)
    requires a <= b
    ensures Blanked(Blanked(h, D[..Min(a, |D|)]), D[Min(a, |D|)..Min(b, |D|)]) == Blanked(h, D[..Min(b, |D|)])
  {
    BlankedTwice(h, D[..Min(a, |D|)], D[Min(a, |D|)..Min(b, |D|)]);
    PrefixSplit(D, Min(a, |D|), Min(b, |D|));
  }

  /** Restoring the block `[a, b)` of the first `b` entries leaves the first `a` blanked. */
  lemma ProbeAfterRestoring(h: seq<char>, D: seq<int>, a: nat, b: nat)
    requires Distinct(D) && a <= b
    ensures Restored(Blanked(h, D[..Min(b, |D|)]), h, D[Min(a, |D|)..Min(b, |D|)]) == Blanked(h, D[..Min(a, |D|)])
  {
    var i, j := Min(a, |D|), Min(b, |D|);
    PrefixSplit(D, i, j);
    BlockDisjoint(D, i, j);
    RestoreBlanked(h, D[..i], D[i..j]);
  }

  /** The count the search evidently means: `cacadena_core` with its result
      capped at the length of the deletion order. It is never above `|D|`,
      and for a needle without the blank mark it is the largest feasible
      count (or zero when even deleting nothing is infeasible). */
  method MaxDeletable(h: seq<char>, q: seq<char>, D: seq<int>) returns (r: nat)
    requires Distinct(D) && InRange(D, |h|)
    ensures r <= |D|
    ensures r == 0 || Feasible(h, q, D, r)
    ensures Blank !in q ==> forall m: nat :: Feasible(h, q, D, m) ==> Min(m, |D|) <= r
  {
    var raw := CoreSearch(h, q, D);
    r := Min(raw, |D|);
    if Blank !in q {
      if Feasible(h, q, D, |D|) {
        forall m | 0 <= m <= |D| ensures Feasible(h, q, D, m) {
          FeasibleDownward(h, q, D, |D|, m);
        }
        DistinctInRangeBound(D, |h|);
      } else {
        BoundaryIsLargestFeasible(h, q, D, raw);
      }
    }
  }

  /** A concrete input on which `cacadena_core` overshoots: an empty needle in
      "abc" with every position in the deletion order. Every count is
      feasible and the capacity is 4, so the driver returns 7 for an order of
      length 3. */
  lemma OvershootWitness()
    ensures Distinct([0, 1, 2]) && InRange([0, 1, 2], 3)
    ensures AllFeasible("abc", "", [0, 1, 2])
    ensures CapacityFor(|"abc"|, 4) && 4 != |"abc"| && 2 * 4 - 1 > |[0, 1, 2]|
  {
    EmptyNeedleFeasible("abc", [0, 1, 2]);
    assert IsPow2(4) by {
      assert IsPow2(2);
    }
  }

  /** On that input the postcondition of `CoreSearch` leaves exactly one
      possible result, 7, which exceeds the length 3 of the deletion order. */
  lemma OvershootResult(r: nat)
    requires r == 0 || Feasible("abc", "", [0, 1, 2], r)
    requires !Feasible("abc", "", [0, 1, 2], 3) ==> r <= 3 && IsBoundary("abc", "", [0, 1, 2], r)
    requires AllFeasible("abc", "", [0, 1, 2]) ==>
      exists c: nat :: CapacityFor(|"abc"|, c) && r == if c == |"abc"| then c else 2 * c - 1
    ensures r == 7 && r > |[0, 1, 2]|
  {
    OvershootWitness();
    var c: nat :| CapacityFor(|"abc"|, c) && r == if c == |"abc"| then c else 2 * c - 1;
    CapacityUnique(|"abc"|, c, 4);
  }

  /** The driver itself on "abc", "" and `[0, 1, 2]` returns 7. */
  method OvershootRun() returns (r: nat)
    ensures r == 7 && r > |[0, 1, 2]|
  {
    r := CoreSearch("abc", "", [0, 1, 2]);
    OvershootResult(r);
  }

  /** The driver itself on "ab", "" and `[0]` returns 2. */
  method LengthOvershootRun() returns (r: nat)
    ensures r == 2 && r > |[0]|
  {
    r := CoreSearch("ab", "", [0]);
    LengthOvershootResult(r);
  }

  /** A haystack length that is a power of two does not avoid the overshoot:
      on "ab", "" and the order `[0]` every count is feasible, the early exit
      fires at `delta == 2`, and the postcondition of `CoreSearch` forces the
      result 2 for an order of length 1. */
  lemma LengthOvershootResult(r: nat)
    requires r == 0 || Feasible("ab", "", [0], r)
    requires !Feasible("ab", "", [0], 1) ==> r <= 1 && IsBoundary("ab", "", [0], r)
    requires AllFeasible("ab", "", [0]) ==>
      exists c: nat :: CapacityFor(|"ab"|, c) && r == if c == |"ab"| then c else 2 * c - 1
    ensures r == 2 && r > |[0]|
  {
    EmptyNeedleFeasible("ab", [0]);
    assert CapacityFor(2, 2) by {
      assert IsPow2(1);
    }
    var c: nat :| CapacityFor(|"ab"|, c) && r == if c == |"ab"| then c else 2 * c - 1;
    CapacityUnique(|"ab"|, c, 2);
  }
}
