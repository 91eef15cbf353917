# cacadena in Dafny

A model of `src/juego/cacadena.py`. The program answers one query. It takes:

- a haystack string `cadenota`;
- a needle `cadenita`;
- a deletion order `indices_culeros` of haystack positions.

It returns how many leading entries of the deletion order can be deleted from the haystack while the needle stays a subsequence of what is left.

The model has five modules:

- `Outcomes` (`outcomes.dfy`): the `ValueError`/`KeyError` exits of the code, as `Result` and `Outcome` values.
- `SortedCollections` (`sorted_collection.dfy`): `SortedCollection` with the identity key over integers. It is a class whose `items` list `insert`, `insert_right` and `remove` update in place. The look-ups (`find*`, `index`, `count`, `__contains__`, `__len__`) are functions over the `bisect_left`/`bisect_right` binary searches.
- `Subsequences` (`subsequences.dfy`):
  - the declarative notion of a subsequence (an embedding: strictly increasing positions spelling the needle);
  - the blanking of deleted slots with the mark `','`;
  - the greedy scan `cadena_find_caca`, run over an `array<char>`.
- `PositionIndex` (`position_index.dfy`): the dictionary `posiciones_cadena`, built from each letter to its `SortedCollection` of positions. It covers:
  - building it (`cacadena_genera_posiciones_cadena`);
  - deleting positions with a `(position, letter)` backup log (`cacadena_remover_posicion`, `cadena_remover_posiciones`);
  - putting them back (`cadena_restaurar_posiciones`, `cadena_poner_posiciones`);
  - the indexed subsequence walk `cacadena_es_subsequencia`.

  The contents of the index are described by `Bags()`, one multiset of positions per letter.
- `Search` (`search.dfy`): the driver `cacadena_core`:
  - the power-of-two capacity loop;
  - the working copy `cacadenota_tmp` as an array that `cadena_quitar_caca` blanks and `cadena_poner_caca` restores block by block;
  - the galloping search over the count `tam_brinco` with step `delta` and last good count `ultimo_bueno`.

`Feasible(h, q, D, m)` says that the needle is a subsequence of the haystack with the first `m` entries of `D` blanked. Like a Python slice, it clamps `m` at `|D|`. Every property of the driver is stated in its terms.

The live driver scans the blanked array (`src/juego/cacadena.py:323-324`). The indexed helpers are not called by it (the calls at lines 287 and 321-322 are commented out), so they are modelled separately. `PositionIndex.IndexAgreesWithBlanking` connects the two tests.

The model follows the code as written, including these quirks:

- The capacity is the smallest power of two at or above the haystack length. The early exit compares `delta` with `len(cadenota)`, not with the capacity.
- A backward step moves `tam_brinco` down by `delta` and restores the block `[tam_brinco, tam_brinco + delta)`.
- A needle letter with no collection raises `KeyError` in `cacadena_es_subsequencia`, instead of counting as an exhausted look-up.
- `insert` accepts a position that is already stored.
- The result can exceed the length of the deletion order (see Findings).

## Model

| member | source | states |
|---|---|---|
| SortedCollections.SortedCollection.constructor | src/juego/cacadena.py:85-91 | `SortedCollection()` starts empty and sorted |
| SortedCollections.SortedCollection.Len | src/juego/cacadena.py:111-112 | `__len__` is the number of stored entries, duplicates included |
| SortedCollections.SortedCollection.Contains | src/juego/cacadena.py:133-137 | membership looked up inside the bisected run of equal keys is true exactly when the item is stored |
| SortedCollections.SortedCollection.Index | src/juego/cacadena.py:139-144 | `index` succeeds iff the item is stored, and then gives its first position; otherwise `ValueError` |
| SortedCollections.SortedCollection.Count | src/juego/cacadena.py:146-151 | counting inside the bisected run gives the item's multiplicity in the whole list |
| SortedCollections.SortedCollection.Insert | src/juego/cacadena.py:153-158 | `insert` keeps the list sorted, grows it by one and adds exactly one copy of the item (duplicates accepted) |
| SortedCollections.SortedCollection.InsertRight | src/juego/cacadena.py:160-165 | `insert_right` keeps the list sorted, grows it by one and adds exactly one copy of the item |
| SortedCollections.InsertSidesAgree | src/juego/cacadena.py:153-165 | with the identity key, splicing at `bisect_left` and at `bisect_right` give the same list |
| SortedCollections.SortedCollection.Remove | src/juego/cacadena.py:167-171 | `remove` succeeds iff the item is stored; it then takes exactly one copy out and keeps the list sorted; otherwise `ValueError` with the list unchanged |
| SortedCollections.SortedCollection.Find | src/juego/cacadena.py:173-178 | `find(k)` returns `k` iff it is stored, else `ValueError` |
| SortedCollections.SortedCollection.FindLe | src/juego/cacadena.py:180-185 | `find_le(k)` is the largest entry `<= k`, and fails with `ValueError` iff there is none |
| SortedCollections.SortedCollection.FindLt | src/juego/cacadena.py:187-192 | `find_lt(k)` is the largest entry `< k`, and fails with `ValueError` iff there is none |
| SortedCollections.SortedCollection.FindGe | src/juego/cacadena.py:194-199 | `find_ge(k)` is the smallest entry `>= k`, and fails with `ValueError` iff there is none |
| SortedCollections.SortedCollection.FindGt | src/juego/cacadena.py:202-207 | `find_gt(k)` is the smallest entry `> k`, and fails with `ValueError` iff there is none |
| SortedCollections.BisectLeft | src/juego/cacadena.py:156 | `bisect_left`: every entry before the slot is smaller, every entry from it on is at least the key |
| SortedCollections.BisectRight | src/juego/cacadena.py:163 | `bisect_right`: every entry before the slot is at most the key, every entry from it on is larger |
| SortedCollections.EqualRange | src/juego/cacadena.py:135-136 | the two bisections delimit exactly the entries equal to the key |
| SortedCollections.FirstIndexOf | src/juego/cacadena.py:144 | `list.index` finds the first occurrence iff there is one |
| SortedCollections.SortedSplice | src/juego/cacadena.py:157-158 | inserting at a bisection slot keeps the list sorted and adds one copy of the item |
| SortedCollections.SortedDelete | src/juego/cacadena.py:170-171 | deleting a slot keeps the list sorted and removes one copy of its entry |
| SortedCollections.SortedUnique | src/juego/cacadena.py:153-165 | two sorted lists with the same entries are equal |
| Subsequences.ScanSubsequence | src/juego/cacadena.py:267-281 | `cadena_find_caca` returns true iff the needle is a subsequence of the array |
| Subsequences.GreedyStep | src/juego/cacadena.py:273-278 | the first slot after the last match holding the next letter extends the leftmost embedding, and if no slot holds it the longer prefix is not a subsequence |
| Subsequences.NoLongerSubsequence | src/juego/cacadena.py:276-278 | once a needle prefix is missed, no longer prefix is a subsequence |
| Subsequences.BlankingMonotone | src/juego/cacadena.py:254-257 | for a needle without `','`, blanking more slots never creates an embedding |
| PositionIndex.PositionMap.constructor | src/juego/cacadena.py:285 | the dictionary starts empty |
| PositionIndex.SetDefault | src/juego/cacadena.py:233 | `setdefault` returns the letter's collection and creates an empty one only when the letter has none; the other letters keep their collections |
| PositionIndex.FilePosition | src/juego/cacadena.py:233 | filing position `k` under letter `c` adds one `k` to that letter's positions and changes no other letter |
| PositionIndex.FileNext | src/juego/cacadena.py:232-233 | one turn of the loop extends the index of `h[..k]` to that of `h[..k + 1]` |
| PositionIndex.GeneratePositions | src/juego/cacadena.py:231-233 | after the loop the dictionary holds every letter of `h` and each letter's positions gain exactly that letter's positions in `h`; letters already present keep their collection objects and new letters get fresh ones, so the caller may go on removing from the index it built |
| PositionIndex.GeneratedFromEmpty | src/juego/cacadena.py:231-233 | built from `{}`, every position `p` appears exactly once, in the collection of `h[p]`, and nowhere else |
| PositionIndex.RemovePosition | src/juego/cacadena.py:225-228 | returns the letter at `p` after removing `p` from its collection; `KeyError` when the letter has no collection, `ValueError` (index unchanged) when `p` is not filed |
| PositionIndex.BackupOf | src/juego/cacadena.py:238-240 | the log entry for the `i`-th deleted position is `(D[i], h[D[i]])` |
| PositionIndex.FirstUnfiled | src/juego/cacadena.py:238-239 | the first index of `D` whose position is not filed under its letter, or `len(D)`; every earlier position is filed |
| PositionIndex.RemovePositions | src/juego/cacadena.py:237-240 | deletes the positions of `D` in order up to the first one not filed under its letter and logs `(p, h[p])` for each deleted `p`; it succeeds iff every position is filed, and otherwise fails with `ValueError` when that position's letter has a collection and `KeyError` when it has none |
| PositionIndex.RemoveNext | src/juego/cacadena.py:238-240 | one turn deletes and logs `D[i]` iff it is filed under its letter, and otherwise changes nothing and names the exception |
| PositionIndex.FirstAbsent | src/juego/cacadena.py:244-245 | the first log entry whose letter has no collection, or the log's length; every earlier letter has one |
| PositionIndex.RestorePositions | src/juego/cacadena.py:243-245 | re-inserts the logged positions under their letters up to the first logged letter without a collection, and fails with `KeyError` iff there is such a letter; the dictionary's keys and objects stay the same |
| PositionIndex.RestoreNext | src/juego/cacadena.py:244-245 | one turn of the loop extends the restoration of the first `i` log entries to `i + 1` |
| PositionIndex.PutPositions | src/juego/cacadena.py:247-252 | appends `(p, h[p])` for each `p` of `D` to the log, then restores the whole log with the outcome that `RestorePositions` states |
| PositionIndex.RestoreUndoesRemove | src/juego/cacadena.py:237-245 | restoring with the log written while deleting returns every letter's positions to what they were |
| PositionIndex.RemovingFromLiveIndex | src/juego/cacadena.py:225-240 | deleting `D` from the freshly built index leaves exactly the positions of `h` outside `D` |
| PositionIndex.IndexAgreesWithBlanking | src/juego/cacadena.py:211-222 | for a needle without `','`, it embeds in the index with `D` deleted iff it is a subsequence of `h` with `D` blanked |
| PositionIndex.IndexedSubsequence | src/juego/cacadena.py:211-222 | returns positions iff the needle embeds in the index, and they are then the leftmost embedding; it fails, always with `KeyError`, iff some needle letter without a collection has an embeddable prefix before it; the index is only read |
| PositionIndex.Walk | src/juego/cacadena.py:212-220 | the loop stops short of the whole needle iff it meets a letter without a collection or a letter with no position after the last match, whose needle prefix then has no embedding; otherwise it ends with a full leftmost embedding |
| PositionIndex.WalkVerdict | src/juego/cacadena.py:211-222 | the walk ends at a missing letter iff some missing letter has an embeddable prefix before it, and it matches the whole needle iff the needle embeds |
| PositionIndex.NoLongerEmbedding | src/juego/cacadena.py:217-220 | a needle prefix with no embedding has no longer prefix with one |
| PositionIndex.Advance | src/juego/cacadena.py:216-221 | one `find_gt` and `insert` extends the leftmost partial embedding by one; otherwise it reports `missing` iff the letter has no collection, or `stuck`, and then the needle prefix through that letter has no embedding |
| PositionIndex.NextPosition | src/juego/cacadena.py:217 | `posiciones_cadenota[c].find_gt(last)` is `KeyError` iff `c` has no collection, and otherwise the least position of `c` after `last`, or `ValueError` iff there is none |
| PositionIndex.ExtendLeftmost | src/juego/cacadena.py:217-221 | taking the least next position keeps the matched positions a sorted, leftmost partial embedding |
| PositionIndex.NoExtension | src/juego/cacadena.py:217-220 | when the next letter has no position after the last match, the needle does not embed at all |
| PositionIndex.MissingLetter | src/juego/cacadena.py:217 | a needle letter absent from the index rules out any embedding |
| PositionIndex.InsertAboveAll | src/juego/cacadena.py:221 | inserting a position above all matched ones appends it |
| Search.CeilPowerOfTwo | src/juego/cacadena.py:290-296 | the `exp_2` loop ends at the smallest power of two at or above the haystack length |
| Search.CapacityUnique | src/juego/cacadena.py:290-296 | that power of two is unique |
| Search.BlankSlots | src/juego/cacadena.py:254-257 | `cadena_quitar_caca` writes `','` into exactly the listed slots |
| Search.RestoreSlots | src/juego/cacadena.py:261-264 | `cadena_poner_caca` copies exactly the listed slots back from the haystack |
| Search.BlankedTwice | src/juego/cacadena.py:254-257 | blanking one block after another is blanking both |
| Search.RestoreBlanked | src/juego/cacadena.py:254-264 | restoring a block blanked after a disjoint prefix leaves only the prefix blanked |
| Search.FeasibleDownward | src/juego/cacadena.py:323-324 | for a needle without `','`, deleting fewer entries keeps a feasible count feasible |
| Search.Probe | src/juego/cacadena.py:307-324 | a probe moves `tam_brinco` by `delta` (staying at least 1), leaves the working copy equal to the haystack with the first `tam_brinco` entries blanked, and reports exactly their feasibility |
| Search.GallopStart | src/juego/cacadena.py:290-300 | the initial state (forward, `delta` = capacity, counts 0) satisfies the search invariant |
| Search.GallopFound | src/juego/cacadena.py:326-330 | a feasible probe that does not stop makes it the last good count, forward, with `delta` halved |
| Search.GallopMissed | src/juego/cacadena.py:331-335 | an infeasible probe that does not stop switches to backward with `delta` halved |
| Search.GallopStopFound | src/juego/cacadena.py:326-328 | stopping on a feasible probe (`delta` is the haystack length or 1) yields the promised result |
| Search.GallopStopMissed | src/juego/cacadena.py:332-334 | stopping on an infeasible step-1 probe yields the last good count |
| Search.Round | src/juego/cacadena.py:302-336 | one round either stops with the promised result or keeps the search invariant, with `delta` strictly smaller |
| Search.CoreSearch | src/juego/cacadena.py:284-338 | the result is 0 or feasible; when the whole order is infeasible it is the boundary (feasible, one more deletion infeasible) inside the order; when every count is feasible it is the haystack length or 2·capacity−1 |
| Search.BoundaryIsLargestFeasible | src/juego/cacadena.py:326-338 | for a needle without `','`, the boundary is the largest feasible count |
| Search.BoundaryUnique | src/juego/cacadena.py:326-338 | that boundary is unique |
| Search.EmptyNeedleFeasible | src/juego/cacadena.py:273-281 | an empty needle is found after any number of deletions |
| Search.OvershootWitness | src/juego/cacadena.py:290-296 | on `"abc"`, `""` and the order `[0, 1, 2]` every count is feasible and the capacity 4 differs from the length |
| Search.OvershootResult | src/juego/cacadena.py:327-338 | on that input the driver's contract forces the result 7, beyond the order's length 3 |
| Search.LengthOvershootResult | src/juego/cacadena.py:326-328 | on `"ab"`, `""` and the order `[0]` the driver's contract forces the result 2, beyond the order's length 1 |
| Search.OvershootRun | src/juego/cacadena.py:327-338 | the driver called on `"abc"`, `""` and the order `[0, 1, 2]` returns 7, beyond the order's length 3 |
| Search.LengthOvershootRun | src/juego/cacadena.py:326-328 | the driver called on `"ab"`, `""` and the order `[0]` returns 2, beyond the order's length 1 |
| Search.MaxDeletable | src/juego/cacadena.py:338 | the capped result is at most `len(indices_culeros)`, is 0 or feasible, and for a needle without `','` is the largest feasible count |

## Left out

- `cacadena_main` and the `__main__` block (`src/juego/cacadena.py:340-354`) are left out. They read standard input, parse and shift the positions, and write the answer out. The core takes the three inputs as parameters.
- Logging is left out: the `logger_cagada.debug` calls and the module-level logging set-up. The calls have no effect on results.
- The key machinery of `SortedCollection` is left out: the key property, re-sorting on a new key, `_given_key`, `__getitem__`, iteration, `__repr__`, `__reduce__`, `clear` and `copy`, as is the constructor from an iterable. The program only stores integers under the identity key and only builds empty collections. `_keys` is the same list as `_items` under that key, so one list models both.
- `operator.add`/`sub` as first-class values are modelled as the boolean direction flag `add`.
- Unused parameters are dropped: `cadenota` of `cacadena_es_subsequencia` and of `cadena_restaurar_posiciones`, which never read it.
- `PositionIndex.IndexedSubsequence`: the collection `posiciones_subseq` it builds is modelled as the list of its entries. Every new position is larger than the earlier ones, so the bisect insertion is an append. This is proved (`InsertAboveAll`).
- RemovePositions: requires the positions of `D` to be distinct and inside the haystack. A repeated position is not modelled. Neither is a negative one, which Python counts from the end of the haystack: `RemovePositions` requires every position of `D` in `0 <= p < |h|`, and `RemovePosition`, the single-position form at src/juego/cacadena.py:226, requires `0 <= p < |h|` as well.
- PutPositions: requires the positions of `D` to be inside the haystack. A negative position, which Python counts from the end, is not modelled.
- The exceptions that end `cadena_remover_posiciones`, `cadena_restaurar_posiciones` and `cadena_poner_posiciones` part-way are modelled as an `Outcome` result. The changes made before the exception are kept, as in the code.
- `Search.CoreSearch` requires the deletion order to list distinct positions `0 .. len(cadenota) - 1`. The code raises `IndexError` only outside `-len(cadenota) .. len(cadenota) - 1`. A negative position, which Python counts from the end (`cadenota_tmp[-1] = ","` blanks the last slot), is excluded by `InRange` and not modelled. With repeats, a backward step could restore a slot that an earlier entry still deletes.
- `Search.CoreSearch` proves termination (`delta` is a power of two that halves every round). The explicit round bound of log2(capacity) + 1 is not stated.
- `Subsequences.ScanSubsequence` keeps the bound `encontrados <= len(cadenita)` as a loop invariant, not as a postcondition, because the count is local to the scan and only the comparison with `len(cadenita)` is returned.
- `Search.CoreSearch` states the boundary property only when deleting the whole order is infeasible, and the capped optimum only through `MaxDeletable`. When every count is feasible, the code's result is not bounded by the order's length (see Findings).
- The needle containing `','` is modelled as written: blanked slots then match it. The optimality lemmas (`BoundaryIsLargestFeasible`, `MaxDeletable`) are stated only for needles without `','`.

## Findings

| source | as written | input that shows it | evidently intended | confidence | as-written member | corrected member |
|---|---|---|---|---|---|---|
| src/juego/cacadena.py:327-338 | the early exit compares `delta` with `len(cadenota)` instead of the power-of-two capacity. When every count is feasible and the length is not a power of two, the search keeps adding and returns `2 * capacity - 1`. When the length is a power of two, it returns the length, which exceeds a shorter deletion order. | haystack `"abc"`, needle `""`, deletion order `[0, 1, 2]`: capacity 4, result 7; haystack `"ab"`, needle `""`, deletion order `[0]`: exit at `delta == 2`, result 2 | a count of at most `len(indices_culeros)`: `min(result, len(indices_culeros))`, the largest feasible count | not executed | Search.CoreSearch, Search.OvershootResult, Search.LengthOvershootResult, Search.OvershootRun, Search.LengthOvershootRun | Search.MaxDeletable |
