# Exact-cover Sudoku solver, modelled in Dafny

This project models the Sudoku solver of `benchmark/sudoku/sudoku-bb.py`
(Boris Borcic, 2006) and proves what it promises.  The solver views Sudoku as
an exact-cover problem:

* a *placement* `w` in `[0, 729)` puts digit `w % 9 + 1` into cell `w / 9`;
* a *constraint* `q` in `[0, 324)` is one of four bands of 81: a cell holds a
  digit, a row holds digit d, a column holds digit d, a box holds digit d;
* `w2q`, `q2w` and `w2q2w` (lines 7-10) map placements to their four
  constraints, constraints to their nine placements, and placements to every
  placement they conflict with;
* `sudoku99` (lines 14-19) turns the givens into placements, runs `search`,
  and writes the committed placements back as 81 digits;
* `search` (lines 21-39) keeps a stack `w0s` of placements to commit, an array
  `q2nw` of per-constraint counts, a set `takens` of committed or eliminated
  placements and a set `ws` of committed ones.  It propagates forced moves and
  branches on the first constraint left with two candidates.

The project has six modules, one file each:

* `ordering.dfy` (Ordering): ascending sequences and `sorted` of a set of integers.
* `tables.dfy` (Tables): the three tables, with Python 2 integer division on non-negative values.
* `codec.dfy` (Codec): the encoding of the givens (line 15) and the decoding of the answer (line 19).
* `search.dfy` (Search): `search` as imperative Dafny.
  * `q2nw` is an `array<int>`; `w0s`, `takens` and `ws` are values.
  * One method models each step of lines 23-39.
  * The exceptions become the datatype `Outcome`:
    * `Completed(ws)` for line 35;
    * `DeadEnd` for the `KeyError` of `pop` on an empty set at line 33;
    * `NoBranchPoint` for the `ValueError` of `q2nw.index(2)` at line 36.
* `counting.dfy` (Counting): the counting argument. 81 placements that pairwise share no constraint cover all 324 constraints, each exactly once.
* `solver.dfy` (Solver): `sudoku99`, Sudoku grids in Sudoku terms, and the link between grids and exact covers.

The main results, stated on `Solver.Sudoku99`, hold for every puzzle string:

* **Characters.** A character above `'9'` within the first 81 is reported at its position.
* **Empty puzzle.** A puzzle without givens ends with the `ValueError` (`NoBranch`).
* **Filled grid.** A filled, solved grid comes back unchanged.
* **Solvable puzzles.** When some solved grid agrees with the givens, the search never ends in the `KeyError`. Every grid it returns is solved and agrees with the givens.
* **Failures.** Sudoku99 also returns, as ghost results, the state at which the search stopped: its counts, taken and committed placements. For a `KeyError` (`Contradiction`), some uncovered constraint has no live placement in that state, and every taken placement is committed or shares a constraint with a committed one (`Search.Stuck`, `Search.RuledOut`). By `Search.DeadEndRefutes`, no solution then contains the committed placements. For a `ValueError` (`NoBranch`), that state is consistent, a fixpoint of propagation with at most 80 commits, no count at 2 and every given committed (`Search.Stalled`).

Two invariants carry these results:

* **The count invariant** (`Search.Consistent`):
  * an uncovered constraint's count is its number of live placements;
  * a covered constraint's count is at least 100 more than that;
  * a placement is taken exactly when it is committed or shares a constraint with a committed one.
* **The forcing invariant** (`Search.Forcing`). Every uncovered constraint left with fewer than two live placements has one of them waiting on the stack, so propagation ends at a fixpoint (`Search.Fixpoint`).
* **Disjointness.** Committed placements never share a constraint (`Search.Disjoint`), as long as the stack holds forced moves or placements of a solution (`Search.Safe`).

The tables are computed once and only read afterwards. The search therefore takes them as a value `x: Index` with the property `IndexOk` that it relies on, and `Solver.TableIndexOk` proves that the solver's own tables have that property.

## Model

| member | source | states |
|---|---|---|
| Ordering.Sorted | benchmark/sudoku/sudoku-bb.py:19 | `sorted` of a set: an ascending sequence holding exactly the set's elements |
| Ordering.IncreasingUnique | benchmark/sudoku/sudoku-bb.py:19 | two ascending sequences with the same elements are equal, so `sorted` has one answer |
| Tables.W2Q | benchmark/sudoku/sudoku-bb.py:7 | w2q[n] has four entries, the i-th one in band [81·i, 81·(i+1)) |
| Tables.W2QBands | benchmark/sudoku/sudoku-bb.py:7 | the four entries are the cell, 81 + row·9 + digit, 162 + column·9 + digit, 243 + digit·9 + box |
| Tables.BandClash | benchmark/sudoku/sudoku-bb.py:7 | two placements with the same i-th constraint agree on the cell, or the digit and the row, column or box |
| Tables.Q2WSeq | benchmark/sudoku/sudoku-bb.py:8 | the nine placements of constraint q, ascending; exactly those whose w2q entry names q |
| Tables.SortedPairs | benchmark/sudoku/sudoku-bb.py:8 | the sorted pairs (q, w): 2916 of them, ascending in Python's pair order, and a pair is among them exactly when w is a placement covering q |
| Tables.PairTableAscending | benchmark/sudoku/sudoku-bb.py:8 | the closed form (i / 9, i % 9-th placement of q) ascends in Python's pair order |
| Tables.PairTableHoldsCoverPairs | benchmark/sudoku/sudoku-bb.py:8 | every pair of the closed form is a constraint with a placement that covers it |
| Tables.CoverPairsInPairTable | benchmark/sudoku/sudoku-bb.py:8 | every constraint–placement incidence appears in the closed form |
| Tables.SortedPairsUnique | benchmark/sudoku/sudoku-bb.py:8 | any ascending sequence of exactly the incidence pairs is SortedPairs: what `sorted` returns |
| Tables.PairsUnique | benchmark/sudoku/sudoku-bb.py:8 | two ascending pair sequences with the same members are equal |
| Tables.GroupOfNine | benchmark/sudoku/sudoku-bb.py:9 | group q of nine consecutive pairs holds constraint q and its nine placements |
| Tables.Q2W | benchmark/sudoku/sudoku-bb.py:9 | q2w[q] is a set of exactly nine placements |
| Tables.Q2WMember | benchmark/sudoku/sudoku-bb.py:8-9 | w is in q2w[q] exactly when q is in w2q[w] |
| Tables.Q2WIsCover | benchmark/sudoku/sudoku-bb.py:8-9 | q2w[q] equals the set of placements covering q, defined independently, and has nine of them |
| Tables.W2Q2W | benchmark/sudoku/sudoku-bb.py:10 | w2q2w[w] contains w and only placements |
| Tables.W2Q2WMember | benchmark/sudoku/sudoku-bb.py:10 | v is in w2q2w[w] exactly when v shares a constraint with w |
| Tables.ShareMeaning | benchmark/sudoku/sudoku-bb.py:7-10 | two placements share a constraint exactly when they are in one cell, or hold one digit in one row, column or box |
| Codec.GivensFrom | benchmark/sudoku/sudoku-bb.py:15 | the givens from position j on, in order: w is among them exactly when some character above '0' at position i < 81 gives w = 9·i + k − 1; a character above '9' is reported at its first position |
| Codec.Encode | benchmark/sudoku/sudoku-bb.py:15 | at most 81 givens are read |
| Codec.Decode | benchmark/sudoku/sudoku-bb.py:19 | one digit '1'..'9' per placement |
| Codec.DecodeAscending | benchmark/sudoku/sudoku-bb.py:19 | character k of the answer is the digit of the k-th smallest placement |
| Codec.CompleteGivens | benchmark/sudoku/sudoku-bb.py:15 | on a filled grid the k-th given is the placement of character k |
| Codec.RoundTrip | benchmark/sudoku/sudoku-bb.py:15-19 | encoding a filled grid and decoding its placements gives back its first 81 characters |
| Codec.GivenDigit | benchmark/sudoku/sudoku-bb.py:15-19 | the digit written back for a digit character's placement is that character |
| Search.PushForced | benchmark/sudoku/sudoku-bb.py:32-33 | a count below 2 pushes exactly one placement, the constraint's only live one, a forced move; a count of 2 or more pushes nothing; it fails exactly when the constraint is blocked |
| Search.Decrement | benchmark/sudoku/sudoku-bb.py:30-33 | the count of q drops by one and no other count changes, which brings the pending constraint back in line; then the push of PushForced, after which q, if left below two live placements, has its placement on the stack |
| Search.Eliminate | benchmark/sudoku/sudoku-bb.py:30-33 | after the four decrements the counts are exact; it fails exactly when one of the four constraints is blocked; what it pushes are forced moves, and each of the four constraints left below two live placements has its placement on the stack |
| Search.CountsTake | benchmark/sudoku/sudoku-bb.py:29-31 | taking a live placement leaves its four constraints one decrement behind |
| Search.CountsDecrement | benchmark/sudoku/sudoku-bb.py:31 | decrementing a pending constraint brings its count back in line |
| Search.CountsCommit | benchmark/sudoku/sudoku-bb.py:24-27 | committing w0 and adding 100 to its constraints keeps the count invariant |
| Search.Mark | benchmark/sudoku/sudoku-bb.py:27 | each constraint of w0 gains exactly 100; nothing else changes |
| Search.EliminateConflicts | benchmark/sudoku/sudoku-bb.py:28-33 | on success every placement of w2q2w[w0] is taken, the counts are exact, and every constraint below two live placements has its placement on the stack (`Forcing`); a failure leaves some constraint blocked (`Stuck`); on the way to a solution it succeeds and stays on the way; a justified stack stays justified |
| Search.TakeConflict | benchmark/sudoku/sudoku-bb.py:29-33 | taking one conflicting placement w and decrementing its constraints fails exactly when a constraint of w is blocked; on success the counts are exact and the forcing invariant holds again; on the way to a solution it succeeds and stays on the way; a justified stack stays justified |
| Search.Commit | benchmark/sudoku/sudoku-bb.py:24-33 | w0 joins ws and takens, with its conflicts; the invariant and the forcing invariant hold again on success; every taken placement stays ruled out by a committed one; a failure leaves some constraint blocked; a solution and justified stacks are kept |
| Search.Propagate | benchmark/sudoku/sudoku-bb.py:23-33 | on success the invariant holds, every stacked placement is committed, and the state is a fixpoint: every uncovered constraint keeps two live placements; a failure (the `KeyError`) leaves some uncovered constraint with no live placement while every taken placement is ruled out by a committed one; on the way to a solution it succeeds; a safe start keeps ws disjoint |
| Search.BlockedStuck | benchmark/sudoku/sudoku-bb.py:31-33 | a blocked constraint of a placement makes the state stuck |
| Search.FirstIndex | benchmark/sudoku/sudoku-bb.py:36 | `list.index`: the first position holding the value, or none |
| Search.Candidates | benchmark/sudoku/sudoku-bb.py:36 | the two live placements of an uncovered constraint with two left; on the way to a solution one of them is in it |
| Search.Copy | benchmark/sudoku/sudoku-bb.py:37 | `q2nw[:]`: a fresh array with the same counts |
| Search.Choose | benchmark/sudoku/sudoku-bb.py:34-36 | Completed(ws) exactly when more than 80 placements are committed; NoBranchPoint only in a stalled state (at most 80 committed, no count at 2), and always when no count is 2; otherwise the first constraint with count 2, uncovered, whose live placements are exactly w1 and w0 |
| Search.Settle | benchmark/sudoku/sudoku-bb.py:23-36 | DeadEnd only in a stuck state whose taken placements are ruled out by the committed ones; NoBranchPoint only in a stalled state holding every stacked placement; Completed only with more than 80 placements; a branch point is the first count-2 constraint with exactly the two live candidates, at a fixpoint; on the way to a solution no dead end, and with every placement stacked the answer is that solution |
| Search.Round | benchmark/sudoku/sudoku-bb.py:23-39 | one pass of the loop: a DeadEnd or NoBranchPoint it returns comes with the state where it, or the search on w1, stopped, extending its start and stuck or stalled there; it falls back on w0 only with a stuck state of the search on w1 as evidence, from a consistent fixpoint in which w0 is live; on the way to a solution it never dead-ends and the fallback stays on the way |
| Search.Branch | benchmark/sudoku/sudoku-bb.py:37 | the recursive search on copies: it leaves the caller's counts untouched (no modifies clause); it does not dead-end when w1 belongs to a solution; a DeadEnd or NoBranchPoint it returns comes with the state where that search stopped, extending its start, stuck or stalled there |
| Search.Search | benchmark/sudoku/sudoku-bb.py:21-39 | Completed only with more than 80 placements that include the stack; DeadEnd only with a stop state extending the start that is stuck with every taken placement ruled out; NoBranchPoint only with a stalled stop state holding every stacked placement; never the KeyError on the way to a solution; the ValueError on an empty stack with no count at 2; a safe start gives a disjoint answer |
| Search.ForcedInSolution | benchmark/sudoku/sudoku-bb.py:32-33 | on the way to a solution, every forced move belongs to it |
| Search.ConflictOutside | benchmark/sudoku/sudoku-bb.py:28-29 | a placement in conflict with a placement of a solution is not part of it |
| Search.NotBlocked | benchmark/sudoku/sudoku-bb.py:33 | on the way to a solution no constraint is left without candidates |
| Search.EliminatedOnTrack | benchmark/sudoku/sudoku-bb.py:28-33 | eliminating a conflict of a committed solution placement keeps the state on the way to it |
| Search.ConflictSymmetric | benchmark/sudoku/sudoku-bb.py:10 | sharing a constraint, as w2q2w records it, is symmetric |
| Search.CommitDisjoint | benchmark/sudoku/sudoku-bb.py:24-29 | committing a live placement keeps the committed placements pairwise disjoint |
| Search.ForcedAfterCommit | benchmark/sudoku/sudoku-bb.py:24-26 | a forced move stays forced when another live placement is committed |
| Search.ForcedAfterTake | benchmark/sudoku/sudoku-bb.py:29-33 | a forced move stays forced when a placement is taken without blocking a constraint |
| Search.JustifiedCommit | benchmark/sudoku/sudoku-bb.py:24-26 | committing keeps a stack of forced moves justified |
| Search.JustifiedTake | benchmark/sudoku/sudoku-bb.py:29-33 | taking and pushing forced moves keeps a stack justified |
| Search.JustifiedSound | benchmark/sudoku/sudoku-bb.py:23-24 | a justified stack's top is committed or live |
| Search.SafeStep | benchmark/sudoku/sudoku-bb.py:24-33 | one commit from a safe state leads to a safe state |
| Search.TakeMore | benchmark/sudoku/sudoku-bb.py:25-29 | taking more placements shrinks the untaken ones: the termination measure |
| Search.FixpointMeaning | benchmark/sudoku/sudoku-bb.py:23-33 | a fixpoint is exactly a state without a blocked constraint and without a forced move: propagation has nothing left to push or to fail on |
| Search.ForcingEmpty | benchmark/sudoku/sudoku-bb.py:23 | with an empty stack the forcing invariant is exactly the fixpoint; a fixpoint meets it for any stack |
| Search.ForcedOnGrow | benchmark/sudoku/sudoku-bb.py:33 | pushing onto the stack keeps a waiting placement on it |
| Search.ForcingTake | benchmark/sudoku/sudoku-bb.py:29-33 | taking w keeps the forcing invariant once each of its four constraints has its placement pushed |
| Search.ForcingCommit | benchmark/sudoku/sudoku-bb.py:24-26 | popping and committing the top keeps the forcing invariant for the rest of the stack |
| Search.RuledOutCommit | benchmark/sudoku/sudoku-bb.py:24-29 | committing w0 and taking some of its conflicts keeps every taken placement ruled out by a committed one |
| Search.DeadEndRefutes | benchmark/sudoku/sudoku-bb.py:32-33 | a stuck state whose taken placements are all ruled out by the committed ones has no solution containing the committed placements |
| Search.StalledWide | benchmark/sudoku/sudoku-bb.py:34-36 | in a stalled state every uncovered constraint keeps at least three live placements, so there is no constraint to branch on |
| Counting.CoversSplit | benchmark/sudoku/sudoku-bb.py:7 | removing one placement of a disjoint set removes exactly its four constraints from the cover |
| Counting.CoverCount | benchmark/sudoku/sudoku-bb.py:7 | pairwise disjoint placements cover four constraints each |
| Counting.AllCovered | benchmark/sudoku/sudoku-bb.py:34-35 | more than 80 pairwise disjoint placements are exactly 81, and every constraint has exactly one of them |
| Counting.CoveredOnce | benchmark/sudoku/sudoku-bb.py:8-9 | a covered constraint has exactly one placement of a disjoint set |
| Counting.Identity | benchmark/sudoku/sudoku-bb.py:19 | an ascending sequence of n values below n is 0, 1, ..., n − 1 |
| Solver.UnitsOfPlacement | benchmark/sudoku/sudoku-bb.py:7 | a placement's cell is in its row, its column and its box |
| Solver.CoverOf | benchmark/sudoku/sudoku-bb.py:7-9 | every constraint is met by the placement of some cell of a solved grid |
| Solver.GridCoveredOnce | benchmark/sudoku/sudoku-bb.py:8-9 | every constraint is met by exactly one placement of a solved grid |
| Solver.GridExactCover | benchmark/sudoku/sudoku-bb.py:7-9 | the placements of a solved grid are an exact cover of the tables |
| Solver.GridCount | benchmark/sudoku/sudoku-bb.py:15 | a filled grid has 81 placements, and they are its givens |
| Solver.TableIndexOk | benchmark/sudoku/sudoku-bb.py:7-10 | the three tables have everything the search relies on |
| Solver.InitialConsistent | benchmark/sudoku/sudoku-bb.py:17 | every count at 9 with nothing taken satisfies the count invariant and is a fixpoint |
| Solver.GivensInGrid | benchmark/sudoku/sudoku-bb.py:15 | the givens of a puzzle belong to every solved grid that fits it |
| Solver.DecodeGrid | benchmark/sudoku/sudoku-bb.py:19 | decoding a filled grid's placements gives back the grid |
| Solver.DisjointExact | benchmark/sudoku/sudoku-bb.py:34-35 | more than 80 committed placements that share no constraint are an exact cover |
| Solver.CoverCells | benchmark/sudoku/sudoku-bb.py:19 | in ascending order, the i-th placement of such a cover lies in cell i |
| Solver.DecodeCover | benchmark/sudoku/sudoku-bb.py:19 | decoding such a cover gives a filled grid whose placements are the cover |
| Solver.CoverSolved | benchmark/sudoku/sudoku-bb.py:7-10 | a filled grid whose placements meet every constraint exactly once is solved: the converse of GridExactCover |
| Solver.UnitDistinct | benchmark/sudoku/sudoku-bb.py:7-10 | two cells of one unit hold different digits when the placements share no constraint |
| Solver.CoverFits | benchmark/sudoku/sudoku-bb.py:15 | a filled grid that contains every given agrees with the puzzle on its givens |
| Solver.SolvedFromCover | benchmark/sudoku/sudoku-bb.py:18-19 | the decoded Completed payload is a solved grid that fits the puzzle |
| Solver.Target | benchmark/sudoku/sudoku-bb.py:15-17 | a solvable puzzle's start state is on the way to a solution, and safe |
| Solver.Sudoku99 | benchmark/sudoku/sudoku-bb.py:14-19 | a bad character is reported at its position, and only then; no givens gives NoBranch; a solvable puzzle never gives Contradiction, and a grid it returns is solved and fits the puzzle; a solved grid comes back unchanged; Contradiction comes with the stop state, stuck with every taken placement ruled out by the committed ones, and NoBranch with a stalled stop state that has every given committed |
| Solver.SolveGivens | benchmark/sudoku/sudoku-bb.py:16-19 | the guarded search and decode for well-formed givens, with the same promises as Sudoku99 |

## Left out

* The file reading, timing and printing driver (lines 41-54) is I/O and wall-clock measurement.
* The other benchmark files only call the OR-Tools and `constraint` libraries. They are not part of this model.
* Python's set iteration order is modelled as an arbitrary choice (`:|`), so every property holds whichever order Python uses:
  * the order in which line 28 visits conflicting placements;
  * which of the two candidates at line 36 becomes `w1`.
* Python's `KeyError` and `ValueError` are modelled as results:
  * in `search`, `DeadEnd` and `NoBranchPoint`;
  * in `sudoku99`, which lets both escape, `Contradiction` and `NoBranch`;
  * `int()` failing on a character above `'9'` gives `BadCharacter`.
* The tables are globals in the source. The search receives them as the parameter `x` instead, and `TableIndexOk` connects that parameter to the real tables.
* `takens` and `ws` are Python sets that `search` changes in place.
  * They are modelled as values passed in and returned.
  * No caller reads them after the call returns normally, because `search` only ever leaves by an exception:
    * `sudoku99` passes fresh sets and reads `ws` only as the payload of `Completed`, which the model returns as `Completed(ws')`;
    * line 37 passes copies and discards them.
  * Only `q2nw`, which the fallback path keeps using, is an array changed in place.
* Search.Round: one pass of the Python loop `while 1` (propagate, check the count of commits, find the branch point, branch) is the method `Round`, and `Search` repeats it. A failed branch returns the fallback `w0`, which `Search` pushes onto the stack, empty at that point, as the code does. The sequence of operations is the same.
* Search: the forcing invariant is a precondition of `Search`, `Round`, `Settle` and `Propagate`. The source does not check it, but it holds at every call: sudoku99 starts from a fixpoint, and both the branch on w1 and the fallback on w0 start from the fixpoint that propagation reached.
* Branch: the failure evidence is the state where the search stopped, returned as ghost results. The contracts say what that state satisfies (stuck and ruled out, or stalled), not that it is the state a step-by-step run of Python reaches.
* Search: a `ValueError` raised inside the branch on w1 is not caught at line 38 and escapes every enclosing search, and the model does the same. So a `NoBranch` answer does not show that the puzzle has no solution, and Sudoku99 does not rule out `NoBranch` for a solvable puzzle.
* Search.Consistent: committed constraints are only known to have a count of at least 100 + live placements. The exact multiple of 100 is not tracked, because nothing depends on it.
* Solver.Sudoku99: the answer is proved valid only for puzzles that have a solution.
  * For contradictory givens, the model does not rule out an answer that is not a solution.
  * The code does not check that a popped given is still live before it commits it.
* The all-blank grid is stated as ending in the `ValueError` of line 36 (`NoBranch`), which is what the code does: every count is 9 and no count is 2. This follows the code where a plain reading of the solver's purpose would expect some completed grid.
* A character other than a digit is a blank only when it sorts at or below `'0'` (for example `'.'`). One above `'9'` makes `int()` fail. This follows the code where a description of "any other character is a blank" would differ.
* Termination of `search` is proved; running time is not modelled.
