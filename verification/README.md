# Consecutive-pairs view

A model of `ranges::view::consecutive` from `consecutive.hpp`: a lazy adaptor
that presents a sequence `[a, b, c, ...]` as the sequence of adjacent pairs
`(a, b), (b, c), ...` without copying it.

The model follows the header's structure:

- `cursor.dfy`, module `ConsecutiveIterator`: the `consecutive_iterator`
  cursor. A cursor is `Cursor(cur, nxt, isEnd)`: the current position, the
  lookahead position and the end-sentinel flag. Positions are `nat` indices;
  a range is the half-open interval of positions `[b, e)` with `b <= e`. The two tagged
  constructors become `MakeBegin(b, e)` and `MakeEnd(e)`; `operator++`,
  `operator*`, `operator==`, `operator!=` and `operator-` become `Advance`,
  `Deref`, `Eq`, `Neq` and `Dist`. `Eq` keeps the three branches of the source
  in the same order; the source's fall-through without a `return` is a dead
  branch marked `assert false`, so the verifier confirms that the three
  branches cover both flags.
- `view.dfy`, module `View`: the factory `Consecutive(s)` returns the pair
  (begin cursor over `[0, |s|)`, end sentinel at `|s|`). `Collect` is the
  caller's "while not equal to end: dereference, advance" protocol as a
  recursive function, `Traverse` is the same protocol as a loop, and
  `AdjacentPairs` is an independent reference list whose i-th entry is
  `(s[i], s[i + 1])`.

The cursors a range can produce are described by `IsLive`, `IsSentinel` and
`Valid`. `Rank` gives the index of the pair a cursor stands on, with the
sentinel one past the last pair. It is the reference against which the
asymmetric equality and the lookahead-based distance are judged.

The lookahead is clamped to the current position only when the range is
empty (`begin == end`, line 42). On a single-element range the lookahead is
`begin + 1`, which is the end position, and it is never dereferenced. The
distance operator (line 53) subtracts lookaheads for any two cursors, not only
for two live ones.

## Model

| member | source | states |
|---|---|---|
| ConsecutiveIterator.MakeBegin | consecutive.hpp:42 | the live cursor starts at `begin` with the flag clear; its lookahead is `begin + 1` on a non-empty range and stays at `begin` on an empty one; it is a live cursor of the range and stands on pair 0 |
| ConsecutiveIterator.MakeEnd | consecutive.hpp:43 | the sentinel has both positions at `end` and the flag set |
| ConsecutiveIterator.SentinelRank | consecutive.hpp:43 | the sentinel belongs to every range ending at `end` and stands one past the last pair, at max(n - 1, 0) |
| ConsecutiveIterator.Advance | consecutive.hpp:44 | both positions move forward by one and the flag is unchanged |
| ConsecutiveIterator.AdvanceN | consecutive.hpp:44 | k advances move both positions by k and keep the sentinel flag clear |
| ConsecutiveIterator.AdvanceKeepsLive | consecutive.hpp:42-44 | advancing a live cursor that is not at the end keeps it live in the same range, keeps `nxt == cur + 1`, and moves it to the next pair |
| ConsecutiveIterator.NotAtEndInBounds | consecutive.hpp:45-49 | a live cursor not equal to the sentinel has both positions inside the range, so dereferencing it never reads out of bounds |
| ConsecutiveIterator.BeginIsEndIffShort | consecutive.hpp:42-50 | the begin cursor equals the end sentinel immediately, in either argument order, exactly when the range has fewer than two elements |
| ConsecutiveIterator.EqSameKind | consecutive.hpp:48 | two live cursors, or two sentinels, are equal iff their current positions are equal |
| ConsecutiveIterator.EqLiveWithSentinel | consecutive.hpp:49-50 | a live cursor and a sentinel are equal, in either order, iff the live cursor's lookahead is the sentinel's position |
| ConsecutiveIterator.EqReflexive | consecutive.hpp:48 | every cursor equals itself |
| ConsecutiveIterator.EqSymmetric | consecutive.hpp:46-51 | equality gives the same answer in both argument orders, for all cursors |
| ConsecutiveIterator.EqIsRankEquality | consecutive.hpp:46-51 | on the cursors of one range, equality holds exactly when both cursors stand on the same pair |
| ConsecutiveIterator.NeqIsRankInequality | consecutive.hpp:52 | on the cursors of one range, `!=` holds exactly when the cursors stand on different pairs |
| ConsecutiveIterator.Deref | consecutive.hpp:45 | requires both positions in bounds; `NotAtEndInBounds` shows every live cursor not at the end meets it, and `TraversalVisits` shows the k-th cursor yields `(s[k], s[k + 1])` |
| ConsecutiveIterator.Eq | consecutive.hpp:46-51 | the three branches in source order, with the fall-through proved dead; its meaning is stated by `EqSameKind`, `EqLiveWithSentinel` and `EqIsRankEquality` |
| ConsecutiveIterator.Dist | consecutive.hpp:53 | the difference of lookaheads; `DistIsRankDifference` shows it is the difference of pair indices on one range |
| ConsecutiveIterator.Neq | consecutive.hpp:52 | `!=` is the negation of `==` |
| ConsecutiveIterator.EqTransitive | consecutive.hpp:46-51 | equality is transitive on the cursors of one range |
| ConsecutiveIterator.EqNeedsCommonRange | consecutive.hpp:46-51 | without a common range, transitivity fails: two live cursors of different ranges both equal the same sentinel but differ from each other |
| ConsecutiveIterator.DistIsRankDifference | consecutive.hpp:53 | on the cursors of one range, the difference of lookaheads is the difference of pair indices |
| ConsecutiveIterator.DistBeginToEnd | consecutive.hpp:42-53 | `end - begin` is max(n - 1, 0) for a range of n elements |
| ConsecutiveIterator.TraversalVisits | consecutive.hpp:42-50 | the begin cursor advanced k times is live, stands on pair k, equals the end exactly when k is the pair count, and dereferences to `(s[k], s[k + 1])` before that |
| View.Consecutive | consecutive.hpp:64-71 | the view's begin is a live cursor over the whole sequence standing at position 0, on the first pair, and its end is the sentinel at `|s|`; they are equal exactly when the sequence has at most one element |
| View.Collect | consecutive.hpp:44-52 | traversing from a live cursor to the sentinel yields as many pairs as the distance between them, the i-th being the elements at `cur + i` and `cur + i + 1` |
| View.Elements | consecutive.hpp:4-14 | the view over a sequence of n elements yields max(n - 1, 0) pairs, the i-th being `(s[i], s[i + 1])` |
| View.ElementsAreAdjacentPairs | consecutive.hpp:4-14 | the pairs the view yields are exactly the reference list of adjacent pairs |
| View.ViewDistanceIsPairCount | consecutive.hpp:53-71 | the view's `end - begin` equals the number of pairs a traversal yields |
| View.Traverse | consecutive.hpp:64-71 | the for-each loop over the view collects the adjacent pairs, the same list the recursive traversal yields |
| View.ExampleSix | consecutive.hpp:4-14 | `[1, 2, 3, 4, 5, 6]` yields `[(1, 2), (2, 3), (3, 4), (4, 5), (5, 6)]` |
| View.ExampleEmpty | consecutive.hpp:42 | the empty sequence yields no pair |
| View.ExampleSingleton | consecutive.hpp:42-49 | `[7]` yields no pair |
| View.ExampleTwo | consecutive.hpp:4-14 | `["a", "b"]` yields the single pair `("a", "b")` |

Re-traversing the same unmodified sequence gives the same pairs: `Traverse`
and `Elements` are determined by `s` alone, as their contracts state.

## Left out

- The `std::iterator` base class and its `iterator_traits` plumbing (lines 33-39): type-level declarations with no behaviour.
- `NamedType`, `BeginIterator` and `EndIterator` (lines 26-29): tagging types from `named_type.hpp`, which is not part of this model; they become two differently named constructors.
- `iterator_range` (lines 17, 65-70): from `iterator_range.hpp`, which is not part of this model; it becomes the `PairRange` pair of cursors.
- Genericity over iterator categories: positions are `nat` indices into a `seq<T>`, and the view covers a whole sequence.
- Borrowing, lifetime and iterator invalidation of the underlying range: memory-model concerns with no counterpart in a value model.
- `operator++` returning a copy of the cursor (line 44): `Advance` is a pure function returning the new cursor.
- Advance: requires a live cursor, because advancing the sentinel is a caller contract violation; advancing a live cursor that already equals the end is excluded where it matters, by the requires of `AdvanceKeepsLive`.
- Deref: its requires states that both positions are in bounds, the caller contract of `operator*`; it carries no ensures of its own, and `NotAtEndInBounds` and `TraversalVisits` state when the requires holds and what the pair is.
- Eq and Dist: they carry no ensures of their own; the lemmas `EqSameKind`, `EqLiveWithSentinel`, `EqIsRankEquality` and `DistIsRankDifference` state their meaning.
- Comparing or subtracting cursors of different ranges: the source leaves it undefined; `EqNeedsCommonRange` shows why the same-range requires of `EqTransitive` is needed.
- The signed `difference_type` of `operator-` is modelled as an unbounded `int`; overflow is not modelled because positions are indices of a finite sequence.
