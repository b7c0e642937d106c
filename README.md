# Lazy filter adapter of the Swift standard library, in Dafny

This project models `stdlib/public/core/Filter.swift` from the Swift standard library (the
"swift-3-indexing-model" snapshot). That file gives a lazy, predicate-filtered view of a
base sequence or collection in four parts:

- `LazyFilterIterator` is a pull iterator. Its `next()` keeps pulling from a base iterator until an
  element satisfies the predicate or the base runs out.
- `LazyFilterSequence` stores a base sequence and a predicate. It hands out fresh filter iterators.
- `LazyFilterIndex` wraps one base position. All six comparisons forward to that position.
- `LazyFilterCollection` computes `startIndex`, `endIndex`, `successor(of:)`, both `advance`
  overloads and `subscript` on top of two in-place scanners, `_nextFilteredInPlace` and
  `_nextFilteredInPlace(_:limit:)`. It also hands out iterators.

How the model represents them:

- The base collection is a `seq<T>`. A base position is a `nat` in `0..|base|`, and `|base|` is the
  base `endIndex`. The predicate is a total function `T -> bool`.
- The iterator is a class (`FilterIterator.LazyFilterIterator`) because `next()` mutates it. The
  base iterator it owns is the two fields `elements` and `position`: a cursor into the sequence.
  `Next` is a method with a loop.
- The sequence view, the index and the collection view are Swift value types with no mutating
  member, so they are datatypes. Their operations are functions where the source computes a single expression.
- The two scanners are loop methods, and so are both `advance` overloads. Each is proved equal to
  a recursive reference function in `FilterSpec`: `NextMatch` for the unbounded scan and
  `NextMatchWithin` for the bounded one. `startIndex`, `successor(of:)` and `_nextFiltered` call
  the scanners, so they are methods too.
- `FilterSpec.Filtered` is the reference for "the elements of the base that satisfy the
  predicate, in base order".

The model follows the code AS WRITTEN. In this snapshot `successor(of:)` (Filter.swift:211-214)
runs the scanner starting at `i.base` itself and does not step past `i` first. On a position
whose element matches, it therefore returns the same position. In the same way,
`advance(_:by:)` (Filter.swift:223-228) repeats a scan that no longer moves after its first
run. The doc comment at Filter.swift:200-202 says `endIndex` is reachable from `startIndex` by
repeated `successor()`, and the usual collection contract is to step once and then scan.
Repeated `successor(of:)` as written never gets off the first matching position. The model
keeps the code's behaviour, proves it (idempotence of the scan), and records the discrepancy
below under "Findings", next to a corrected successor for which reachability is proved.

Modules: `Wrappers` (Option), `FilterSpec` (reference functions and their lemmas),
`FilterIterator`, `FilterIndex`, `FilterCollection`, and `FilterProperties` (properties that span
several operations, the finding, and the concrete scenarios).

## Model

| member | source | states |
|---|---|---|
| FilterSpec.NextMatch | stdlib/public/core/Filter.swift:257-270 | the unbounded scan from `i` stops at a position `r` with `i <= r <= |s|`; the element at `r` matches unless `r` is the end, and every element skipped on the way fails the predicate |
| FilterSpec.NextMatchUnique | stdlib/public/core/Filter.swift:257-260 | these three properties determine the stopping position uniquely |
| FilterSpec.NextMatchIdempotent | stdlib/public/core/Filter.swift:251-255 | scanning again from where a scan stopped does not move: `_nextFiltered` applied twice equals applying it once |
| FilterSpec.NextMatchWithin | stdlib/public/core/Filter.swift:272-289 | the bounded scan never skips a matching element; it stops at a matching element unless it stops at `limit` or the end; started at or before `limit`, it never passes `limit` |
| FilterSpec.NextMatchWithinIdempotent | stdlib/public/core/Filter.swift:278-289 | the bounded scan is idempotent |
| FilterSpec.NextMatchWithinIsCutOff | stdlib/public/core/Filter.swift:272-289 | the bounded scan equals the minimum of the unbounded scan and `limit` when it starts at or before `limit`, and equals the unbounded scan when `limit` lies behind the start |
| FilterSpec.FilteredMembers | stdlib/public/core/Filter.swift:36-37 | an element is produced exactly when it occurs in the base and satisfies the predicate (both directions) |
| FilterSpec.FilteredAppend | stdlib/public/core/Filter.swift:56-57 | filtering a concatenation is the concatenation of the filtered parts, so base order is kept |
| FilterSpec.FilteredFrom | stdlib/public/core/Filter.swift:27-34 | the filtered suffix from `i` is the element where the scan from `i` stops, followed by the filtered suffix after it, or empty when the scan reaches the end |
| FilterSpec.FilteredEmptyFrom | stdlib/public/core/Filter.swift:257-260 | the filtered suffix from `i` is empty exactly when the scan from `i` reaches the end |
| FilterSpec.FilteredEmpty | stdlib/public/core/Filter.swift:188-190 | filtering keeps nothing exactly when no base element satisfies the predicate |
| FilterIterator.LazyFilterIterator.constructor | stdlib/public/core/Filter.swift:36-44 | stores the base iterator (elements and cursor) and the predicate unchanged |
| FilterIterator.LazyFilterIterator.BaseNext | stdlib/public/core/Filter.swift:28 | one pull from the base iterator: the element under the cursor and the cursor one further on, or nothing at the end |
| FilterIterator.LazyFilterIterator.Next | stdlib/public/core/Filter.swift:21-34 | returns the first remaining base element that satisfies the predicate and leaves the base just past it, having consumed everything before it; returns `None` with the base exhausted exactly when no remaining element matches; what is still to come shrinks by exactly the returned element |
| FilterIterator.LazyFilterSequence.MakeIterator | stdlib/public/core/Filter.swift:64-70 | a fresh iterator over a fresh traversal of the base with the stored predicate, which will produce exactly the filtered base |
| FilterIndex.Eq | stdlib/public/core/Filter.swift:108-114 | `==` on filter indices holds exactly when they are the same index, that is, the same base position |
| FilterIndex.Ne | stdlib/public/core/Filter.swift:116-122 | `!=` is the negation of `==` |
| FilterIndex.Lt | stdlib/public/core/Filter.swift:124-130 | `<` never holds between equal indices |
| FilterIndex.Le | stdlib/public/core/Filter.swift:132-138 | `<=` is `<` or `==` |
| FilterIndex.Ge | stdlib/public/core/Filter.swift:140-146 | `>=` is `<=` with the operands swapped |
| FilterIndex.Gt | stdlib/public/core/Filter.swift:148-154 | `>` is `<` with the operands swapped |
| FilterIndex.LtIsStrictTotalOrder | stdlib/public/core/Filter.swift:102 | the index order is irreflexive, asymmetric and transitive, and any two indices are related by exactly one of `<`, `==`, `>` (what `Comparable` asks for) |
| FilterIndex.ComparisonsForwardToBase | stdlib/public/core/Filter.swift:108-154 | each of the six comparisons gives the same answer as the same comparison on the wrapped base positions |
| FilterCollection.LazyFilterCollection.NextFilteredInPlace | stdlib/public/core/Filter.swift:257-270 | moves the index to the first position at or after it whose element matches, or to the end; returns true exactly when it stopped at the end |
| FilterCollection.LazyFilterCollection.NextFilteredInPlaceLimited | stdlib/public/core/Filter.swift:272-289 | tests `limit` before the predicate: started at `limit` it stays there and returns true; started at or before `limit` it never passes it; returns true exactly when it stopped at `limit` or the end; equals the unbounded scan cut off at `limit` |
| FilterCollection.LazyFilterCollection.NextFiltered | stdlib/public/core/Filter.swift:248-255 | the next matching position at or after `index`, otherwise the base end |
| FilterCollection.LazyFilterCollection.StartIndex | stdlib/public/core/Filter.swift:188-196 | the first matching position; equal to `endIndex` exactly when no element matches (and exactly when the filtered base is empty); otherwise its element matches |
| FilterCollection.LazyFilterCollection.EndIndex | stdlib/public/core/Filter.swift:198-207 | wraps the base end, a position the unbounded scan and the bounded scan (for any limit) leave in place |
| FilterCollection.LazyFilterCollection.Successor | stdlib/public/core/Filter.swift:209-214 | as written: the unbounded scan from `i.base` itself; never moves backwards; returns `i` unchanged when `i`'s element matches |
| FilterCollection.LazyFilterCollection.Advance | stdlib/public/core/Filter.swift:216-230 | requires `n >= 0`; returns `i` for `n == 0` and the scan result from `i.base` for `n >= 1`, never before `i` |
| FilterCollection.LazyFilterCollection.AdvanceLimited | stdlib/public/core/Filter.swift:232-246 | requires `n >= 0`; returns `i` for `n == 0` and the bounded scan result otherwise; started at or before `limit`, the result is at or before `limit`; started at `limit`, it stays there |
| FilterCollection.LazyFilterCollection.Subscript | stdlib/public/core/Filter.swift:291-297 | the base element at the wrapped position; at a position the view's scans produce it satisfies the predicate |
| FilterCollection.LazyFilterCollection.MakeIterator | stdlib/public/core/Filter.swift:299-305 | an iterator over a fresh traversal of the base, independent of the index machinery, that will produce exactly the filtered base |
| FilterProperties.Drain | stdlib/public/core/Filter.swift:27-34 | pulling until `None` collects exactly what the iterator still had to produce, and leaves its base exhausted |
| FilterProperties.DrainSequence | stdlib/public/core/Filter.swift:64-70 | draining a fresh iterator of a filtered sequence yields exactly the matching base elements in base order |
| FilterProperties.DrainCollection | stdlib/public/core/Filter.swift:299-305 | draining a fresh iterator of a filtered collection yields exactly the matching base elements in base order |
| FilterProperties.IndependentIterators | stdlib/public/core/Filter.swift:64-70 | two iterators of one view share no progress: each yields the whole filtered base even when the other has been advanced first |
| FilterProperties.AdvanceIsRepeatedSuccessor | stdlib/public/core/Filter.swift:216-230 | `n` applications of the as-written `successor(of:)` land where `advance(_:by: n)` does |
| FilterProperties.SuccessorNeverReachesEnd | stdlib/public/core/Filter.swift:198-214 | from a matching position, any number of as-written successor steps stays at that position and never reaches the end |
| FilterProperties.EvensSuccessorStalls | stdlib/public/core/Filter.swift:209-214 | on [1, 2, 3, 4, 5, 6] filtered by evenness, the successor of the start as written is the start (position 1), not the position of 4 |
| FilterProperties.IntendedSuccessor | stdlib/public/core/Filter.swift:198-202 | the corrected successor steps once and then scans: the result lies strictly after `i`, is a position the view produces, and only non-matching elements lie between |
| FilterProperties.IntendedWalkReachesEnd | stdlib/public/core/Filter.swift:198-202 | with the corrected successor, the walk from any valid position is at `endIndex` after as many steps as there are matching elements left |
| FilterProperties.IntendedWalkNotEarlier | stdlib/public/core/Filter.swift:198-202 | with fewer steps than there are matching elements left, the corrected walk is still short of `endIndex`; with IntendedWalkReachesEnd, the end takes exactly that many steps |
| FilterProperties.CollectFrom | stdlib/public/core/Filter.swift:291-297 | walking from a valid position to the end with the corrected successor and `subscript` reads exactly the matching elements from there on, in order |
| FilterProperties.CollectByIndex | stdlib/public/core/Filter.swift:188-207 | walking from `startIndex` to `endIndex` with the corrected successor reads exactly the filtered base, the same sequence the iterators produce |
| FilterProperties.EvensFiltered | stdlib/public/core/Filter.swift:36-37 | filtering [1, 2, 3, 4, 5, 6] by evenness keeps 2, 4, 6 |
| FilterProperties.EvensDrained | stdlib/public/core/Filter.swift:299-305 | iterating [1, 2, 3, 4, 5, 6] filtered by evenness yields 2, 4, 6 |
| FilterProperties.EvensPositions | stdlib/public/core/Filter.swift:188-207 | on [1, 2, 3, 4, 5, 6] filtered by evenness the start is the position of 2, the corrected successor is the position of 4, subscripting there gives 4, and the end is 6 |
| FilterProperties.NoEvensScenario | stdlib/public/core/Filter.swift:188-190 | on [1, 3, 5] filtered by evenness the start is the end and iteration yields nothing |
| FilterProperties.EmptyScenario | stdlib/public/core/Filter.swift:188-207 | on an empty base, start, end and the base end coincide and iteration yields nothing |

## Left out

- LazyFilterIterator.Next: the precondition at Filter.swift:24-26 (no call after `nil`, no call on a copy) is not modelled. Calling `Next` after exhaustion returns `None` again, because the base cursor stays at the end. Copy semantics of Swift structs are not modelled.
- FilterCollection.LazyFilterCollection.Advance and FilterCollection.LazyFilterCollection.AdvanceLimited: the trapping `_precondition(n >= 0)` is a `requires n >= 0`. A trap is a caller obligation, not a recoverable error.
- FilterCollection.LazyFilterCollection.Successor, Advance, AdvanceLimited and the scanners: they require the start position to be a base position (`<= |base|`). The code does no range check here (the `_failEarlyRangeCheck` TODOs). A scan started at a position past the end would subscript the base out of range (Filter.swift:264, 283). `Advance` and `AdvanceLimited` with `n == 0`, and a bounded scan started at its `limit`, return such a position unchanged without touching the base. Such positions cannot come from the view, which only produces positions in `0..|base|`.
- FilterCollection.LazyFilterCollection.Subscript: requires `position.base < |base|`, which the base subscript demands. "A valid position of `self`" is not required; the contract states what holds when the position is one.
- The `base` accessor of the iterator (Filter.swift:46-47) is a plain read of its base iterator, which in the model is the two class fields `elements` and `position`. The stored `base` of the sequence (Filter.swift:83-84) is the datatype field itself.
- The `filter` extensions on the lazy sequence and collection protocols (Filter.swift:311-341) are one-line constructor wrappers; building the datatype stands for them.
- The unavailable and renamed stubs (Filter.swift:343-384) only call `fatalError`.
- Protocol conformance (`IteratorProtocol`, `Sequence`, `Collection`, `Comparable`), generic base index types and `IndexDistance`: positions are `nat` and distances are `int`.
- A single-pass base sequence (only one valid iterator) is not modelled; the base is always a multi-pass `seq<T>`, so the base is finite. In the source the base can be an infinite sequence or iterator (Filter.swift:18-20, 61); on such a base with no further match, the `while let` loop of `next()` (Filter.swift:28) never returns, whereas the model's `Next` always terminates.
- Predicates with side effects or that do not terminate: the predicate is a total pure function.
- Complexity claims (Filter.swift:66, 192-193, 204, 301) are not stated.
- Concurrent use of one view or iterator is out of scope.
- include/swift/Parse/ASTGen.h is not part of this model; it holds declarations for syntax-tree to AST generation, unrelated to the filter adapter.

## Findings

| source | as written | input that shows it | evidently intended | confidence | as-written member | corrected member |
|---|---|---|---|---|---|---|
| stdlib/public/core/Filter.swift:211-214 | `successor(of: i)` scans from `i.base` itself, so on a matching position it returns `i`; `advance(_:by:)` (223-228) inherits this and moves no further than one scan | base [1, 2, 3, 4, 5, 6], predicate "is even": `startIndex` is position 1 and `successor(of: startIndex)` is position 1 again, so `endIndex` is never reached | step once past `i.base`, then scan, so that `endIndex` is reachable from `startIndex` as the doc comment at 200-202 promises | not executed; follows from the code itself | FilterProperties.EvensSuccessorStalls | FilterProperties.IntendedSuccessor |

`FilterCollection.LazyFilterCollection.Successor` and `Advance` stay as written, because they model
the snapshot. The index walks (`CollectFrom`, `CollectByIndex`, `EvensPositions`) use the corrected
successor, and `IntendedWalkReachesEnd` proves the reachability that the doc comment asks for.
