/**
  Properties that relate several operations of the filter adapter: draining iterators, walking
  positions, the behaviour of repeated `successor(of:)` as written and as intended, and a few
  concrete scenarios.
 */
module FilterProperties {
  import opened Wrappers
  import opened FilterSpec
  import opened FilterIndex
  import opened FilterIterator
  import opened FilterCollection

  /** Pulls from `it` until it returns `None`, collecting what it produced. */
  method Drain<T>(it: LazyFilterIterator<T>) returns (out: seq<T>)
    requires it.Valid()
    modifies it`position
    ensures it.Valid() && it.position == |it.elements|
    ensures out == old(it.Pending())
  {
    out := [];
    var r := it.Next();
    while r.Some?
      invariant it.Valid()
      invariant old(it.Pending()) == out + (if r.Some? then [r.value] else []) + it.Pending()
      invariant r.None? ==> it.position == |it.elements|
      decreases |it.elements| - it.position, r.Some?
    {
      ghost var before := it.Pending();
      out := out + [r.value];
      r := it.Next();
      assert before == (if r.Some? then [r.value] else []) + it.Pending();
    }
    assert it.Remaining() == [];
  }

  /** Draining a fresh iterator of a filtered sequence yields the matching base elements in order. */
  method DrainSequence<T>(view: LazyFilterSequence<T>) returns (out: seq<T>)
    ensures out == Filtered(view.base, view.pred)
  {
    var it := view.MakeIterator();
    out := Drain(it);
  }

  /** Draining a fresh iterator of a filtered collection yields the matching base elements in order. */
  method DrainCollection<T>(view: LazyFilterCollection<T>) returns (out: seq<T>)
    ensures out == Filtered(view.base, view.pred)
  {
    var it := view.MakeIterator();
    out := Drain(it);
  }

  /**
    Two iterators of the same view do not share progress: the second is drained after the first
    has moved, then the first is drained, and both produce every matching element.
   */
  method IndependentIterators<T>(view: LazyFilterSequence<T>) returns (fromFirst: seq<T>, fromSecond: seq<T>)
    ensures fromFirst == Filtered(view.base, view.pred)
    ensures fromSecond == Filtered(view.base, view.pred)
  {
    var first := view.MakeIterator();
    var second := view.MakeIterator();
    var x := first.Next();
    fromSecond := Drain(second);
    var rest := Drain(first);
    fromFirst := (if x.Some? then [x.value] else []) + rest;
  }

  /** `k` applications of `successor(of:)` as written, starting at base position `i`. */
  function AsWrittenWalk<T>(s: seq<T>, p: T -> bool, i: nat, k: nat): (r: nat)
    requires i <= |s|
    decreases k
  {
    if k == 0 then i else AsWrittenWalk(s, p, NextMatch(s, p, i), k - 1)
  }

  /**
    `n` applications of `successor(of:)` as written land where one `advance(_:by: n)` does: at
    `i` for `n == 0`, and at the first scan's result otherwise.
   */
  lemma {:induction false} AdvanceIsRepeatedSuccessor<T>(s: seq<T>, p: T -> bool, i: nat, n: nat)
    requires i <= |s|
    ensures AsWrittenWalk(s, p, i, n) == if n == 0 then i else NextMatch(s, p, i)
    decreases n
  {
    if n > 1 {
      AdvanceIsRepeatedSuccessor(s, p, NextMatch(s, p, i), n - 1);
      NextMatchIdempotent(s, p, i);
    }
  }

  /**
    From a matching position, repeated `successor(of:)` as written never reaches the end, however
    many times it is applied: it stays at that position.
   */
  lemma SuccessorNeverReachesEnd<T>(s: seq<T>, p: T -> bool, i: nat, k: nat)
    requires i < |s| && p(s[i])
    ensures AsWrittenWalk(s, p, i, k) == i
    ensures AsWrittenWalk(s, p, i, k) != |s|
  {
    AdvanceIsRepeatedSuccessor(s, p, i, k);
  }

  /**
    The concrete input that shows the stall: in [1, 2, 3, 4, 5, 6] filtered by evenness, the
    start is the position of 2, and its successor as written is that position again rather than
    the position of 4.
   */
  method EvensSuccessorStalls() returns (start: LazyFilterIndex, next: LazyFilterIndex)
    ensures start.base == 1 && next == start
    ensures next.base != 3
  {
    var view := LazyFilterCollection([1, 2, 3, 4, 5, 6], IsEven);
    assert NextMatch(view.base, IsEven, 0) == 1 && NextMatch(view.base, IsEven, 2) == 3;
    start := view.StartIndex();
    next := view.Successor(start);
  }

  /**
    `successor(of:)` as the documentation intends it: one base step first, then the unbounded scan.
    It strictly moves forward and skips only non-matching elements.
   */
  method IntendedSuccessor<T>(view: LazyFilterCollection<T>, i: LazyFilterIndex) returns (r: LazyFilterIndex)
    requires i.base < |view.base|
    ensures r.base == NextMatch(view.base, view.pred, i.base + 1)
    ensures Lt(i, r) && view.IsValidPosition(r)
    ensures forall j :: i.base < j < r.base ==> !view.pred(view.base[j])
  {
    var b := view.NextFiltered(i.base + 1);
    r := LazyFilterIndex(b);
    NextMatchIdempotent(view.base, view.pred, i.base + 1);
  }

  /** `k` applications of the intended successor, starting at base position `i`. */
  function IntendedWalk<T>(s: seq<T>, p: T -> bool, i: nat, k: nat): (r: nat)
    requires i <= |s|
    decreases k
  {
    if k == 0 || i == |s| then i else IntendedWalk(s, p, NextMatch(s, p, i + 1), k - 1)
  }

  /** Past a position whose element matches, the filtered rest starts at the next match. */
  lemma FilteredAfterMatch<T>(s: seq<T>, p: T -> bool, i: nat)
    requires i < |s|
    ensures Filtered(s[i + 1..], p) == Filtered(s[NextMatch(s, p, i + 1)..], p)
  {
    var j := NextMatch(s, p, i + 1);
    FilteredFrom(s, p, i + 1);
    FilteredFrom(s, p, j);
    NextMatchIdempotent(s, p, i + 1);
  }

  /**
    With the intended successor, the end IS reachable from every valid position: after as many
    steps as there are matching elements from that position on, the walk is at the end.
   */
  lemma {:induction false} IntendedWalkReachesEnd<T>(s: seq<T>, p: T -> bool, i: nat)
    requires i <= |s| && NextMatch(s, p, i) == i
    ensures IntendedWalk(s, p, i, |Filtered(s[i..], p)|) == |s|
    decreases |s| - i
  {
    if i < |s| {
      var j := NextMatch(s, p, i + 1);
      FilteredFrom(s, p, i);
      FilteredAfterMatch(s, p, i);
      NextMatchIdempotent(s, p, i + 1);
      IntendedWalkReachesEnd(s, p, j);
    }
  }

  /**
    ... and not earlier: with fewer steps than there are matching elements from a valid position
    on, the intended walk is still short of the end. So it takes exactly that many steps.
   */
  lemma {:induction false} IntendedWalkNotEarlier<T>(s: seq<T>, p: T -> bool, i: nat, k: nat)
    requires i <= |s| && NextMatch(s, p, i) == i
    requires k < |Filtered(s[i..], p)|
    ensures IntendedWalk(s, p, i, k) < |s|
    decreases k
  {
    FilteredFrom(s, p, i);
    if k > 0 {
      FilteredAfterMatch(s, p, i);
      NextMatchIdempotent(s, p, i + 1);
      IntendedWalkNotEarlier(s, p, NextMatch(s, p, i + 1), k - 1);
    }
  }

  /**
    One step of an index walk: what was collected, the matching element at `i`, and everything
    from the intended successor on still make up `all`, the whole walk's result.
   */
  lemma FilteredStep<T>(s: seq<T>, p: T -> bool, i: nat, out: seq<T>, all: seq<T>)
    requires i < |s| && NextMatch(s, p, i) == i
    requires out + Filtered(s[i..], p) == all
    ensures (out + [s[i]]) + Filtered(s[NextMatch(s, p, i + 1)..], p) == all
  {
    FilteredFrom(s, p, i);
    FilteredAfterMatch(s, p, i);
  }

  /** Filtering from the first match on loses nothing. */
  lemma FilteredFromStart<T>(s: seq<T>, p: T -> bool)
    ensures Filtered(s[NextMatch(s, p, 0)..], p) == Filtered(s, p)
  {
    var k := NextMatch(s, p, 0);
    FilteredFrom(s, p, 0);
    FilteredFrom(s, p, k);
    NextMatchIdempotent(s, p, 0);
    assert s[0..] == s;
  }

  /**
    Walking the positions from `i` to `endIndex` with the intended successor and reading each
    through `subscript` visits exactly the matching base elements from `i` on, in order.
   */
  method CollectFrom<T>(view: LazyFilterCollection<T>, i: LazyFilterIndex) returns (out: seq<T>)
    requires view.IsValidPosition(i)
    ensures out == Filtered(view.base[i.base..], view.pred)
  {
    ghost var s, p := view.base, view.pred;
    var at := i;
    out := [];
    while Ne(at, view.EndIndex())
      invariant view.IsValidPosition(at)
      invariant out + Filtered(s[at.base..], p) == Filtered(s[i.base..], p)
      decreases |s| - at.base
    {
      FilteredStep(s, p, at.base, out, Filtered(s[i.base..], p));
      var x := view.Subscript(at);
      at := IntendedSuccessor(view, at);
      out := out + [x];
    }
    assert s[at.base..] == [];
  }

  /**
    Walking all positions from `startIndex` to `endIndex` with the intended successor yields
    exactly the matching base elements, in order, which is what the iterator produces too.
   */
  method CollectByIndex<T>(view: LazyFilterCollection<T>) returns (out: seq<T>)
    ensures out == Filtered(view.base, view.pred)
  {
    var start := view.StartIndex();
    FilteredFromStart(view.base, view.pred);
    out := CollectFrom(view, start);
  }

  function IsEven(x: int): (r: bool)
  {
    x % 2 == 0
  }

  /** Filtering [1, 2, 3, 4, 5, 6] by evenness keeps 2, 4 and 6. */
  lemma EvensFiltered()
    ensures Filtered([1, 2, 3, 4, 5, 6], IsEven) == [2, 4, 6]
  {
    assert [6][1..] == [];
    assert Filtered([6], IsEven) == [6];
    assert [5, 6][1..] == [6];
    assert Filtered([5, 6], IsEven) == [6];
    assert [4, 5, 6][1..] == [5, 6];
    assert Filtered([4, 5, 6], IsEven) == [4, 6];
    assert [3, 4, 5, 6][1..] == [4, 5, 6];
    assert Filtered([3, 4, 5, 6], IsEven) == [4, 6];
    assert [2, 3, 4, 5, 6][1..] == [3, 4, 5, 6];
    assert Filtered([2, 3, 4, 5, 6], IsEven) == [2, 4, 6];
    assert [1, 2, 3, 4, 5, 6][1..] == [2, 3, 4, 5, 6];
  }

  /** [1, 2, 3, 4, 5, 6] filtered by evenness: iteration yields 2, 4 and 6, in that order. */
  method EvensDrained() returns (drained: seq<int>)
    ensures drained == [2, 4, 6]
  {
    var view := LazyFilterCollection([1, 2, 3, 4, 5, 6], IsEven);
    drained := DrainCollection(view);
    EvensFiltered();
  }

  /**
    [1, 2, 3, 4, 5, 6] filtered by evenness: the start wraps the position of 2; the intended
    successor of the start wraps the position of 4; subscripting there gives 4; the end wraps
    the base end.
   */
  method EvensPositions() returns (start: LazyFilterIndex, next: LazyFilterIndex, at: int, end: LazyFilterIndex)
    ensures start.base == 1 && next.base == 3 && at == 4 && end.base == 6
  {
    var view := LazyFilterCollection([1, 2, 3, 4, 5, 6], IsEven);
    assert NextMatch(view.base, IsEven, 0) == 1 && NextMatch(view.base, IsEven, 2) == 3;
    start := view.StartIndex();
    next := IntendedSuccessor(view, start);
    at := view.Subscript(next);
    end := view.EndIndex();
  }

  /** [1, 3, 5] filtered by evenness: the start is the end and iteration yields nothing. */
  method NoEvensScenario() returns (drained: seq<int>, start: LazyFilterIndex)
    ensures drained == [] && start.base == 3
  {
    var view := LazyFilterCollection([1, 3, 5], IsEven);
    drained := DrainCollection(view);
    start := view.StartIndex();
  }

  /** An empty base: the start, the end and the base end coincide, and iteration yields nothing. */
  method EmptyScenario<T>(p: T -> bool) returns (drained: seq<T>, start: LazyFilterIndex, end: LazyFilterIndex)
    ensures drained == [] && start.base == 0 && end.base == 0 && Eq(start, end)
  {
    var view := LazyFilterCollection([], p);
    drained := DrainCollection(view);
    start := view.StartIndex();
    end := view.EndIndex();
  }
}
