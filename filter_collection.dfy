/**
  `LazyFilterCollection`: a filtered view of a base collection with positions.

  The base collection is a `seq<T>`, its `startIndex` is 0 and its `endIndex` is `|base|`.
  Every position of the view wraps a base position; the filtered start, the successor and both
  `advance` operations are computed by the two in-place scanners, exactly as the code does it.
  In particular the unbounded scanner starts AT the position it is given, so `Successor` of a
  position whose element matches is that same position.
 */
module FilterCollection {
  import opened FilterSpec
  import opened FilterIndex
  import opened FilterIterator

  datatype LazyFilterCollection<!T> = LazyFilterCollection(base: seq<T>, pred: T -> bool)
  {
    /**
      The positions the view's own scans can produce: a base position whose element satisfies
      `pred`, or the end. These are the fixed points of the unbounded scan.
     */
    predicate IsValidPosition(i: LazyFilterIndex)
    {
      i.base <= |base| && NextMatch(base, pred, i.base) == i.base
    }

    /**
      The unbounded in-place scan: moves `index` forward to the first position at or after it
      whose element satisfies `pred`, or to the end; `atEnd` says it stopped at the end.
     */
    method NextFilteredInPlace(index: nat) returns (index': nat, atEnd: bool)
      requires index <= |base|
      ensures index <= index' <= |base|
      ensures index' < |base| ==> pred(base[index'])
      ensures forall j :: index <= j < index' ==> !pred(base[j])
      ensures atEnd <==> index' == |base|
      ensures index' == NextMatch(base, pred, index)
    {
      index' := index;
      while index' != |base|
        invariant index <= index' <= |base|
        invariant forall j :: index <= j < index' ==> !pred(base[j])
        decreases |base| - index'
      {
        if pred(base[index']) {
          NextMatchUnique(base, pred, index, index');
          return index', false;
        }
        index' := index' + 1;
      }
      NextMatchUnique(base, pred, index, index');
      atEnd := true;
    }

    /**
      The bounded in-place scan: like the unbounded one, but it also gives up when `index` equals
      `limit`, and it looks at `limit` before it looks at the element. `stopped` says it stopped
      at `limit` or at the end rather than at a matching element.
     */
    method NextFilteredInPlaceLimited(index: nat, limit: nat) returns (index': nat, stopped: bool)
      requires index <= |base|
      ensures index' == NextMatchWithin(base, pred, index, limit)
      ensures index' == if index <= limit then Min(NextMatch(base, pred, index), limit)
                        else NextMatch(base, pred, index)
      ensures stopped <==> index' == limit || index' == |base|
      ensures index == limit ==> index' == index && stopped
      ensures index <= limit ==> index' <= limit
    {
      index' := index;
      while index' != limit && index' != |base|
        invariant index <= index' <= |base|
        invariant NextMatchWithin(base, pred, index', limit) == NextMatchWithin(base, pred, index, limit)
        decreases |base| - index'
      {
        if pred(base[index']) {
          NextMatchWithinIsCutOff(base, pred, index, limit);
          return index', false;
        }
        index' := index' + 1;
      }
      NextMatchWithinIsCutOff(base, pred, index, limit);
      stopped := true;
    }

    /** `_nextFiltered`: the unbounded scan run on a copy of `index`. */
    method NextFiltered(index: nat) returns (r: nat)
      requires index <= |base|
      ensures index <= r <= |base|
      ensures r < |base| ==> pred(base[r])
      ensures forall j :: index <= j < r ==> !pred(base[j])
      ensures r == NextMatch(base, pred, index)
    {
      var atEnd;
      r, atEnd := NextFilteredInPlace(index);
    }

    /**
      `startIndex`: the first position whose element satisfies `pred`, which is the end exactly
      when no element does.
     */
    method StartIndex() returns (r: LazyFilterIndex)
      ensures r.base == NextMatch(base, pred, 0)
      ensures Eq(r, EndIndex()) <==> Filtered(base, pred) == []
      ensures Eq(r, EndIndex()) <==> forall j :: 0 <= j < |base| ==> !pred(base[j])
      ensures r.base < |base| ==> pred(base[r.base]) && forall j :: 0 <= j < r.base ==> !pred(base[j])
      ensures IsValidPosition(r)
    {
      var b := NextFiltered(0);
      r := LazyFilterIndex(b);
      FilteredEmptyFrom(base, pred, 0);
      assert base[0..] == base;
      NextMatchIdempotent(base, pred, 0);
    }

    /** `endIndex`: the base end, a position neither scan moves away from, whatever the limit. */
    function EndIndex(): (r: LazyFilterIndex)
      ensures r.base == |base| && IsValidPosition(r)
      ensures forall l: nat :: NextMatchWithin(base, pred, r.base, l) == r.base
    {
      LazyFilterIndex(|base|)
    }

    /**
      `successor(of:)` as written: the unbounded scan started at `i.base` itself. It never moves
      backwards, and on a position the view produced it does not move at all.
     */
    method Successor(i: LazyFilterIndex) returns (r: LazyFilterIndex)
      requires i.base <= |base|
      ensures r.base == NextMatch(base, pred, i.base)
      ensures Le(i, r) && IsValidPosition(r)
      ensures i.base < |base| && pred(base[i.base]) ==> r == i
      ensures IsValidPosition(i) ==> r == i
    {
      var b := NextFiltered(i.base);
      r := LazyFilterIndex(b);
      NextMatchIdempotent(base, pred, i.base);
    }

    /**
      `advance(_:by:)` as written: `n` unbounded scans in a row, stopping early at the end. The
      first scan does all the moving, so the result is `i` for `n == 0` and the scan result otherwise.
     */
    method Advance(i: LazyFilterIndex, n: int) returns (r: LazyFilterIndex)
      requires n >= 0
      requires i.base <= |base|
      ensures r == if n == 0 then i else LazyFilterIndex(NextMatch(base, pred, i.base))
      ensures Le(i, r)
    {
      var index := i.base;
      for k := 0 to n
        invariant index == if k == 0 then i.base else NextMatch(base, pred, i.base)
      {
        var atEnd;
        NextMatchIdempotent(base, pred, i.base);
        index, atEnd := NextFilteredInPlace(index);
        if atEnd {
          break;
        }
      }
      r := LazyFilterIndex(index);
    }

    /**
      `advance(_:by:limit:)` as written: `n` bounded scans in a row, stopping early at the end or
      at `limit`. Started at or before `limit`, it never ends up past `limit`.
     */
    method AdvanceLimited(i: LazyFilterIndex, n: int, limit: LazyFilterIndex) returns (r: LazyFilterIndex)
      requires n >= 0
      requires i.base <= |base|
      ensures r.base == if n == 0 then i.base else NextMatchWithin(base, pred, i.base, limit.base)
      ensures Le(i, r)
      ensures Le(i, limit) ==> Le(r, limit)
      ensures n > 0 && Eq(i, limit) ==> r == i
    {
      var index := i.base;
      for k := 0 to n
        invariant index == if k == 0 then i.base else NextMatchWithin(base, pred, i.base, limit.base)
      {
        var stopped;
        NextMatchWithinIdempotent(base, pred, i.base, limit.base);
        index, stopped := NextFilteredInPlaceLimited(index, limit.base);
        if stopped {
          break;
        }
      }
      r := LazyFilterIndex(index);
      NextMatchWithinIsCutOff(base, pred, i.base, limit.base);
    }

    /**
      `subscript`: the base element at the wrapped position. At a position the view produced the
      element satisfies `pred`, so callers need not test it again.
     */
    function Subscript(position: LazyFilterIndex): (r: T)
      requires position.base < |base|
      ensures r == base[position.base]
      ensures IsValidPosition(position) ==> pred(r)
    {
      base[position.base]
    }

    /** `makeIterator`: a filter iterator over a fresh traversal of the base, independent of the positions. */
    method MakeIterator() returns (it: LazyFilterIterator<T>)
      ensures fresh(it) && it.Valid()
      ensures it.elements == base && it.position == 0 && it.pred == pred
      ensures it.Pending() == Filtered(base, pred)
    {
      it := new LazyFilterIterator(base, 0, pred);
      assert base[0..] == base;
    }
  }
}
