/**
  `LazyFilterIterator` and `LazyFilterSequence`.

  The base iterator is a cursor over the elements the base sequence produces: `elements` is what
  it will produce overall and `position` is how many of them it has handed out so far.
 */
module FilterIterator {
  import opened Wrappers
  import opened FilterSpec

  /** A pull iterator over the base elements that satisfy `pred`. */
  class LazyFilterIterator<T> {
    /** What the base iterator produces, from its first element to its last. */
    const elements: seq<T>
    /** The state of the base iterator: the number of elements it has already handed out. */
    var position: nat
    /** The predicate that decides which base elements this iterator produces. */
    const pred: T -> bool

    ghost predicate Valid()
      reads this
    {
      position <= |elements|
    }

    /** The elements the base iterator has not handed out yet. */
    ghost function Remaining(): seq<T>
      reads this
      requires Valid()
    {
      elements[position..]
    }

    /** The elements this iterator will still produce, in order. */
    ghost function Pending(): seq<T>
      reads this
      requires Valid()
    {
      Filtered(Remaining(), pred)
    }

    /** Wraps a base iterator that has already handed out `position` of its `elements`. */
    constructor (elements: seq<T>, position: nat, pred: T -> bool)
      requires position <= |elements|
      ensures Valid()
      ensures this.elements == elements && this.position == position && this.pred == pred
    {
      this.elements := elements;
      this.position := position;
      this.pred := pred;
    }

    /** One pull from the base iterator: its next element, or `None` once it is exhausted. */
    method BaseNext() returns (r: Option<T>)
      requires Valid()
      modifies this`position
      ensures Valid()
      ensures old(position) < |elements| ==> r == Some(elements[old(position)]) && position == old(position) + 1
      ensures old(position) == |elements| ==> r == None && position == old(position)
    {
      if position < |elements| {
        r := Some(elements[position]);
        position := position + 1;
      } else {
        r := None;
      }
    }

    /**
      Pulls from the base until an element satisfies `pred` and returns it, or returns `None`
      when the base runs out first. Every element pulled before the returned one is discarded.
     */
    method Next() returns (r: Option<T>)
      requires Valid()
      modifies this`position
      ensures Valid()
      ensures var k := NextMatch(elements, pred, old(position));
        if k < |elements| then r == Some(elements[k]) && position == k + 1
        else r == None && position == |elements|
      ensures r.Some? ==> pred(r.value) && old(position) < position
      ensures old(Pending()) == (if r.Some? then [r.value] else []) + Pending()
    {
      ghost var start := position;
      r := BaseNext();
      while r.Some? && !pred(r.value)
        invariant Valid() && start <= position
        invariant r.Some? ==> start < position && r.value == elements[position - 1]
        invariant r.None? ==> position == |elements|
        invariant forall j :: start <= j < position - 1 ==> !pred(elements[j])
        invariant r.Some? && !pred(r.value) ==> !pred(elements[position - 1])
        invariant r.None? ==> forall j :: start <= j < position ==> !pred(elements[j])
        decreases |elements| - position, r.Some?
      {
        r := BaseNext();
      }
      if r.Some? {
        NextMatchUnique(elements, pred, start, position - 1);
      } else {
        NextMatchUnique(elements, pred, start, |elements|);
      }
      FilteredFrom(elements, pred, start);
    }
  }

  /** A multi-pass filtered view of a base sequence; it only stores the base and the predicate. */
  datatype LazyFilterSequence<!T> = LazyFilterSequence(base: seq<T>, pred: T -> bool)
  {
    /** A fresh filter iterator over a fresh traversal of the base. */
    method MakeIterator() returns (it: LazyFilterIterator<T>)
      ensures fresh(it) && it.Valid()
      ensures it.elements == base && it.position == 0 && it.pred == pred
      ensures it.Pending() == Filtered(base, pred)
    {
      it := new LazyFilterIterator(base, 0, pred);
      assert base[0..] == base;
    }
  }
}
