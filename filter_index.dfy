/**
  `LazyFilterIndex`: a position of a filtered collection, which is one base position and nothing
  else. Its six comparisons forward to the base positions, so two filter indices are ordered,
  and equal, exactly as the base positions they wrap.
 */
module FilterIndex {

  datatype LazyFilterIndex = LazyFilterIndex(base: nat)

  /** `==`: two filter indices are equal exactly when they are the same value. */
  function Eq(lhs: LazyFilterIndex, rhs: LazyFilterIndex): (r: bool)
    ensures r <==> lhs == rhs
  {
    lhs.base == rhs.base
  }

  /** `!=` is the negation of `==`. */
  function Ne(lhs: LazyFilterIndex, rhs: LazyFilterIndex): (r: bool)
    ensures r <==> !Eq(lhs, rhs)
  {
    lhs.base != rhs.base
  }

  /** `<`: the order of the wrapped base positions; it never holds between equal indices. */
  function Lt(lhs: LazyFilterIndex, rhs: LazyFilterIndex): (r: bool)
    ensures r ==> Ne(lhs, rhs)
  {
    lhs.base < rhs.base
  }

  /** `<=` is `<` or `==`. */
  function Le(lhs: LazyFilterIndex, rhs: LazyFilterIndex): (r: bool)
    ensures r <==> Lt(lhs, rhs) || Eq(lhs, rhs)
  {
    lhs.base <= rhs.base
  }

  /** `>=` is `<=` with the operands swapped. */
  function Ge(lhs: LazyFilterIndex, rhs: LazyFilterIndex): (r: bool)
    ensures r <==> Le(rhs, lhs)
  {
    lhs.base >= rhs.base
  }

  /** `>` is `<` with the operands swapped. */
  function Gt(lhs: LazyFilterIndex, rhs: LazyFilterIndex): (r: bool)
    ensures r <==> Lt(rhs, lhs)
  {
    lhs.base > rhs.base
  }

  /**
    The filter-index order is a strict total order: irreflexive, transitive, and any two indices
    are related by exactly one of `<`, `==`, `>`.
   */
  lemma LtIsStrictTotalOrder(a: LazyFilterIndex, b: LazyFilterIndex, c: LazyFilterIndex)
    ensures !Lt(a, a)
    ensures Lt(a, b) ==> !Lt(b, a)
    ensures Lt(a, b) && Lt(b, c) ==> Lt(a, c)
    ensures (Lt(a, b) && !Eq(a, b) && !Gt(a, b))
         || (!Lt(a, b) && Eq(a, b) && !Gt(a, b))
         || (!Lt(a, b) && !Eq(a, b) && Gt(a, b))
  {
  }

  /** Each comparison of filter indices agrees with the same comparison of the base positions. */
  lemma ComparisonsForwardToBase(a: LazyFilterIndex, b: LazyFilterIndex)
    ensures Eq(a, b) == (a.base == b.base) && Ne(a, b) == (a.base != b.base)
    ensures Lt(a, b) == (a.base < b.base) && Le(a, b) == (a.base <= b.base)
    ensures Ge(a, b) == (a.base >= b.base) && Gt(a, b) == (a.base > b.base)
  {
  }
}
