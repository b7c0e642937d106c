/**
  Reference definitions for the lazy filter adapter.

  A base collection is a `seq<T>`; its positions are the naturals `0..|s|`, with `|s|` playing
  the part of the base `endIndex`. The filtering predicate is a total `T -> bool`.
 */
module FilterSpec {

  /** The elements of `s` that satisfy `p`, in the order of `s`: what an eager filter would build. */
  function Filtered<T>(s: seq<T>, p: T -> bool): (r: seq<T>)
  {
    if s == [] then []
    else (if p(s[0]) then [s[0]] else []) + Filtered(s[1..], p)
  }

  /**
    The first position at or after `i` whose element satisfies `p`, or `|s|` if none does:
    where the unbounded scan stops when it starts at `i`.
   */
  function NextMatch<T>(s: seq<T>, p: T -> bool, i: nat): (r: nat)
    requires i <= |s|
    ensures i <= r <= |s|
    ensures r < |s| ==> p(s[r])
    ensures forall j :: i <= j < r ==> !p(s[j])
    decreases |s| - i
  {
    if i == |s| then i
    else if p(s[i]) then i
    else NextMatch(s, p, i + 1)
  }

  /**
    Where the bounded scan stops when it starts at `i` with bound `limit`: it gives up at `limit`
    or at `|s|`, whichever it meets first, and otherwise stops at a matching element.
   */
  function NextMatchWithin<T>(s: seq<T>, p: T -> bool, i: nat, limit: nat): (r: nat)
    requires i <= |s|
    ensures i <= r <= |s|
    ensures r < |s| && r != limit ==> p(s[r])
    ensures forall j :: i <= j < r ==> !p(s[j])
    ensures i <= limit ==> r <= limit
    decreases |s| - i
  {
    if i == limit || i == |s| then i
    else if p(s[i]) then i
    else NextMatchWithin(s, p, i + 1, limit)
  }

  function Min(a: nat, b: nat): (r: nat)
  {
    if a <= b then a else b
  }

  /** The three properties of `NextMatch` determine it: any `r` that has them is `NextMatch(s, p, i)`. */
  lemma NextMatchUnique<T>(s: seq<T>, p: T -> bool, i: nat, r: nat)
    requires i <= r <= |s|
    requires r < |s| ==> p(s[r])
    requires forall j :: i <= j < r ==> !p(s[j])
    ensures r == NextMatch(s, p, i)
  {
  }

  /** Scanning again from where a scan stopped does not move: the scan is idempotent. */
  lemma NextMatchIdempotent<T>(s: seq<T>, p: T -> bool, i: nat)
    requires i <= |s|
    ensures NextMatch(s, p, NextMatch(s, p, i)) == NextMatch(s, p, i)
  {
  }

  /** The bounded scan is idempotent as well. */
  lemma NextMatchWithinIdempotent<T>(s: seq<T>, p: T -> bool, i: nat, limit: nat)
    requires i <= |s|
    ensures NextMatchWithin(s, p, NextMatchWithin(s, p, i, limit), limit) == NextMatchWithin(s, p, i, limit)
  {
  }

  /**
    The bounded scan is the unbounded one cut off at `limit` when it starts at or before `limit`;
    a `limit` already behind the start is never met, and the bound has no effect.
   */
  lemma NextMatchWithinIsCutOff<T>(s: seq<T>, p: T -> bool, i: nat, limit: nat)
    requires i <= |s|
    ensures NextMatchWithin(s, p, i, limit)
         == if i <= limit then Min(NextMatch(s, p, i), limit) else NextMatch(s, p, i)
  {
  }

  /** Filtering a concatenation filters each part. */
  lemma {:induction false} FilteredAppend<T>(a: seq<T>, b: seq<T>, p: T -> bool)
    ensures Filtered(a + b, p) == Filtered(a, p) + Filtered(b, p)
  {
    if a == [] {
      assert a + b == b;
    } else {
      var head := if p(a[0]) then [a[0]] else [];
      assert (a + b)[0] == a[0];
      assert (a + b)[1..] == a[1..] + b;
      assert Filtered(a + b, p) == head + Filtered(a[1..] + b, p);
      FilteredAppend(a[1..], b, p);
      assert head + (Filtered(a[1..], p) + Filtered(b, p)) == (head + Filtered(a[1..], p)) + Filtered(b, p);
    }
  }

  /** An element is kept exactly when it occurs in the base and satisfies the predicate. */
  lemma {:induction false} FilteredMembers<T>(s: seq<T>, p: T -> bool, x: T)
    ensures x in Filtered(s, p) <==> x in s && p(x)
  {
    if s != [] {
      FilteredMembers(s[1..], p, x);
      assert s == [s[0]] + s[1..];
    }
  }

  /**
    Filtering the suffix from `i` is: the element where the scan from `i` stops (if it is not the
    end), followed by the filtered suffix after it. This is one step of a pull iteration.
   */
  lemma {:induction false} FilteredFrom<T>(s: seq<T>, p: T -> bool, i: nat)
    requires i <= |s|
    ensures var k := NextMatch(s, p, i);
      Filtered(s[i..], p) == if k == |s| then [] else [s[k]] + Filtered(s[k + 1..], p)
    decreases |s| - i
  {
    if i < |s| {
      assert s[i..][0] == s[i];
      assert s[i..][1..] == s[i + 1..];
      if !p(s[i]) {
        FilteredFrom(s, p, i + 1);
      }
    }
  }

  /** The filtered suffix from `i` is empty exactly when the scan from `i` reaches the end. */
  lemma FilteredEmptyFrom<T>(s: seq<T>, p: T -> bool, i: nat)
    requires i <= |s|
    ensures Filtered(s[i..], p) == [] <==> NextMatch(s, p, i) == |s|
  {
    FilteredFrom(s, p, i);
  }

  /** No element satisfies the predicate exactly when filtering keeps nothing. */
  lemma FilteredEmpty<T>(s: seq<T>, p: T -> bool)
    ensures Filtered(s, p) == [] <==> forall j :: 0 <= j < |s| ==> !p(s[j])
  {
  }
}
