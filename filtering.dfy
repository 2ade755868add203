/**
 * The `query.filter(...).all()` calls of the handlers, modelled as one
 * order-preserving filter over a stored sequence.
 */
module Filtering {

  /** The elements of s that satisfy p, in the order they appear in s. */
  function Filter<T(!new)>(s: seq<T>, p: T -> bool): (r: seq<T>)
    ensures |r| <= |s|
    ensures forall x :: x in r <==> x in s && p(x)
  {
    if s == [] then []
    else
      var rest := Filter(s[1..], p);
      assert s == [s[0]] + s[1..];
      if p(s[0]) then [s[0]] + rest else rest
  }

  /** Filtering keeps relative order: it distributes over concatenation. */
  lemma {:induction false} FilterAppend<T(!new)>(a: seq<T>, b: seq<T>, p: T -> bool)
    ensures Filter(a + b, p) == Filter(a, p) + Filter(b, p)
  {
    if a != [] {
      assert (a + b)[1..] == a[1..] + b;
      FilterAppend(a[1..], b, p);
    } else {
      assert a + b == b;
    }
  }

  /** A filter that every element passes returns the sequence unchanged. */
  lemma {:induction false} FilterKeepsAll<T(!new)>(s: seq<T>, p: T -> bool)
    requires forall x :: x in s ==> p(x)
    ensures Filter(s, p) == s
  {
    if s != [] {
      FilterKeepsAll(s[1..], p);
    }
  }

  /** A filter that no element passes returns nothing. */
  lemma {:induction false} FilterKeepsNone<T(!new)>(s: seq<T>, p: T -> bool)
    requires forall x :: x in s ==> !p(x)
    ensures Filter(s, p) == []
  {
    if s != [] {
      FilterKeepsNone(s[1..], p);
    }
  }

  /** Filtering out one rejected element between kept ones closes the gap it leaves. */
  lemma FilterDropsOne<T(!new)>(front: seq<T>, x: T, back: seq<T>, p: T -> bool)
    requires forall y :: y in front ==> p(y)
    requires forall y :: y in back ==> p(y)
    requires !p(x)
    ensures Filter(front + [x] + back, p) == front + back
  {
    FilterKeepsAll(front, p);
    FilterKeepsAll(back, p);
    assert Filter([x], p) == [];
    FilterAppend(front, [x], p);
    FilterAppend(front + [x], back, p);
  }

  /** A stricter predicate never keeps more elements. */
  lemma {:induction false} FilterMonotone<T(!new)>(s: seq<T>, p: T -> bool, q: T -> bool)
    requires forall x :: q(x) ==> p(x)
    ensures |Filter(s, q)| <= |Filter(s, p)|
  {
    if s != [] {
      FilterMonotone(s[1..], p, q);
    }
  }

  /**
   * A stricter predicate that rejects some element the weaker one keeps
   * keeps strictly fewer elements.
   */
  lemma {:induction false} FilterShrinks<T(!new)>(s: seq<T>, p: T -> bool, q: T -> bool, y: T)
    requires forall x :: q(x) ==> p(x)
    requires y in s && p(y) && !q(y)
    ensures |Filter(s, q)| < |Filter(s, p)|
  {
    if s[0] == y {
      FilterMonotone(s[1..], p, q);
    } else {
      assert y in s[1..];
      FilterShrinks(s[1..], p, q, y);
    }
  }
}
