/** The three comparators an ArraySortedSet can be built with, over a concrete
    element type.

    `Elem` stands for the set's element type T. Its natural order (what
    `Comparable.compareTo` sees) looks at `key` only, while equality (what
    `equals` sees) looks at both fields, so two elements can be
    comparator-equal without being equal. */
module Comparators {

  datatype Elem = Elem(key: int, tag: int)

  datatype Comparator = Default | Neutral | Reverse

  /** Integer.compareTo: -1, 0 or 1 by the sign of x - y. */
  function CompareTo(x: int, y: int): (r: int)
    ensures r < 0 <==> x < y
    ensures r == 0 <==> x == y
    ensures r > 0 <==> x > y
  {
    if x < y then -1 else if x == y then 0 else 1
  }

  /** compare(left, right) of each comparator. */
  function Compare(c: Comparator, left: Elem, right: Elem): int
  {
    match c
    case Default => CompareTo(left.key, right.key)
    case Neutral => 1
    case Reverse => CompareTo(right.key, left.key)
  }

  /** Default and Reverse are total orders on keys; Neutral orders nothing. */
  predicate Consistent(c: Comparator)
  {
    !c.Neutral?
  }

  /** The integer a consistent comparator sorts by. */
  function Rank(c: Comparator, e: Elem): int
  {
    if c.Reverse? then -e.key else e.key
  }

  /** A consistent comparator compares ranks, and so is a total order on keys;
      Neutral never reports two elements equal, not even an element and itself. */
  lemma CompareLaws(c: Comparator, a: Elem, b: Elem)
    ensures Consistent(c) ==> Compare(c, a, b) == CompareTo(Rank(c, a), Rank(c, b))
    ensures Consistent(c) ==> (Compare(c, a, b) == 0 <==> a.key == b.key)
    ensures Consistent(c) ==> Compare(c, a, b) == -Compare(c, b, a)
    ensures c.Reverse? ==> Compare(c, a, b) == Compare(Default, b, a)
    ensures !Consistent(c) ==> Compare(c, a, b) > 0
  {
  }
}
