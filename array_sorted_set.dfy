/** com.jcabi.immutable.ArraySortedSet: an immutable sorted set on top of an
    array that is written once, by a constructor, and never again. Every
    "mutator" fills a fresh TreeSet from the receiver, edits it and copies it
    into a new instance; the write methods of java.util.Set all refuse. */
module Immutable {
  import opened Comparators
  import opened TreeSets

  /** The exceptions the set throws. */
  datatype Error = NoSuchElement | UnsupportedOperation

  datatype Result<T> = Ok(value: T) | Err(error: Error)

  /** The source of the two-argument constructor: another ArraySortedSet, or
      any other collection, given by its iteration order. */
  datatype Collection = SortedArray(other: ArraySortedSet) | Other(items: seq<Elem>)

  /** Arrays.asList(values).indexOf: the first position holding key, by
      equality, or -1. */
  function IndexOf(s: seq<Elem>, key: Elem): (r: int)
    ensures -1 <= r < |s|
    ensures r == -1 <==> key !in s
    ensures r >= 0 ==> s[r] == key && key !in s[..r]
    decreases |s|
  {
    if s == [] then -1
    else if s[0] == key then 0
    else
      var k := IndexOf(s[1..], key);
      assert s[1..][..if k < 0 then 0 else k] == s[1..1 + if k < 0 then 0 else k];
      if k < 0 then -1 else 1 + k
  }

  /** Arrays.deepEquals on arrays of non-array elements: same length and
      equal elements, position by position. */
  function DeepEquals(a: seq<Elem>, b: seq<Elem>): (r: bool)
    ensures r <==> a == b
    decreases |a|
  {
    if |a| != |b| then false
    else if a == [] then true
    else
      assert a == [a[0]] + a[1..] && b == [b[0]] + b[1..];
      a[0] == b[0] && DeepEquals(a[1..], b[1..])
  }

  /** System.arraycopy(src, 0, dest, 0, length). */
  method ArrayCopy(src: seq<Elem>, dest: array<Elem>, length: nat)
    requires length <= |src| && length <= dest.Length
    modifies dest
    ensures dest[..length] == src[..length]
    ensures dest[length..] == old(dest[length..])
  {
    var i := 0;
    while i < length
      invariant 0 <= i <= length
      invariant dest[..i] == src[..i]
      invariant dest[length..] == old(dest[length..])
    {
      dest[i] := src[i];
      i := i + 1;
    }
  }

  class ArraySortedSet {
    /** All values; final, and never written after construction. */
    const values: seq<Elem>
    /** The comparator the set was built with. */
    const cmp: Comparator

    /** values are the in-order contents of a tree built with cmp: what every
        set built from a plain collection satisfies, and what with and
        without rely on. */
    predicate Valid()
    {
      Ordered(cmp, values)
    }

    /** new ArraySortedSet(comparator): the empty set. */
    constructor Empty(comparator: Comparator)
      ensures cmp == comparator && values == [] && Valid()
    {
      cmp := comparator;
      values := [];
    }

    /** new ArraySortedSet(set, comparator): another ArraySortedSet's array is
        adopted as it is, whatever comparator it was built with; any other
        collection is added to a fresh TreeSet and copied out. */
    constructor (source: Collection, comparator: Comparator)
      ensures cmp == comparator
      ensures source.SortedArray? ==> values == source.other.values
      ensures source.SortedArray? ==> (Valid() <==> Ordered(comparator, source.other.values))
      ensures source.Other? ==> values == Build(comparator, source.items) && Valid()
    {
      cmp := comparator;
      if source.SortedArray? {
        values := source.other.values;
      } else {
        var hset := new TreeSet(comparator);
        hset.AddAll(source.items);
        BuildOrdered(comparator, source.items);
        values := hset.elems;
      }
    }

    /** with(value): a new set holding value in place of any element the
        comparator reports equal to it. */
    method With(value: Elem) returns (r: ArraySortedSet)
      requires Valid()
      ensures fresh(r) && r.cmp == cmp && r.Valid()
      ensures r.values == Replace(cmp, values, value)
    {
      var list := new TreeSet(cmp);
      list.AddAll(values);
      BuildOrderedIsIdentity(cmp, values);
      list.Remove(value);
      list.Add(value);
      ReplaceOrdered(cmp, values, value);
      BuildOrderedIsIdentity(cmp, list.elems);
      r := new ArraySortedSet(Other(list.elems), cmp);
    }

    /** with(vals) for a list vals: a new set built by removeAll(vals) and
        addAll(vals) on a copy of the receiver. */
    method WithAll(vals: seq<Elem>) returns (r: ArraySortedSet)
      requires Valid()
      ensures fresh(r) && r.cmp == cmp && r.Valid()
      ensures r.values == WithAllOf(cmp, values, vals)
      ensures |values| > |vals| ==> r.values == WithAllReplacing(cmp, values, vals)
    {
      var list := new TreeSet(cmp);
      list.AddAll(values);
      BuildOrderedIsIdentity(cmp, values);
      list.RemoveAll(vals);
      list.AddAll(vals);
      WithAllMembers(cmp, values, vals);
      if |values| > |vals| {
        WithAllAgreesWhenLarger(cmp, values, vals);
      }
      BuildOrderedIsIdentity(cmp, list.elems);
      r := new ArraySortedSet(Other(list.elems), cmp);
    }

    /** without(value): a new set without the element the comparator reports
        equal to value, if there is one. */
    method Without(value: Elem) returns (r: ArraySortedSet)
      requires Valid()
      ensures fresh(r) && r.cmp == cmp && r.Valid()
      ensures r.values == Delete(cmp, values, value)
    {
      var list := new TreeSet(cmp);
      list.AddAll(values);
      BuildOrderedIsIdentity(cmp, values);
      list.Remove(value);
      DeleteOrdered(cmp, values, value);
      BuildOrderedIsIdentity(cmp, list.elems);
      r := new ArraySortedSet(Other(list.elems), cmp);
    }

    /** equals(object): another ArraySortedSet (null stands for any object
        that is not one) whose array is element-wise equal, comparators
        ignored. */
    function Equals(other: ArraySortedSet?): (b: bool)
      ensures b <==> other != null && values == other.values
    {
      other != null && DeepEquals(values, other.values)
    }

    /** size(): the length of the array; for a valid set under Default or
        Reverse, the number of distinct keys. */
    function Size(): (n: nat)
      ensures n == |values|
      ensures Valid() && Consistent(cmp) ==> n == |KeySet(values)|
    {
      if Valid() && Consistent(cmp) then
        OrderedKeyCount(cmp, values);
        |values|
      else
        |values|
    }

    /** isEmpty() */
    function IsEmpty(): (b: bool)
      ensures b <==> Size() == 0
      ensures b <==> First().Err?
    {
      |values| == 0
    }

    /** contains(key): an equality scan of the array; the comparator is not
        consulted. */
    function Contains(key: Elem): (b: bool)
      ensures b <==> exists i :: 0 <= i < |values| && values[i] == key
    {
      IndexOf(values, key) >= 0
    }

    /** containsAll(col): contains(e) for every e of col, in order. */
    function ContainsAll(col: seq<Elem>): (b: bool)
      ensures b <==> forall e :: e in col ==> e in values
      decreases |col|
    {
      if col == [] then true
      else
        assert forall e :: e in col <==> e == col[0] || e in col[1..];
        Contains(col[0]) && ContainsAll(col[1..])
    }

    /** first(): the first array element, the least by the comparator in a
        valid set under Default or Reverse. */
    function First(): (r: Result<Elem>)
      ensures r.Err? <==> values == []
      ensures r.Err? ==> r.error == NoSuchElement
      ensures r.Ok? ==> r.value == values[0]
      ensures r.Ok? && Valid() && Consistent(cmp) ==>
        forall i :: 0 < i < |values| ==> Compare(cmp, r.value, values[i]) < 0
    {
      OrderedEnds(cmp, values);
      if |values| == 0 then Err(NoSuchElement) else Ok(values[0])
    }

    /** last(): the last array element, the greatest by the comparator in a
        valid set under Default or Reverse. */
    function Last(): (r: Result<Elem>)
      ensures r.Err? <==> values == []
      ensures r.Err? ==> r.error == NoSuchElement
      ensures r.Ok? ==> r.value == values[|values| - 1]
      ensures r.Ok? && Valid() && Consistent(cmp) ==>
        forall i :: 0 <= i < |values| - 1 ==> Compare(cmp, r.value, values[i]) > 0
    {
      OrderedEnds(cmp, values);
      if |values| == 0 then Err(NoSuchElement) else Ok(values[|values| - 1])
    }

    /** toArray(): a fresh array with the elements in order. */
    method ToArray() returns (a: array<Elem>)
      ensures fresh(a) && a[..] == values
    {
      a := new Elem[|values|];
      ArrayCopy(values, a, |values|);
      assert a[..] == a[..|values|];
    }

    /** toArray(array): fills the caller's array when its length is exactly
        size(), otherwise a fresh one. */
    method ToArrayInto(a: array<Elem>) returns (dest: array<Elem>)
      modifies a
      ensures a.Length == |values| ==> dest == a
      ensures a.Length != |values| ==> fresh(dest) && unchanged(a)
      ensures dest[..] == values
    {
      if a.Length == |values| {
        dest := a;
      } else {
        dest := new Elem[|values|];
      }
      ArrayCopy(values, dest, |values|);
      assert dest[..] == dest[..|values|];
    }

    /** add(element) refuses. */
    function Add(element: Elem): (r: Result<bool>)
      ensures r == Err(UnsupportedOperation)
    {
      Err(UnsupportedOperation)
    }

    /** remove(obj) refuses. */
    function Remove(obj: Elem): (r: Result<bool>)
      ensures r == Err(UnsupportedOperation)
    {
      Err(UnsupportedOperation)
    }

    /** addAll(col) refuses. */
    function AddAll(col: seq<Elem>): (r: Result<bool>)
      ensures r == Err(UnsupportedOperation)
    {
      Err(UnsupportedOperation)
    }

    /** retainAll(col) refuses. */
    function RetainAll(col: seq<Elem>): (r: Result<bool>)
      ensures r == Err(UnsupportedOperation)
    {
      Err(UnsupportedOperation)
    }

    /** removeAll(col) refuses. */
    function RemoveAll(col: seq<Elem>): (r: Result<bool>)
      ensures r == Err(UnsupportedOperation)
    {
      Err(UnsupportedOperation)
    }

    /** clear() refuses. */
    function Clear(): (r: Result<()>)
      ensures r == Err(UnsupportedOperation)
    {
      Err(UnsupportedOperation)
    }

    /** subSet(from, till) refuses. */
    function SubSet(from: Elem, till: Elem): (r: Result<seq<Elem>>)
      ensures r == Err(UnsupportedOperation)
    {
      Err(UnsupportedOperation)
    }
  }
}
