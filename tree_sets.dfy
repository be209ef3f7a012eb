/** java.util.TreeSet as ArraySortedSet uses it: a transient buffer, built
    with one of the three comparators, that is filled, pruned and then copied
    out in iteration order.

    The buffer is modelled by its in-order contents. A TreeMap search for x
    compares compare(x, node) and goes right while that is positive; on
    contents that are `Ordered` the node where it stops is the first element
    that x does not compare greater than, which is what `Find` returns. */
module TreeSets {
  import opened Comparators

  /** The in-order contents of a tree built with c: every element compares
      greater than every element before it, so a search for it passes them
      all. Under Neutral every sequence qualifies. */
  predicate Ordered(c: Comparator, s: seq<Elem>)
  {
    forall i, j :: 0 <= i < j < |s| ==> Compare(c, s[j], s[i]) > 0
  }

  /** s holds an element that c reports equal to x. */
  predicate Matches(c: Comparator, s: seq<Elem>, x: Elem)
  {
    exists i :: 0 <= i < |s| && Compare(c, x, s[i]) == 0
  }

  /** The keys of the elements of s. */
  function KeySet(s: seq<Elem>): (r: set<int>)
    ensures forall k :: k in r <==> exists i :: 0 <= i < |s| && s[i].key == k
    decreases |s|
  {
    if s == [] then {} else KeySet(s[..|s| - 1]) + {s[|s| - 1].key}
  }

  /** Where a search for x stops: the first element x does not compare
      greater than, or the end. */
  function Find(c: Comparator, s: seq<Elem>, x: Elem): (i: nat)
    ensures i <= |s|
    ensures forall k :: 0 <= k < i ==> Compare(c, x, s[k]) > 0
    ensures i < |s| ==> Compare(c, x, s[i]) <= 0
  {
    if s == [] || Compare(c, x, s[0]) <= 0 then 0 else 1 + Find(c, s[1..], x)
  }

  /** TreeSet.add: x goes where the search stops, unless it stops on an
      element c reports equal to x, which then stays (add does not replace). */
  function Insert(c: Comparator, s: seq<Elem>, x: Elem): seq<Elem>
  {
    var i := Find(c, s, x);
    if i < |s| && Compare(c, x, s[i]) == 0 then s else s[..i] + [x] + s[i..]
  }

  /** TreeSet.remove: drops the element the search stops on if c reports it
      equal to x. */
  function Delete(c: Comparator, s: seq<Elem>, x: Elem): seq<Elem>
  {
    var i := Find(c, s, x);
    if i < |s| && Compare(c, x, s[i]) == 0 then s[..i] + s[i + 1..] else s
  }

  /** remove(x) followed by add(x), the body of ArraySortedSet.with(value). */
  function Replace(c: Comparator, s: seq<Elem>, x: Elem): seq<Elem>
  {
    Insert(c, Delete(c, s, x), x)
  }

  /** addAll as a loop of add over items in iteration order. */
  function AddEach(c: Comparator, b: seq<Elem>, items: seq<Elem>): seq<Elem>
    decreases |items|
  {
    if items == [] then b
    else Insert(c, AddEach(c, b, items[..|items| - 1]), items[|items| - 1])
  }

  /** A fresh TreeSet filled from items: the array a constructor stores. */
  function Build(c: Comparator, items: seq<Elem>): seq<Elem>
  {
    AddEach(c, [], items)
  }

  /** removeAll when the buffer is larger than the argument: remove each
      argument element in turn, by the comparator. */
  function RemoveEach(c: Comparator, s: seq<Elem>, items: seq<Elem>): seq<Elem>
    decreases |items|
  {
    if items == [] then s
    else Delete(c, RemoveEach(c, s, items[..|items| - 1]), items[|items| - 1])
  }

  /** removeAll otherwise: walk the buffer and drop every element the argument
      list contains, by equality. */
  function Retain(s: seq<Elem>, items: seq<Elem>): seq<Elem>
    decreases |s|
  {
    if s == [] then []
    else Retain(s[..|s| - 1], items) + (if s[|s| - 1] in items then [] else [s[|s| - 1]])
  }

  /** AbstractSet.removeAll with a list argument. */
  function RemoveAllOf(c: Comparator, s: seq<Elem>, items: seq<Elem>): seq<Elem>
  {
    if |s| > |items| then RemoveEach(c, s, items) else Retain(s, items)
  }

  /** The body of ArraySortedSet.with(Collection) as written: removeAll, then
      addAll. */
  function WithAllOf(c: Comparator, s: seq<Elem>, items: seq<Elem>): seq<Elem>
  {
    AddEach(c, RemoveAllOf(c, s, items), items)
  }

  // ---------------------------------------------------------------------
  // Search

  lemma OrderedByRank(c: Comparator, s: seq<Elem>, i: int, j: int)
    requires Consistent(c) && Ordered(c, s) && 0 <= i < j < |s|
    ensures Rank(c, s[i]) < Rank(c, s[j])
  {
    CompareLaws(c, s[j], s[i]);
  }

  /** On ordered contents an element c reports equal to x can only sit where
      the search for x stops. */
  lemma {:induction false} MatchAtFind(c: Comparator, s: seq<Elem>, x: Elem, j: int)
    requires Ordered(c, s) && 0 <= j < |s| && Compare(c, x, s[j]) == 0
    ensures j == Find(c, s, x)
  {
    var i := Find(c, s, x);
    CompareLaws(c, x, s[j]);
    if j > i {
      CompareLaws(c, x, s[i]);
      OrderedByRank(c, s, i, j);
    }
  }

  lemma MatchesByKey(c: Comparator, s: seq<Elem>, x: Elem)
    requires Consistent(c)
    ensures Matches(c, s, x) <==> x.key in KeySet(s)
  {
    if x.key in KeySet(s) {
      var e :| e in s && e.key == x.key;
      var j :| 0 <= j < |s| && s[j] == e;
      CompareLaws(c, x, s[j]);
    }
    if Matches(c, s, x) {
      var j :| 0 <= j < |s| && Compare(c, x, s[j]) == 0;
      CompareLaws(c, x, s[j]);
      assert s[j] in s;
    }
  }

  // ---------------------------------------------------------------------
  // Insert and Delete

  lemma {:induction false} InsertAfterAll(c: Comparator, s: seq<Elem>, x: Elem)
    requires forall k :: 0 <= k < |s| ==> Compare(c, x, s[k]) > 0
    ensures Insert(c, s, x) == s + [x]
  {
    var i := Find(c, s, x);
    if i < |s| {
      assert false;
    }
    assert s[..i] + [x] + s[i..] == s + [x];
  }

  lemma InsertShape(c: Comparator, s: seq<Elem>, x: Elem)
    ensures Insert(c, s, x) == s ==> Matches(c, s, x)
    ensures Insert(c, s, x) != s ==>
      var i := Find(c, s, x);
      Insert(c, s, x) == s[..i] + [x] + s[i..] && (i < |s| ==> Compare(c, x, s[i]) < 0)
    ensures forall e :: e in s ==> e in Insert(c, s, x)
    ensures forall e :: e in Insert(c, s, x) ==> e in s || e == x
  {
    var i := Find(c, s, x);
    if i < |s| && Compare(c, x, s[i]) == 0 {
    } else {
      var r := s[..i] + [x] + s[i..];
      assert |r| == |s| + 1;
      assert s == s[..i] + s[i..];
      forall e | e in s ensures e in r {
        assert e in s[..i] || e in s[i..];
      }
    }
  }

  /** In a valid tree everything from the first element x compares below
      compares above x. */
  lemma AboveFrom(c: Comparator, s: seq<Elem>, i: int, x: Elem)
    requires Ordered(c, s) && 0 <= i < |s| && Compare(c, x, s[i]) < 0
    ensures forall q :: i <= q < |s| ==> Compare(c, s[q], x) > 0
  {
    forall q | i <= q < |s| ensures Compare(c, s[q], x) > 0 {
      CompareLaws(c, s[q], x);
      CompareLaws(c, x, s[i]);
      if Consistent(c) && q > i {
        OrderedByRank(c, s, i, q);
      }
    }
  }

  /** An element above everything before position i and below everything
      from i on can be placed at i. */
  lemma SpliceOrdered(c: Comparator, s: seq<Elem>, i: int, x: Elem)
    requires Ordered(c, s) && 0 <= i <= |s|
    requires forall k :: 0 <= k < i ==> Compare(c, x, s[k]) > 0
    requires forall k :: i <= k < |s| ==> Compare(c, s[k], x) > 0
    ensures Ordered(c, s[..i] + [x] + s[i..])
  {
    var r := s[..i] + [x] + s[i..];
    assert forall k :: 0 <= k < |r| ==> r[k] == if k < i then s[k] else if k == i then x else s[k - 1];
  }

  /** TreeSet.add keeps the contents a valid tree. */
  lemma {:induction false} InsertOrdered(c: Comparator, s: seq<Elem>, x: Elem)
    requires Ordered(c, s)
    ensures Ordered(c, Insert(c, s, x))
  {
    var i := Find(c, s, x);
    if !(i < |s| && Compare(c, x, s[i]) == 0) {
      if i < |s| {
        AboveFrom(c, s, i, x);
      }
      SpliceOrdered(c, s, i, x);
    }
  }

  lemma OrderedRemoveAt(c: Comparator, s: seq<Elem>, i: int)
    requires Ordered(c, s) && 0 <= i < |s|
    ensures Ordered(c, s[..i] + s[i + 1..])
  {
    var r := s[..i] + s[i + 1..];
    assert forall k :: 0 <= k < |r| ==> r[k] == if k < i then s[k] else s[k + 1];
  }

  /** TreeSet.remove keeps the contents a valid tree. */
  lemma DeleteOrdered(c: Comparator, s: seq<Elem>, x: Elem)
    requires Ordered(c, s)
    ensures Ordered(c, Delete(c, s, x))
  {
    var i := Find(c, s, x);
    if i < |s| && Compare(c, x, s[i]) == 0 {
      OrderedRemoveAt(c, s, i);
    }
  }

  /** Cutting out the element the search for x stops on, when it compares
      equal to x, drops exactly the elements c reports equal to x. */
  lemma CutMembers(c: Comparator, s: seq<Elem>, x: Elem, i: int)
    requires Ordered(c, s) && 0 <= i < |s| && i == Find(c, s, x) && Compare(c, x, s[i]) == 0
    ensures forall e :: e in s[..i] + s[i + 1..] <==> e in s && Compare(c, x, e) != 0
  {
    var d := s[..i] + s[i + 1..];
    OnlyMatch(c, s, x);
    CutIndices(c, s, x, i);
    forall e | e in d ensures e in s && Compare(c, x, e) != 0 {
      var k :| 0 <= k < |d| && d[k] == e;
    }
    forall e | e in s && Compare(c, x, e) != 0 ensures e in d {
      var j :| 0 <= j < |s| && s[j] == e;
      assert j != i;
    }
  }

  /** In a valid tree only the element the search for x stops on can compare
      equal to x. */
  lemma OnlyMatch(c: Comparator, s: seq<Elem>, x: Elem)
    requires Ordered(c, s)
    ensures forall j :: 0 <= j < |s| && Compare(c, x, s[j]) == 0 ==> j == Find(c, s, x)
  {
    forall j | 0 <= j < |s| && Compare(c, x, s[j]) == 0 ensures j == Find(c, s, x) {
      MatchAtFind(c, s, x, j);
    }
  }

  /** The position-wise facts behind CutMembers. */
  lemma CutIndices(c: Comparator, s: seq<Elem>, x: Elem, i: int)
    requires 0 <= i < |s|
    requires forall j :: 0 <= j < |s| && j != i ==> Compare(c, x, s[j]) != 0
    ensures var d := s[..i] + s[i + 1..];
      && (forall k :: 0 <= k < |d| ==> d[k] in s && Compare(c, x, d[k]) != 0)
      && (forall j :: 0 <= j < |s| && j != i ==> s[j] in d)
  {
    var d := s[..i] + s[i + 1..];
    forall k | 0 <= k < |d| ensures d[k] in s && Compare(c, x, d[k]) != 0 {
      assert d[k] == s[if k < i then k else k + 1];
    }
    forall j | 0 <= j < |s| && j != i ensures s[j] in d {
      assert d[if j < i then j else j - 1] == s[j];
    }
  }

  /** In a valid tree where the search for x finds nothing equal, nothing
      compares equal to x. */
  lemma MissMembers(c: Comparator, s: seq<Elem>, x: Elem)
    requires Ordered(c, s)
    requires var i := Find(c, s, x); !(i < |s| && Compare(c, x, s[i]) == 0)
    ensures forall e :: e in s ==> Compare(c, x, e) != 0
  {
    forall e | e in s ensures Compare(c, x, e) != 0 {
      var j :| 0 <= j < |s| && s[j] == e;
      if Compare(c, x, e) == 0 {
        MatchAtFind(c, s, x, j);
      }
    }
  }

  /** remove(x) on a valid tree drops exactly the elements c reports equal to
      x (there is at most one) and keeps every other element. */
  lemma DeleteMembers(c: Comparator, s: seq<Elem>, x: Elem)
    requires Ordered(c, s)
    ensures forall e :: e in Delete(c, s, x) <==> e in s && Compare(c, x, e) != 0
    ensures !Matches(c, Delete(c, s, x), x)
  {
    var i := Find(c, s, x);
    var d := Delete(c, s, x);
    if i < |s| && Compare(c, x, s[i]) == 0 {
      CutMembers(c, s, x, i);
    } else {
      MissMembers(c, s, x);
    }
    forall k | 0 <= k < |d| ensures Compare(c, x, d[k]) != 0 {
      assert d[k] in d;
    }
  }

  /** When nothing in the tree compares equal to x, add inserts it. */
  lemma InsertMembers(c: Comparator, s: seq<Elem>, x: Elem)
    requires !Matches(c, s, x)
    ensures forall e :: e in Insert(c, s, x) <==> e in s || e == x
  {
    InsertShape(c, s, x);
    var i := Find(c, s, x);
    assert !(i < |s| && Compare(c, x, s[i]) == 0);
    assert Insert(c, s, x)[i] == x;
  }

  /** Under Neutral no search finds anything: add appends, remove keeps. */
  lemma NeutralAppends(s: seq<Elem>, x: Elem)
    ensures Insert(Neutral, s, x) == s + [x]
    ensures Delete(Neutral, s, x) == s
    ensures Replace(Neutral, s, x) == s + [x]
  {
    InsertAfterAll(Neutral, s, x);
  }

  // ---------------------------------------------------------------------
  // with(value)

  /** with(value) keeps the contents a valid tree. */
  lemma ReplaceOrdered(c: Comparator, s: seq<Elem>, x: Elem)
    requires Ordered(c, s)
    ensures Ordered(c, Replace(c, s, x))
  {
    DeleteOrdered(c, s, x);
    InsertOrdered(c, Delete(c, s, x), x);
  }

  /** with(value): the result holds value, every old element c does not
      report equal to value, and nothing else; an old element c reports
      equal to value is replaced by it. */
  lemma {:induction false} ReplaceMembers(c: Comparator, s: seq<Elem>, x: Elem)
    requires Ordered(c, s)
    ensures forall e :: e in Replace(c, s, x) <==> e == x || (e in s && Compare(c, x, e) != 0)
  {
    DeleteMembers(c, s, x);
    InsertMembers(c, Delete(c, s, x), x);
  }

  /** The replacement scenario: an element e1 comparator-equal to e2 but not
      equal to it is gone after with(e2), and e2 is there. */
  lemma ReplaceEvicts(c: Comparator, s: seq<Elem>, e1: Elem, e2: Elem)
    requires Ordered(c, s) && e1 in s && Compare(c, e2, e1) == 0 && e1 != e2
    ensures e1 !in Replace(c, s, e2) && e2 in Replace(c, s, e2)
  {
    ReplaceMembers(c, s, e2);
  }

  /** Adding an element no element matches, then removing it, restores the
      contents. */
  lemma {:induction false} InsertThenDelete(c: Comparator, d: seq<Elem>, x: Elem)
    requires Consistent(c) && Ordered(c, d) && !Matches(c, d, x)
    ensures Delete(c, Insert(c, d, x), x) == d
  {
    var i := Find(c, d, x);
    var t := Insert(c, d, x);
    InsertShape(c, d, x);
    assert t == d[..i] + [x] + d[i..];
    assert t[i] == x;
    CompareLaws(c, x, x);
    InsertOrdered(c, d, x);
    MatchAtFind(c, t, x, i);
    assert t[..i] == d[..i] && t[i + 1..] == d[i..];
  }

  /** with(x).with(x) equals with(x) for Default and Reverse. */
  lemma ReplaceIdempotent(c: Comparator, s: seq<Elem>, x: Elem)
    requires Consistent(c) && Ordered(c, s)
    ensures Replace(c, Replace(c, s, x), x) == Replace(c, s, x)
  {
    var d := Delete(c, s, x);
    DeleteOrdered(c, s, x);
    DeleteMembers(c, s, x);
    InsertThenDelete(c, d, x);
  }

  /** Under Neutral with(x) appends, so with(x).with(x) holds x twice. */
  lemma NeutralReplaceNotIdempotent(x: Elem)
    ensures Replace(Neutral, Replace(Neutral, [], x), x) == [x, x] != Replace(Neutral, [], x)
  {
    NeutralAppends([], x);
    NeutralAppends([x], x);
  }

  // ---------------------------------------------------------------------
  // without(value)

  /** without(value) is the receiver's array with at most one element taken
      out, one c reports equal to value; the rest stay in order. */
  lemma WithoutShape(c: Comparator, s: seq<Elem>, x: Elem)
    ensures var d := Delete(c, s, x);
      d == s || exists i :: 0 <= i < |s| && Compare(c, x, s[i]) == 0 && d == s[..i] + s[i + 1..]
    ensures |s| - 1 <= |Delete(c, s, x)| <= |s|
  {
    var i := Find(c, s, x);
    if i < |s| && Compare(c, x, s[i]) == 0 {
      assert Delete(c, s, x) == s[..i] + s[i + 1..];
    }
  }

  // ---------------------------------------------------------------------
  // Construction

  lemma AddEachSubset(c: Comparator, b: seq<Elem>, items: seq<Elem>)
    ensures forall e :: e in b ==> e in AddEach(c, b, items)
    ensures forall e :: e in AddEach(c, b, items) ==> e in b || e in items
    decreases |items|
  {
    if items != [] {
      var p := items[..|items| - 1];
      AddEachSubset(c, b, p);
      InsertShape(c, AddEach(c, b, p), items[|items| - 1]);
      assert forall e :: e in p ==> e in items;
    }
  }

  lemma {:induction false} AddEachOrdered(c: Comparator, b: seq<Elem>, items: seq<Elem>)
    requires Ordered(c, b)
    ensures Ordered(c, AddEach(c, b, items))
    decreases |items|
  {
    if items != [] {
      AddEachOrdered(c, b, items[..|items| - 1]);
      InsertOrdered(c, AddEach(c, b, items[..|items| - 1]), items[|items| - 1]);
    }
  }

  /** A constructed set is a valid tree's contents. */
  lemma BuildOrdered(c: Comparator, items: seq<Elem>)
    ensures Ordered(c, Build(c, items))
  {
    AddEachOrdered(c, [], items);
  }

  /** Under Default and Reverse the constructed array is strictly increasing
      by the comparator, and no two of its elements compare equal. */
  lemma BuildStrictlySorted(c: Comparator, items: seq<Elem>)
    requires Consistent(c)
    ensures var s := Build(c, items);
      forall i, j :: 0 <= i < j < |s| ==> Compare(c, s[i], s[j]) < 0
  {
    var s := Build(c, items);
    BuildOrdered(c, items);
    forall i, j | 0 <= i < j < |s| ensures Compare(c, s[i], s[j]) < 0 {
      CompareLaws(c, s[i], s[j]);
    }
  }

  /** Re-building from an ordered array gives the same array: the adopted
      contents of TreeSet.addAll's sorted shortcut and the round trip of
      toArray through the constructor. */
  lemma {:induction false} BuildOrderedIsIdentity(c: Comparator, s: seq<Elem>)
    requires Ordered(c, s)
    ensures Build(c, s) == s
    decreases |s|
  {
    if s != [] {
      var p := s[..|s| - 1];
      assert Ordered(c, p);
      BuildOrderedIsIdentity(c, p);
      InsertAfterAll(c, p, s[|s| - 1]);
      assert p + [s[|s| - 1]] == s;
    }
  }

  /** Under Neutral every source element is kept, repeats included, in
      source order. */
  lemma {:induction false} NeutralBuildKeepsAll(items: seq<Elem>)
    ensures Build(Neutral, items) == items
    decreases |items|
  {
    if items != [] {
      var p := items[..|items| - 1];
      NeutralBuildKeepsAll(p);
      NeutralAppends(p, items[|items| - 1]);
      assert p + [items[|items| - 1]] == items;
    }
  }

  lemma KeySetConcat(a: seq<Elem>, b: seq<Elem>)
    ensures KeySet(a + b) == KeySet(a) + KeySet(b)
  {
    forall k | k in KeySet(a + b) ensures k in KeySet(a) + KeySet(b) {
      var j :| 0 <= j < |a + b| && (a + b)[j].key == k;
      if j >= |a| {
        assert b[j - |a|].key == k;
      }
    }
    forall k | k in KeySet(a) ensures k in KeySet(a + b) {
      var j :| 0 <= j < |a| && a[j].key == k;
      assert (a + b)[j] == a[j];
    }
    forall k | k in KeySet(b) ensures k in KeySet(a + b) {
      var j :| 0 <= j < |b| && b[j].key == k;
      assert (a + b)[|a| + j] == b[j];
    }
  }

  lemma KeysOfSplice(a: seq<Elem>, x: Elem, b: seq<Elem>)
    ensures KeySet(a + [x] + b) == KeySet(a + b) + {x.key}
  {
    KeySetConcat(a + [x], b);
    KeySetConcat(a, [x]);
    KeySetConcat(a, b);
    assert [x][..0] == [];
  }

  lemma InsertKeys(c: Comparator, s: seq<Elem>, x: Elem)
    requires Consistent(c)
    ensures KeySet(Insert(c, s, x)) == KeySet(s) + {x.key}
  {
    var i := Find(c, s, x);
    if i < |s| && Compare(c, x, s[i]) == 0 {
      CompareLaws(c, x, s[i]);
      assert s[i].key == x.key;
    } else {
      assert s == s[..i] + s[i..];
      KeysOfSplice(s[..i], x, s[i..]);
    }
  }

  lemma {:induction false} AddEachKeys(c: Comparator, b: seq<Elem>, items: seq<Elem>)
    requires Consistent(c)
    ensures KeySet(AddEach(c, b, items)) == KeySet(b) + KeySet(items)
    decreases |items|
  {
    if items != [] {
      var p := items[..|items| - 1];
      AddEachKeys(c, b, p);
      InsertKeys(c, AddEach(c, b, p), items[|items| - 1]);
    }
  }

  /** A constructed set keeps exactly the source's keys. */
  lemma BuildKeys(c: Comparator, items: seq<Elem>)
    requires Consistent(c)
    ensures KeySet(Build(c, items)) == KeySet(items)
  {
    AddEachKeys(c, [], items);
  }

  /** Ordered contents under Default or Reverse have distinct keys. */
  lemma {:induction false} OrderedKeyCount(c: Comparator, s: seq<Elem>)
    requires Consistent(c) && Ordered(c, s)
    ensures |s| == |KeySet(s)|
    decreases |s|
  {
    if s != [] {
      var p := s[..|s| - 1];
      var x := s[|s| - 1];
      assert Ordered(c, p);
      OrderedKeyCount(c, p);
      forall j | 0 <= j < |p| ensures p[j].key != x.key {
        OrderedByRank(c, s, j, |s| - 1);
      }
    }
  }

  /** The first element of ordered contents under Default or Reverse is the
      least by the comparator and the last is the greatest. */
  lemma OrderedEnds(c: Comparator, s: seq<Elem>)
    ensures Consistent(c) && Ordered(c, s) ==>
      forall i :: 0 < i < |s| ==> Compare(c, s[0], s[i]) < 0
    ensures Consistent(c) && Ordered(c, s) ==>
      forall i :: 0 <= i < |s| - 1 ==> Compare(c, s[|s| - 1], s[i]) > 0
  {
    if Consistent(c) && Ordered(c, s) {
      forall i | 0 < i < |s| ensures Compare(c, s[0], s[i]) < 0 {
        CompareLaws(c, s[0], s[i]);
      }
    }
  }

  /** size() of a constructed set: the number of distinct keys under
      Default or Reverse, the number of source elements under Neutral. */
  lemma BuildSize(c: Comparator, items: seq<Elem>)
    ensures Consistent(c) ==> |Build(c, items)| == |KeySet(items)|
    ensures c.Neutral? ==> |Build(c, items)| == |items|
  {
    if Consistent(c) {
      BuildOrdered(c, items);
      OrderedKeyCount(c, Build(c, items));
      BuildKeys(c, items);
    } else {
      NeutralBuildKeepsAll(items);
    }
  }

  lemma BuildMatches(c: Comparator, items: seq<Elem>, x: Elem)
    ensures Matches(c, Build(c, items), x) <==> Matches(c, items, x)
  {
    if Consistent(c) {
      BuildKeys(c, items);
      MatchesByKey(c, Build(c, items), x);
      MatchesByKey(c, items, x);
    } else {
      NeutralBuildKeepsAll(items);
    }
  }

  /** Construction keeps, of each group of source elements the comparator
      reports equal, the first one met: an element is stored exactly when it
      occurs in the source with nothing before it that compares equal. */
  lemma {:induction false} BuildMembers(c: Comparator, items: seq<Elem>)
    ensures forall e :: e in Build(c, items) <==>
      exists i :: 0 <= i < |items| && items[i] == e && !Matches(c, items[..i], e)
    decreases |items|
  {
    if items != [] {
      var n := |items| - 1;
      var p := items[..n];
      var x := items[n];
      BuildMembers(c, p);
      BuildOrdered(c, p);
      BuildMatches(c, p, x);
      var b := Build(c, p);
      assert Build(c, items) == Insert(c, b, x);
      forall e ensures e in Insert(c, b, x) <==>
        exists i :: 0 <= i < |items| && items[i] == e && !Matches(c, items[..i], e)
      {
        assert forall i :: 0 <= i < n ==> items[..i] == p[..i] && items[i] == p[i];
        assert items[..n] == p;
        if Matches(c, b, x) {
          InsertShape(c, b, x);
          var j :| 0 <= j < |b| && Compare(c, x, b[j]) == 0;
          MatchAtFind(c, b, x, j);
          assert Insert(c, b, x) == b;
        } else {
          InsertMembers(c, b, x);
        }
      }
    }
  }

  /** The same source under Default and under Reverse gives arrays in
      opposite orders, so two sets built from it are unequal once it holds
      two distinct keys. */
  lemma DefaultReverseDiffer(items: seq<Elem>)
    requires |KeySet(items)| >= 2
    ensures Build(Default, items) != Build(Reverse, items)
  {
    var d, r := Build(Default, items), Build(Reverse, items);
    BuildSize(Default, items);
    BuildSize(Reverse, items);
    BuildStrictlySorted(Default, items);
    BuildStrictlySorted(Reverse, items);
    assert d[0].key < d[1].key;
    assert r[1].key < r[0].key;
  }

  // ---------------------------------------------------------------------
  // with(Collection)

  lemma {:induction false} RemoveEachMembers(c: Comparator, s: seq<Elem>, items: seq<Elem>)
    requires Ordered(c, s)
    ensures Ordered(c, RemoveEach(c, s, items))
    ensures forall e :: e in RemoveEach(c, s, items) <==>
      e in s && forall v :: v in items ==> Compare(c, v, e) != 0
    decreases |items|
  {
    if items != [] {
      var p := items[..|items| - 1];
      var x := items[|items| - 1];
      RemoveEachMembers(c, s, p);
      DeleteOrdered(c, RemoveEach(c, s, p), x);
      DeleteMembers(c, RemoveEach(c, s, p), x);
      assert items == p + [x];
    }
  }

  /** Appending an element above all others keeps the contents ordered. */
  lemma OrderedSnoc(c: Comparator, r: seq<Elem>, x: Elem)
    requires Ordered(c, r) && forall k :: 0 <= k < |r| ==> Compare(c, x, r[k]) > 0
    ensures Ordered(c, r + [x])
  {
  }

  lemma {:induction false} RetainIn(s: seq<Elem>, items: seq<Elem>)
    ensures forall e :: e in Retain(s, items) <==> e in s && e !in items
    decreases |s|
  {
    if s != [] {
      var p := s[..|s| - 1];
      RetainIn(p, items);
      assert s == p + [s[|s| - 1]];
    }
  }

  lemma {:induction false} RetainMembers(c: Comparator, s: seq<Elem>, items: seq<Elem>)
    requires Ordered(c, s)
    ensures Ordered(c, Retain(s, items))
    ensures forall e :: e in Retain(s, items) <==> e in s && e !in items
    decreases |s|
  {
    RetainIn(s, items);
    if s != [] {
      var p := s[..|s| - 1];
      var x := s[|s| - 1];
      assert Ordered(c, p);
      RetainMembers(c, p, items);
      var r := Retain(p, items);
      forall k | 0 <= k < |r| ensures Compare(c, x, r[k]) > 0 {
        assert r[k] in p;
        var j :| 0 <= j < |p| && p[j] == r[k];
        assert s[j] == p[j];
      }
      OrderedSnoc(c, r, x);
    }
  }

  lemma RetainStep(s: seq<Elem>, n: int, items: seq<Elem>)
    requires 0 <= n < |s|
    ensures Retain(s[..n + 1], items) == Retain(s[..n], items) + (if s[n] in items then [] else [s[n]])
  {
    assert s[..n + 1][..n] == s[..n];
  }

  lemma RemoveAllOrdered(c: Comparator, s: seq<Elem>, items: seq<Elem>)
    requires Ordered(c, s)
    ensures Ordered(c, RemoveAllOf(c, s, items))
  {
    RemoveEachMembers(c, s, items);
    RetainMembers(c, s, items);
  }

  /** add keeps every match it had, and afterwards x itself is matched under
      Default and Reverse and present under Neutral. */
  lemma InsertCovers(c: Comparator, a: seq<Elem>, x: Elem)
    ensures forall v :: Matches(c, a, v) ==> Matches(c, Insert(c, a, x), v)
    ensures forall v :: v in a ==> v in Insert(c, a, x)
    ensures if Consistent(c) then Matches(c, Insert(c, a, x), x) else x in Insert(c, a, x)
  {
    var r := Insert(c, a, x);
    InsertShape(c, a, x);
    forall v | Matches(c, a, v) ensures Matches(c, r, v) {
      var j :| 0 <= j < |a| && Compare(c, v, a[j]) == 0;
      assert a[j] in r;
      var k :| 0 <= k < |r| && r[k] == a[j];
    }
    if Consistent(c) {
      CompareLaws(c, x, x);
      if r != a {
        assert r[Find(c, a, x)] == x;
      }
    } else {
      NeutralAppends(a, x);
    }
  }

  /** After addAll every item is present: up to the comparator under Default
      and Reverse, as itself under Neutral. */
  lemma {:induction false} AddEachCovers(c: Comparator, b: seq<Elem>, items: seq<Elem>)
    ensures forall v :: v in items ==>
      if Consistent(c) then Matches(c, AddEach(c, b, items), v) else v in AddEach(c, b, items)
    decreases |items|
  {
    if items != [] {
      var p := items[..|items| - 1];
      var x := items[|items| - 1];
      AddEachCovers(c, b, p);
      InsertCovers(c, AddEach(c, b, p), x);
      assert items == p + [x];
    }
  }


  /** with(Collection) as written keeps the contents a valid tree, stores
      nothing but old elements and new values, keeps every old element that
      no new value compares equal to, and holds every new value (up to the
      comparator under Default and Reverse). */
  lemma WithAllMembers(c: Comparator, s: seq<Elem>, items: seq<Elem>)
    requires Ordered(c, s)
    ensures Ordered(c, WithAllOf(c, s, items))
    ensures forall e :: e in WithAllOf(c, s, items) ==> e in s || e in items
    ensures forall e :: e in s && (forall v :: v in items ==> Compare(c, v, e) != 0) ==>
      e in WithAllOf(c, s, items)
    ensures forall v :: v in items ==>
      if Consistent(c) then Matches(c, WithAllOf(c, s, items), v) else v in WithAllOf(c, s, items)
  {
    var m := RemoveAllOf(c, s, items);
    RemoveAllOrdered(c, s, items);
    AddEachOrdered(c, m, items);
    AddEachSubset(c, m, items);
    AddEachCovers(c, m, items);
    RemoveEachMembers(c, s, items);
    RetainMembers(c, s, items);
    forall e | e in s && (forall v :: v in items ==> Compare(c, v, e) != 0)
      ensures e in WithAllOf(c, s, items)
    {
      if e in items {
        CompareLaws(c, e, e);
      }
    }
  }

  /** with([v]) agrees with with(v) on every set except a one-element one: on
      the empty set both removals leave nothing, and on a larger set removeAll
      removes by the comparator. */
  lemma WithAllOfSingleton(c: Comparator, s: seq<Elem>, x: Elem)
    requires |s| != 1
    ensures WithAllOf(c, s, [x]) == Replace(c, s, x)
  {
    assert [x][..0] == [];
    if s == [] {
      assert RemoveAllOf(c, s, [x]) == [] == Delete(c, s, x);
    } else {
      assert RemoveEach(c, s, [x]) == Delete(c, s, x);
    }
    assert AddEach(c, Delete(c, s, x), [x]) == Insert(c, Delete(c, s, x), x);
  }

  /** The discrepancy: on a one-element set, with([v]) keeps an old element
      that compares equal to v but is not equal to it, where with(v) would
      replace it. */
  lemma WithAllKeepsStale()
    ensures WithAllOf(Default, [Elem(1, 0)], [Elem(1, 1)]) == [Elem(1, 0)]
    ensures Replace(Default, [Elem(1, 0)], Elem(1, 1)) == [Elem(1, 1)]
  {
    var old1, new1 := Elem(1, 0), Elem(1, 1);
    assert Compare(Default, new1, old1) == 0;
    assert [old1][..0] == [] && [new1][..0] == [];
    assert Retain([old1], [new1]) == [old1];
    assert RemoveAllOf(Default, [old1], [new1]) == [old1];
    assert Find(Default, [old1], new1) == 0;
    assert Insert(Default, [old1], new1) == [old1];
    assert AddEach(Default, [old1], [new1]) == [old1];
    assert Delete(Default, [old1], new1) == [];
    assert Insert(Default, [], new1) == [new1];
  }

  /** Among comparator-equal values of one with(vals) call the first in
      iteration order is stored, when no old element is in the way. */
  lemma WithAllFirstWins()
    ensures WithAllOf(Default, [], [Elem(1, 0), Elem(1, 1)]) == [Elem(1, 0)]
  {
    var a, b := Elem(1, 0), Elem(1, 1);
    assert [a, b][..1] == [a] && [a, b][..1][..0] == [];
    assert Retain([], [a, b]) == [];
    assert AddEach(Default, [], [a]) == [a];
    assert Find(Default, [a], b) == 0;
  }

  /** with(Collection) with the replace-on-equal policy of with(value):
      remove every value by the comparator, whatever the sizes, then add. */
  function WithAllReplacing(c: Comparator, s: seq<Elem>, items: seq<Elem>): (r: seq<Elem>)
    requires Ordered(c, s)
    ensures Ordered(c, r)
    ensures forall e, v :: e in r && v in items && Compare(c, v, e) == 0 ==> e in items
    ensures forall e :: e in s && (forall v :: v in items ==> Compare(c, v, e) != 0) ==> e in r
    ensures |items| == 1 ==> r == Replace(c, s, items[0])
    ensures forall v :: v in items ==> if Consistent(c) then Matches(c, r, v) else v in r
    ensures forall e :: e in r ==> e in s || e in items
  {
    WithAllReplacingProps(c, s, items);
    AddEach(c, RemoveEach(c, s, items), items)
  }

  /** The code as written agrees with the intended with(Collection) whenever
      the set is larger than the argument: removeAll then removes by the
      comparator. */
  lemma WithAllAgreesWhenLarger(c: Comparator, s: seq<Elem>, items: seq<Elem>)
    requires Ordered(c, s) && |s| > |items|
    ensures WithAllOf(c, s, items) == WithAllReplacing(c, s, items)
  {
  }

  lemma WithAllReplacingProps(c: Comparator, s: seq<Elem>, items: seq<Elem>)
    requires Ordered(c, s)
    ensures var r := AddEach(c, RemoveEach(c, s, items), items);
      && Ordered(c, r)
      && (forall e, v :: e in r && v in items && Compare(c, v, e) == 0 ==> e in items)
      && (forall e :: e in s && (forall v :: v in items ==> Compare(c, v, e) != 0) ==> e in r)
      && (|items| == 1 ==> r == Replace(c, s, items[0]))
      && (forall v :: v in items ==> if Consistent(c) then Matches(c, r, v) else v in r)
      && (forall e :: e in r ==> e in s || e in items)
  {
    var m := RemoveEach(c, s, items);
    RemoveEachMembers(c, s, items);
    AddEachOrdered(c, m, items);
    AddEachSubset(c, m, items);
    AddEachCovers(c, m, items);
    if |items| == 1 {
      var x := items[0];
      assert items == [x];
      assert items[..0] == [];
      assert RemoveEach(c, s, items[..0]) == s;
      assert m == Delete(c, s, x);
      assert AddEach(c, m, items[..0]) == m;
    }
  }

  // ---------------------------------------------------------------------
  // The buffer itself

  /** One step of the in-place filter behind removeAll: the element at the
      cursor is orig[n], and dropping or keeping it extends the filtered
      prefix by one. */
  lemma RetainLoopStep(orig: seq<Elem>, n: int, items: seq<Elem>, buf: seq<Elem>, k: int)
    requires 0 <= n < |orig|
    requires k == |Retain(orig[..n], items)| && buf == Retain(orig[..n], items) + orig[n..]
    ensures k < |buf| && buf[k] == orig[n]
    ensures orig[n] in items ==>
      buf[..k] + buf[k + 1..] == Retain(orig[..n + 1], items) + orig[n + 1..] &&
      k == |Retain(orig[..n + 1], items)|
    ensures orig[n] !in items ==>
      buf == Retain(orig[..n + 1], items) + orig[n + 1..] &&
      k + 1 == |Retain(orig[..n + 1], items)|
  {
    RetainStep(orig, n, items);
    var kept := Retain(orig[..n], items);
    assert orig[n..] == [orig[n]] + orig[n + 1..];
    assert buf == kept + [orig[n]] + orig[n + 1..];
    assert buf[..k] == kept;
    assert buf[k + 1..] == orig[n + 1..];
  }

  /** A java.util.TreeSet built with `comparator`, by its in-order contents. */
  class TreeSet {
    const comparator: Comparator
    var elems: seq<Elem>

    constructor (c: Comparator)
      ensures comparator == c && elems == []
    {
      comparator := c;
      elems := [];
    }

    method Add(x: Elem)
      modifies this
      ensures elems == Insert(comparator, old(elems), x)
    {
      elems := Insert(comparator, elems, x);
    }

    method Remove(x: Elem)
      modifies this
      ensures elems == Delete(comparator, old(elems), x)
    {
      elems := Delete(comparator, elems, x);
    }

    /** AbstractCollection.addAll: add each item in iteration order. */
    method AddAll(items: seq<Elem>)
      modifies this
      ensures elems == AddEach(comparator, old(elems), items)
    {
      var i := 0;
      while i < |items|
        invariant 0 <= i <= |items|
        invariant elems == AddEach(comparator, old(elems), items[..i])
      {
        assert items[..i + 1][..i] == items[..i];
        Add(items[i]);
        i := i + 1;
      }
      assert items[..|items|] == items;
    }

    /** AbstractSet.removeAll with a list argument: when the buffer is the
        larger, remove each item by the comparator; otherwise walk the buffer
        with an iterator and remove what the list contains. */
    method RemoveAll(items: seq<Elem>)
      modifies this
      ensures elems == RemoveAllOf(comparator, old(elems), items)
    {
      if |elems| > |items| {
        RemoveEachOf(items);
      } else {
        RemoveContained(items);
      }
    }

    /** The first branch of removeAll: remove(item) for each item. */
    method RemoveEachOf(items: seq<Elem>)
      modifies this
      ensures elems == RemoveEach(comparator, old(elems), items)
    {
      var i := 0;
      while i < |items|
        invariant 0 <= i <= |items|
        invariant elems == RemoveEach(comparator, old(elems), items[..i])
      {
        assert items[..i + 1][..i] == items[..i];
        Remove(items[i]);
        i := i + 1;
      }
      assert items[..|items|] == items;
    }

    /** The second branch of removeAll: iterator.remove() on each element
        that the list contains. */
    method RemoveContained(items: seq<Elem>)
      modifies this
      ensures elems == Retain(old(elems), items)
    {
      var orig := elems;
      var n, k := 0, 0;
      while n < |orig|
        invariant 0 <= n <= |orig|
        invariant k == |Retain(orig[..n], items)|
        invariant elems == Retain(orig[..n], items) + orig[n..]
      {
        RetainLoopStep(orig, n, items, elems, k);
        if elems[k] in items {
          elems := elems[..k] + elems[k + 1..];
        } else {
          k := k + 1;
        }
        n := n + 1;
      }
      assert orig[..|orig|] == orig;
    }
  }
}
