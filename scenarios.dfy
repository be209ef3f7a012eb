/** Worked examples of the set's behaviour on small integer keys, stated on
    the functions the ArraySortedSet methods are specified by. */
module Scenarios {
  import opened Comparators
  import opened TreeSets

  function E(k: int): Elem
  {
    Elem(k, 0)
  }

  /** with(3), with(1), with(2) on an empty Default set store [1, 2, 3]. */
  lemma InsertionsAreSorted()
    ensures Replace(Default, Replace(Default, Replace(Default, [], E(3)), E(1)), E(2)) == [E(1), E(2), E(3)]
  {
    assert Replace(Default, [], E(3)) == [E(3)];
    assert Find(Default, [E(3)], E(1)) == 0;
    assert Delete(Default, [E(3)], E(1)) == [E(3)];
    assert Insert(Default, [E(3)], E(1)) == [E(1), E(3)];
    assert [E(1), E(3)][1..] == [E(3)];
    assert Find(Default, [E(1), E(3)], E(2)) == 1;
    assert Delete(Default, [E(1), E(3)], E(2)) == [E(1), E(3)];
    assert Insert(Default, [E(1), E(3)], E(2)) == [E(1), E(2), E(3)];
  }

  /** Built from [5, 1, 3] under Default the array is [1, 3, 5]. */
  lemma BuildFiveOneThree()
    ensures Build(Default, [E(5), E(1), E(3)]) == [E(1), E(3), E(5)]
  {
    var items := [E(5), E(1), E(3)];
    assert items[..2] == [E(5), E(1)] && items[..2][..1] == [E(5)] && items[..2][..1][..0] == [];
    InsertAfterAll(Default, [], E(5));
    assert AddEach(Default, [], items[..2][..1]) == [E(5)];
    assert Find(Default, [E(5)], E(1)) == 0;
    assert Insert(Default, [E(5)], E(1)) == [E(1), E(5)];
    assert AddEach(Default, [], items[..2]) == [E(1), E(5)];
    assert [E(1), E(5)][1..] == [E(5)];
    assert Find(Default, [E(5)], E(3)) == 0;
    assert Find(Default, [E(1), E(5)], E(3)) == 1;
    assert Insert(Default, [E(1), E(5)], E(3)) == [E(1), E(3), E(5)];
  }

  /** ... and without(3) then leaves [1, 5]. */
  lemma WithoutMiddle()
    ensures Delete(Default, [E(1), E(3), E(5)], E(3)) == [E(1), E(5)]
  {
    assert [E(1), E(3), E(5)][1..] == [E(3), E(5)];
    assert Find(Default, [E(3), E(5)], E(3)) == 0;
    assert Find(Default, [E(1), E(3), E(5)], E(3)) == 1;
  }

  /** Built from [1, 2, 3] under Reverse the array is [3, 2, 1]: first() is 3
      and last() is 1. */
  lemma ReverseEnds()
    ensures Build(Reverse, [E(1), E(2), E(3)]) == [E(3), E(2), E(1)]
  {
    var items := [E(1), E(2), E(3)];
    assert items[..2] == [E(1), E(2)] && items[..2][..1] == [E(1)] && items[..2][..1][..0] == [];
    InsertAfterAll(Reverse, [], E(1));
    assert AddEach(Reverse, [], items[..2][..1]) == [E(1)];
    assert Find(Reverse, [E(1)], E(2)) == 0;
    assert Insert(Reverse, [E(1)], E(2)) == [E(2), E(1)];
    assert AddEach(Reverse, [], items[..2]) == [E(2), E(1)];
    assert Find(Reverse, [E(2), E(1)], E(3)) == 0;
    assert Insert(Reverse, [E(2), E(1)], E(3)) == [E(3), E(2), E(1)];
  }

  /** Under Neutral, [1, 1, 1] gives a set of size 3. */
  lemma NeutralKeepsRepeats()
    ensures |Build(Neutral, [E(1), E(1), E(1)])| == 3
  {
    NeutralBuildKeepsAll([E(1), E(1), E(1)]);
  }

  /** Built from [1, 2] under Default, without(1) then without(2) empties
      the set, so first() fails. */
  lemma RemovingEverything()
    ensures Delete(Default, Delete(Default, Build(Default, [E(1), E(2)]), E(1)), E(2)) == []
  {
    BuildOrderedIsIdentity(Default, [E(1), E(2)]);
    assert Find(Default, [E(1), E(2)], E(1)) == 0;
    assert Find(Default, [E(2)], E(2)) == 0;
  }

  /** Comparator-equal but unequal elements: with((1, 7)) on a set holding
      (1, 0) no longer contains (1, 0). */
  lemma ReplacementScenario()
    ensures E(1) !in Replace(Default, [E(1), E(2)], Elem(1, 7))
    ensures Elem(1, 7) in Replace(Default, [E(1), E(2)], Elem(1, 7))
  {
    ReplaceEvicts(Default, [E(1), E(2)], E(1), Elem(1, 7));
  }
}
