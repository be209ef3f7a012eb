# ArraySortedSet in Dafny

A model of `com.jcabi.immutable.ArraySortedSet` from jcabi-aspects: an
immutable sorted set whose contents live in one array, `values`, that a
constructor writes once and nothing writes again. The set is built with one
of three comparators:

- `Default`: natural order.
- `Neutral`: `compare` always answers 1.
- `Reverse`: natural order reversed.

Construction sorts and deduplicates a source collection through a
`java.util.TreeSet` built with the comparator. A source that is itself an
`ArraySortedSet` is the exception: its array is adopted as it is. The
"mutators" `with(value)`, `with(values)` and `without(value)` each fill a
fresh `TreeSet` from the receiver, edit it and wrap the result in a new set.
Reads are index, length and equality scans over `values`. Every write method
of `java.util.Set` throws.

Files:

- `comparators.dfy` (module `Comparators`): the element type and the three
  comparators.
- `tree_sets.dfy` (module `TreeSets`): the transient `TreeSet` buffer,
  modelled by its in-order contents. It has the functions that specify
  construction, `with` and `without`, and the lemmas about them. The class
  `TreeSet` performs `add`, `remove`, `addAll` and `removeAll` step by step.
- `array_sorted_set.dfy` (module `Immutable`): the class `ArraySortedSet`.
  It has `const` fields `values` and `cmp`, its constructors, the mutators as
  methods, and the reads and refusing writes as functions.
- `scenarios.dfy` (module `Scenarios`): small worked examples.

Modelling choices:

- Elements are `Elem(key, tag)`. The natural order compares `key` only.
  Equality compares both fields. So two elements can be comparator-equal
  without being equal. This exposes two behaviours of the source:
  - `with` replaces an element that compares equal to the new value.
  - `contains` and `equals` test element equality and ignore the comparator.
- `values` is a `seq`: the array is never written after construction.
  `toArray` and `toArray(T[])` copy it into a Dafny `array`.
- A `TreeSet` is represented by the sequence its iterator would produce.
  A `TreeMap` search for `x` evaluates `compare(x, node)` and goes right
  while the answer is positive. `Find` is the first element that `x` does not
  compare greater than. On contents that satisfy `Ordered`, that is the node
  where the tree search stops. `Insert` keeps an existing comparator-equal
  element, as `TreeSet.add` does. `Delete` removes the element `Find` stops
  on, if it compares equal.
- Under `Neutral` every comparison answers 1. So a search always goes right:
  `add` appends and `remove` finds nothing. `Ordered` holds for every
  sequence under `Neutral`.
- The constructor's source is a `Collection` datatype. `SortedArray(other)`
  is the `instanceof ArraySortedSet` branch. `Other(items)` is any other
  collection, given by its iteration order.
- `Equals` takes an `ArraySortedSet?`. `null` stands for every object that is
  not an `ArraySortedSet`, which the source also answers `false` for.
- `comparator()` is the public `const` field `cmp`.

Where the code and its usual description disagree, the model follows the code:

- `with(x).with(x)` equals `with(x)` only under `Default` and `Reverse`
  (`TreeSets.ReplaceIdempotent`). Under `Neutral`, `with` appends, so
  applying it twice stores `x` twice (`TreeSets.NeutralReplaceNotIdempotent`).
- With comparator-equal values in one `with(values)` call, the FIRST one in
  iteration order is kept, not the last: `TreeSet.add` never replaces an
  element it already holds (`TreeSets.WithAllFirstWins`). An old element
  that compares equal to the values can also survive `removeAll`, and then
  it is kept instead of any of the values (see Findings).

## Model

| member | source | states |
|---|---|---|
| Comparators.Compare | jcabi-aspects/src/main/java/com/jcabi/immutable/ArraySortedSet.java:67-94 | compare(left, right) of Default (key order, as Integer.compareTo), Neutral (always 1) and Reverse (arguments swapped) |
| Comparators.CompareLaws | jcabi-aspects/src/main/java/com/jcabi/immutable/ArraySortedSet.java:67-94 | Default and Reverse compare keys: zero exactly on equal keys, antisymmetric, Reverse is Default with the arguments swapped; Neutral answers a positive number for every pair, so it never reports equality |
| Immutable.ArraySortedSet.Empty | jcabi-aspects/src/main/java/com/jcabi/immutable/ArraySortedSet.java:111-114 | the one-argument constructor gives an empty array and keeps the comparator |
| Immutable.ArraySortedSet.constructor | jcabi-aspects/src/main/java/com/jcabi/immutable/ArraySortedSet.java:121-131 | another ArraySortedSet's array is adopted unchanged whatever the new comparator, and is valid exactly when it is ordered by it; any other collection gives the contents of a TreeSet filled from it, which are valid |
| TreeSets.BuildOrdered | jcabi-aspects/src/main/java/com/jcabi/immutable/ArraySortedSet.java:127-129 | the array built from a plain collection is ordered by the comparator, for all three comparators |
| TreeSets.BuildStrictlySorted | jcabi-aspects/src/main/java/com/jcabi/immutable/ArraySortedSet.java:127-129 | under Default and Reverse the built array is strictly increasing by the comparator, so no two elements compare equal |
| TreeSets.BuildMembers | jcabi-aspects/src/main/java/com/jcabi/immutable/ArraySortedSet.java:127-129 | an element is stored exactly when it occurs in the source with no earlier source element comparing equal to it: the first of each comparator-equal group wins |
| TreeSets.BuildKeys | jcabi-aspects/src/main/java/com/jcabi/immutable/ArraySortedSet.java:127-129 | under Default and Reverse the built array holds exactly the source's keys |
| TreeSets.BuildSize | jcabi-aspects/src/main/java/com/jcabi/immutable/ArraySortedSet.java:127-129 | the size of a built set is the number of distinct source keys under Default and Reverse, and the number of source elements under Neutral |
| TreeSets.NeutralBuildKeepsAll | jcabi-aspects/src/main/java/com/jcabi/immutable/ArraySortedSet.java:78-83 | under Neutral construction keeps every source element, repeats included, in source order |
| TreeSets.BuildOrderedIsIdentity | jcabi-aspects/src/main/java/com/jcabi/immutable/ArraySortedSet.java:124-130 | rebuilding from an array ordered by the comparator gives that array back, so copying a valid set into a TreeSet and out again changes nothing |
| TreeSets.OrderedKeyCount | jcabi-aspects/src/main/java/com/jcabi/immutable/ArraySortedSet.java:100 | an array ordered by Default or Reverse holds one element per key |
| TreeSets.Find | jcabi-aspects/src/main/java/com/jcabi/immutable/ArraySortedSet.java:141-142 | the place where a search for x stops: every element before it compares below x, and x does not compare above the element there |
| TreeSets.MatchAtFind | jcabi-aspects/src/main/java/com/jcabi/immutable/ArraySortedSet.java:141-142 | in ordered contents an element comparing equal to x can only sit where the search for x stops |
| TreeSets.InsertOrdered | jcabi-aspects/src/main/java/com/jcabi/immutable/ArraySortedSet.java:142 | TreeSet.add keeps the contents ordered |
| TreeSets.InsertKeys | jcabi-aspects/src/main/java/com/jcabi/immutable/ArraySortedSet.java:142 | under Default and Reverse, add leaves the key set extended by exactly the new key |
| TreeSets.DeleteOrdered | jcabi-aspects/src/main/java/com/jcabi/immutable/ArraySortedSet.java:167 | TreeSet.remove keeps the contents ordered |
| TreeSets.DeleteMembers | jcabi-aspects/src/main/java/com/jcabi/immutable/ArraySortedSet.java:164-169 | without(value) keeps exactly the old elements that do not compare equal to value, and none that does |
| TreeSets.WithoutShape | jcabi-aspects/src/main/java/com/jcabi/immutable/ArraySortedSet.java:164-169 | without(value) is the old array or the old array less one element that compares equal to value, the rest in order; the size drops by at most one |
| TreeSets.NeutralAppends | jcabi-aspects/src/main/java/com/jcabi/immutable/ArraySortedSet.java:78-83 | under Neutral add appends, remove changes nothing, and with(x) appends x |
| TreeSets.ReplaceOrdered | jcabi-aspects/src/main/java/com/jcabi/immutable/ArraySortedSet.java:138-144 | with(value) keeps the array ordered |
| TreeSets.ReplaceMembers | jcabi-aspects/src/main/java/com/jcabi/immutable/ArraySortedSet.java:138-144 | the result of with(value) holds value, every old element not comparing equal to value, and nothing else |
| TreeSets.ReplaceEvicts | jcabi-aspects/src/main/java/com/jcabi/immutable/ArraySortedSet.java:138-144 | an old element that compares equal to value but is not equal to it is gone after with(value), and value is there |
| TreeSets.ReplaceIdempotent | jcabi-aspects/src/main/java/com/jcabi/immutable/ArraySortedSet.java:138-144 | under Default and Reverse, with(x) applied twice equals with(x) applied once |
| TreeSets.NeutralReplaceNotIdempotent | jcabi-aspects/src/main/java/com/jcabi/immutable/ArraySortedSet.java:78-83 | under Neutral, with(x) applied twice to the empty set stores x twice |
| TreeSets.WithAllMembers | jcabi-aspects/src/main/java/com/jcabi/immutable/ArraySortedSet.java:151-157 | with(vals) keeps the array ordered, stores only old elements and vals, keeps every old element no value compares equal to, and holds each value (up to the comparator under Default and Reverse) |
| TreeSets.WithAllOfSingleton | jcabi-aspects/src/main/java/com/jcabi/immutable/ArraySortedSet.java:151-157 | on every set except a one-element one (the empty set included), with of a one-element list equals with of that element |
| TreeSets.WithAllKeepsStale | jcabi-aspects/src/main/java/com/jcabi/immutable/ArraySortedSet.java:151-157 | on a one-element Default set, with of a one-element list keeps the old comparator-equal element where with of that element replaces it |
| TreeSets.WithAllAgreesWhenLarger | jcabi-aspects/src/main/java/com/jcabi/immutable/ArraySortedSet.java:151-157 | when the set is larger than the argument list, with(vals) as written equals the intended replacing version |
| TreeSets.WithAllReplacing | jcabi-aspects/src/main/java/com/jcabi/immutable/ArraySortedSet.java:151-157 | the intended with(vals): ordered, holds every value (up to the comparator under Default and Reverse), stores nothing but old elements and values, every stored element comparing equal to a value is itself one of vals, unrelated old elements stay, and for one value it equals with(value) |
| TreeSets.WithAllFirstWins | jcabi-aspects/src/main/java/com/jcabi/immutable/ArraySortedSet.java:151-157 | with two comparator-equal values on an empty Default set, the first value is stored and the second is not |
| TreeSets.Insert | jcabi-aspects/src/main/java/com/jcabi/immutable/ArraySortedSet.java:142 | TreeSet.add: an element comparing equal to x that is already there stays and x is dropped; otherwise x goes where the search stops |
| TreeSets.Delete | jcabi-aspects/src/main/java/com/jcabi/immutable/ArraySortedSet.java:167 | TreeSet.remove: drops the element where the search for x stops if it compares equal to x, otherwise changes nothing |
| TreeSets.Replace | jcabi-aspects/src/main/java/com/jcabi/immutable/ArraySortedSet.java:138-144 | the body of with(value): remove(value), then add(value) |
| TreeSets.AddEach | jcabi-aspects/src/main/java/com/jcabi/immutable/ArraySortedSet.java:128 | TreeSet.addAll: add of each item in iteration order |
| TreeSets.Build | jcabi-aspects/src/main/java/com/jcabi/immutable/ArraySortedSet.java:127-129 | the array the constructor stores for a plain collection: addAll into an empty TreeSet |
| TreeSets.RemoveEach | jcabi-aspects/src/main/java/com/jcabi/immutable/ArraySortedSet.java:154 | the branch of removeAll taken when the buffer is larger: remove of each item in turn, by the comparator |
| TreeSets.Retain | jcabi-aspects/src/main/java/com/jcabi/immutable/ArraySortedSet.java:154 | the other branch of removeAll: keep the elements the argument list does not contain, by equality |
| TreeSets.RemoveAllOf | jcabi-aspects/src/main/java/com/jcabi/immutable/ArraySortedSet.java:154 | removeAll of a list: the comparator branch when the buffer is larger than the list, the equality branch otherwise |
| TreeSets.WithAllOf | jcabi-aspects/src/main/java/com/jcabi/immutable/ArraySortedSet.java:151-157 | the body of with(vals) as written: removeAll(vals), then addAll(vals) |
| TreeSets.OrderedEnds | jcabi-aspects/src/main/java/com/jcabi/immutable/ArraySortedSet.java:274-290 | under Default and Reverse the first element of an ordered array is the least by the comparator and the last the greatest |
| TreeSets.DefaultReverseDiffer | jcabi-aspects/src/main/java/com/jcabi/immutable/ArraySortedSet.java:183-193 | the same source with two distinct keys gives different arrays under Default and Reverse, so the two sets are not equal |
| TreeSets.TreeSet.constructor | jcabi-aspects/src/main/java/com/jcabi/immutable/ArraySortedSet.java:127 | new TreeSet(cmp): an empty buffer with the comparator |
| TreeSets.TreeSet.Add | jcabi-aspects/src/main/java/com/jcabi/immutable/ArraySortedSet.java:142 | add leaves the buffer with Insert of the old contents |
| TreeSets.TreeSet.Remove | jcabi-aspects/src/main/java/com/jcabi/immutable/ArraySortedSet.java:141 | remove leaves the buffer with Delete of the old contents |
| TreeSets.TreeSet.AddAll | jcabi-aspects/src/main/java/com/jcabi/immutable/ArraySortedSet.java:128 | addAll adds each item in iteration order |
| TreeSets.TreeSet.RemoveAll | jcabi-aspects/src/main/java/com/jcabi/immutable/ArraySortedSet.java:154 | removeAll of a list removes each item by the comparator when the buffer is larger, and otherwise drops every buffered element the list contains by equality |
| TreeSets.TreeSet.RemoveEachOf | jcabi-aspects/src/main/java/com/jcabi/immutable/ArraySortedSet.java:154 | the first branch of removeAll: remove of each item in turn |
| TreeSets.TreeSet.RemoveContained | jcabi-aspects/src/main/java/com/jcabi/immutable/ArraySortedSet.java:154 | the second branch of removeAll: the buffer filtered in place, keeping the elements the list does not contain |
| Immutable.ArraySortedSet.With | jcabi-aspects/src/main/java/com/jcabi/immutable/ArraySortedSet.java:138-144 | a fresh valid set with the same comparator whose array is Replace of the receiver's; the receiver's fields are constants |
| Immutable.ArraySortedSet.WithAll | jcabi-aspects/src/main/java/com/jcabi/immutable/ArraySortedSet.java:151-157 | a fresh valid set with the same comparator whose array is removeAll then addAll of vals on the receiver's, as written; when the receiver is larger than vals this is the intended replacing with(vals) |
| Immutable.ArraySortedSet.Without | jcabi-aspects/src/main/java/com/jcabi/immutable/ArraySortedSet.java:164-169 | a fresh valid set with the same comparator whose array is Delete of the receiver's |
| Immutable.DeepEquals | jcabi-aspects/src/main/java/com/jcabi/immutable/ArraySortedSet.java:186-188 | the element-by-element comparison is true exactly when the two arrays are equal |
| Immutable.ArraySortedSet.Equals | jcabi-aspects/src/main/java/com/jcabi/immutable/ArraySortedSet.java:183-193 | true exactly for another ArraySortedSet with an equal array; the comparators play no part |
| Immutable.ArraySortedSet.Size | jcabi-aspects/src/main/java/com/jcabi/immutable/ArraySortedSet.java:214-216 | the array length, which for a valid set under Default or Reverse is the number of distinct keys |
| Immutable.ArraySortedSet.IsEmpty | jcabi-aspects/src/main/java/com/jcabi/immutable/ArraySortedSet.java:222-224 | true exactly when size() is 0, and exactly when first() fails |
| Immutable.IndexOf | jcabi-aspects/src/main/java/com/jcabi/immutable/ArraySortedSet.java:231 | the scan behind contains: -1 exactly when the key is absent, otherwise the first position holding an equal element |
| Immutable.ArraySortedSet.Contains | jcabi-aspects/src/main/java/com/jcabi/immutable/ArraySortedSet.java:230-232 | true exactly when some stored element equals the key; the comparator is not consulted |
| Immutable.ArraySortedSet.ContainsAll | jcabi-aspects/src/main/java/com/jcabi/immutable/ArraySortedSet.java:345-347 | true exactly when every element of the collection is stored |
| Immutable.ArraySortedSet.First | jcabi-aspects/src/main/java/com/jcabi/immutable/ArraySortedSet.java:274-279 | NoSuchElement exactly on an empty set; otherwise the first array element, which under Default or Reverse is below every other element by the comparator |
| Immutable.ArraySortedSet.Last | jcabi-aspects/src/main/java/com/jcabi/immutable/ArraySortedSet.java:285-290 | NoSuchElement exactly on an empty set; otherwise the last array element, which under Default or Reverse is above every other element by the comparator |
| Immutable.ArrayCopy | jcabi-aspects/src/main/java/com/jcabi/immutable/ArraySortedSet.java:306 | the first length destination slots receive the source's first length elements; the rest are untouched |
| Immutable.ArraySortedSet.ToArray | jcabi-aspects/src/main/java/com/jcabi/immutable/ArraySortedSet.java:304-308 | a freshly allocated array holding the elements in order |
| Immutable.ArraySortedSet.ToArrayInto | jcabi-aspects/src/main/java/com/jcabi/immutable/ArraySortedSet.java:314-323 | the caller's array is filled when its length is exactly size(), otherwise it is left alone and a fresh array is filled; either way the result holds the elements in order |
| Immutable.ArraySortedSet.Add | jcabi-aspects/src/main/java/com/jcabi/immutable/ArraySortedSet.java:329-331 | add always fails with UnsupportedOperation |
| Immutable.ArraySortedSet.Remove | jcabi-aspects/src/main/java/com/jcabi/immutable/ArraySortedSet.java:337-339 | remove always fails with UnsupportedOperation |
| Immutable.ArraySortedSet.AddAll | jcabi-aspects/src/main/java/com/jcabi/immutable/ArraySortedSet.java:353-355 | addAll always fails with UnsupportedOperation |
| Immutable.ArraySortedSet.RetainAll | jcabi-aspects/src/main/java/com/jcabi/immutable/ArraySortedSet.java:361-363 | retainAll always fails with UnsupportedOperation |
| Immutable.ArraySortedSet.RemoveAll | jcabi-aspects/src/main/java/com/jcabi/immutable/ArraySortedSet.java:369-371 | removeAll always fails with UnsupportedOperation |
| Immutable.ArraySortedSet.Clear | jcabi-aspects/src/main/java/com/jcabi/immutable/ArraySortedSet.java:377-379 | clear always fails with UnsupportedOperation |
| Immutable.ArraySortedSet.SubSet | jcabi-aspects/src/main/java/com/jcabi/immutable/ArraySortedSet.java:246-248 | subSet always fails with UnsupportedOperation |
| Scenarios.InsertionsAreSorted | jcabi-aspects/src/main/java/com/jcabi/immutable/ArraySortedSet.java:138-144 | with(3), with(1), with(2) on an empty Default set store [1, 2, 3] |
| Scenarios.BuildFiveOneThree | jcabi-aspects/src/main/java/com/jcabi/immutable/ArraySortedSet.java:126-130 | [5, 1, 3] under Default is stored as [1, 3, 5] |
| Scenarios.WithoutMiddle | jcabi-aspects/src/main/java/com/jcabi/immutable/ArraySortedSet.java:164-169 | without(3) on [1, 3, 5] leaves [1, 5] |
| Scenarios.ReverseEnds | jcabi-aspects/src/main/java/com/jcabi/immutable/ArraySortedSet.java:89-94 | [1, 2, 3] under Reverse is stored as [3, 2, 1]; by the contracts of First and Last, first() is then 3 and last() is 1 |
| Scenarios.NeutralKeepsRepeats | jcabi-aspects/src/main/java/com/jcabi/immutable/ArraySortedSet.java:78-83 | [1, 1, 1] under Neutral gives a set of size 3 |
| Scenarios.RemovingEverything | jcabi-aspects/src/main/java/com/jcabi/immutable/ArraySortedSet.java:164-169 | [1, 2] under Default, without(1), without(2) leaves an empty array; by the contract of First, first() then fails with NoSuchElement |
| Scenarios.ReplacementScenario | jcabi-aspects/src/main/java/com/jcabi/immutable/ArraySortedSet.java:138-144 | with((1, 7)) on a set holding (1, 0) no longer contains (1, 0) and contains (1, 7) |

## Left out

- With, WithAll, Without: require the receiver's array to be ordered by its comparator. Only a set adopted from another `ArraySortedSet` under a different comparator can break that. On such a set, `TreeSet.addAll` takes the array as it is into a balanced tree, and later searches follow that tree's shape. The model does not represent tree shapes.
- WithAll: the argument is a list. `removeAll` then tests membership by equality. A set argument would test membership by its own comparator or hash, and that is not modelled.
- `TreeSet.addAll` from a sorted set with the same comparator object copies the source in order instead of adding element by element. The model adds element by element. `TreeSets.BuildOrderedIsIdentity` shows both give the same contents when the source is ordered, which holds for every use here.
- A `TreeSet` is modelled by its in-order contents. The tree's shape and balancing are not modelled.
- `hashCode` (line 176): delegates to the elements' own `hashCode`, which is foreign code.
- `toString` (lines 199-208): depends on the elements' own `toString`.
- `iterator` (lines 296-298): iterates over `values` in order. The model exposes `values` directly.
- `headSet` and `tailSet` (lines 254-268): these are views built by `TreeSet` and `Collections.unmodifiableSortedSet`, which are library code.
- `comparator()` (lines 238-240): this is the field `cmp`, so it has no separate member.
- `@Immutable`, `@Loggable` and `@NotNull`: aspect-driven checks and logging. Non-null arguments are implied by Dafny's non-null types.
- The generic element type and its unchecked casts (`Comparable.class.cast`, `(T[]) new Object[...]`): the model uses one concrete element type, `Elem`, with integer keys. Keys are unbounded integers. `Integer.compareTo` compares without subtracting, so 32-bit overflow does not matter.
- Concurrency: instances are immutable and need no model of sharing between threads.

## Findings

| source | as written | input that shows it | evidently intended | confidence | as-written member | corrected member |
|---|---|---|---|---|---|---|
| jcabi-aspects/src/main/java/com/jcabi/immutable/ArraySortedSet.java:151-157 | `removeAll(vals)` removes by the comparator only when the set is larger than `vals`. Otherwise it removes by equality, so an old element that compares equal to a value but is not equal to it survives, and `addAll` then skips the value | the Default set holding `(1, 0)`, `with([(1, 1)])` keeps `(1, 0)`, while `with((1, 1))` stores `(1, 1)` | `with(vals)` replaces comparator-equal elements as `with(value)` does, whatever the sizes | medium; not executed | TreeSets.WithAllKeepsStale | TreeSets.WithAllReplacing |

`Immutable.ArraySortedSet.WithAll` models the code as written.
`TreeSets.WithAllReplacing` is the intended behaviour. For a single value it
equals `with(value)`. The contract of `WithAll` states that the two agree
whenever the set is larger than the argument (`TreeSets.WithAllAgreesWhenLarger`),
so the discrepancy is confined to the other branch of `removeAll`.
For a single value, `with([v])` and `with(v)` differ only on a one-element
set (`TreeSets.WithAllOfSingleton`).
