# Interval-set algebra over the integers

A Dafny model of the core of the `org.repozoo.commons.range` library. The
library represents sets of closed ranges over a discretely ordered domain and
keeps them in canonical form: sorted by minimum, pairwise disjoint, and with
no two neighbours adjacent. The model fixes the domain to the integers.
Comparison is the natural order, and the stepping rule is `n + 1` / `n - 1`.
This matches the integer adapter.

Modules, leaves first:

- `Values` (`values.dfy`): a `Value` wrapping one element. It has the
  stepping rule, `with`, `compareTo`, and the eight ordering predicates: the
  four that take a `Value` and the four that take a bare element.
- `Ranges` (`ranges.dfy`): a closed `Range`.
  - The validating constructor of `RangeImpl`, with its errors as a `Result`.
  - Containment of a value, of an element and of a range.
  - The three-way `intersects` test, whole-range ordering, `startsBefore`, and
    the enclosing range of several ranges.
  - `RangeI.java` repeats the `contains`, `intersects` and
    `intersection(RangeSet)` defaults of `Range.java`; both share this model.
    `min()`, `max()` and `startsBefore` have default bodies only in
    `Range.java`; in `RangeI.java` they are abstract.
- `CanonicalForm` (`canonical.dfy`): the point-set meaning of a sequence of
  ranges, and canonical form.
  - Canonical form is stated on neighbours and shown equal to the three
    conditions above.
  - Key fact: a canonical sequence is determined by the points it covers.
- `RangeAlgebra` (`range_algebra.dfy`): the static `Range.remove` (0, 1 or 2
  fragments) and `Range.intersection` (0 or 1 range).
- `RangeSets` (`range_sets.dfy`): the set operations.
  - Normalisation: a stable sort by minimum, then the `addOnTop` stack
    collector.
  - `add`/`sum`, `remove` with its per-range fragment stack, and both forms of
    `intersection`.
  - The `contains`, `intersects` and `isDistinct` tests.
- `RangeSetLaws` (`laws.dfy`): algebraic laws that follow from uniqueness of
  canonical form.
- `Examples` (`examples.dfy`): worked cases from the library's documentation
  and tests, stated as lemmas.

Every range-set operation is given the point-set meaning it must have as a
reference. Union and normalisation always yield canonical sets; `remove` and
`intersection` yield canonical sets for canonical inputs. Each operation
covers exactly the intended points: the union, difference or intersection of
the covered points. The containment and intersection tests are proved
equivalent to inclusion or overlap of the covered points.

`RangeSet.remove` and `RangeSet.intersection` collect their fragments without
renormalising, unlike the other set operations. The model follows the code
here. It also proves that the collected result is canonical whenever the
inputs are canonical, so the missing renormalisation loses nothing.

## Model

| member | source | states |
|---|---|---|
| Values.With | src/main/java/org/repozoo/commons/range/Value.java:11 | rebinding yields a value holding exactly the given element |
| Values.Next | src/main/java/org/repozoo/commons/range/factories/IntRange.java:25 | the successor is after the value, and no value after the value comes before the successor |
| Values.Previous | src/main/java/org/repozoo/commons/range/factories/IntRange.java:26 | the predecessor is before the value, and no value before the value comes after the predecessor |
| Values.CompareTo | src/main/java/org/repozoo/commons/range/Value.java:5 | the comparison answers -1, 0 or 1, negative iff before, zero iff equal, positive iff after |
| Values.IsAfter | src/main/java/org/repozoo/commons/range/Value.java:13-15 | true iff the first element is greater |
| Values.IsAfterOrEqual | src/main/java/org/repozoo/commons/range/Value.java:22-25 | true iff the first element is greater or equal |
| Values.IsBefore | src/main/java/org/repozoo/commons/range/Value.java:32-34 | true iff the first element is smaller |
| Values.IsBeforeOrEqual | src/main/java/org/repozoo/commons/range/Value.java:41-44 | true iff the first element is smaller or equal |
| Values.IsAfterElement | src/main/java/org/repozoo/commons/range/Value.java:17-20 | the element overload of `isAfter` tests `t > x` |
| Values.IsAfterOrEqualElement | src/main/java/org/repozoo/commons/range/Value.java:27-30 | the element overload of `isAfterOrEqual` tests `t >= x` |
| Values.IsBeforeElement | src/main/java/org/repozoo/commons/range/Value.java:36-39 | the element overload of `isBefore` tests `t < x` |
| Values.IsBeforeOrEqualElementAsWritten | src/main/java/org/repozoo/commons/range/Value.java:46-49 | as written, the element overload of `isBeforeOrEqual` tests `t >= x`, the inverse of its name |
| Values.IsBeforeOrEqualElement | src/main/java/org/repozoo/commons/range/Value.java:46-49 | corrected: the overload tests `t <= x` |
| Values.ElementOverloadsAgree | src/main/java/org/repozoo/commons/range/Value.java:13-49 | each element overload (with the corrected `isBeforeOrEqual`) answers as its value form does on `with(x)` |
| Values.IsBeforeOrEqualElementInverted | src/main/java/org/repozoo/commons/range/Value.java:41-49 | the as-written overload contradicts the value form: 1 vs 3 and 5 vs 3 |
| Values.Trichotomy | src/main/java/org/repozoo/commons/range/Value.java:13-44 | exactly one of before, equal and after holds |
| Values.OrderingDuality | src/main/java/org/repozoo/commons/range/Value.java:13-44 | or-equal predicates are the strict ones widened by equality; swapping arguments swaps before and after; `compareTo` is antisymmetric |
| Values.SteppingIsAdjacent | src/main/java/org/repozoo/commons/range/Value.java:8-9 | the successor is strictly after, nothing lies strictly between a value and its successor, and `previous` undoes `next` |
| Ranges.Between | src/main/java/org/repozoo/commons/range/RangeImpl.java:19-27 | a missing endpoint fails with `MissingValue`; a first endpoint after the second fails with `InvalidRange`; otherwise the range holds exactly the two endpoints and is valid |
| Ranges.BetweenSinglePoint | src/main/java/org/repozoo/commons/range/RangeImpl.java:22-26 | equal endpoints are accepted and give the range holding that one point |
| Ranges.EqualityIsStructural | src/main/java/org/repozoo/commons/range/RangeImpl.java:13-17 | two ranges are equal iff their minima and maxima are equal |
| Ranges.MinValue | src/main/java/org/repozoo/commons/range/Range.java:61 | `minValue()`, held as `from` in `RangeImpl.java:29-31`: the minimum is a point of a valid range and no point of the range is below it |
| Ranges.MaxValue | src/main/java/org/repozoo/commons/range/Range.java:63 | `maxValue()`, held as `to` in `RangeImpl.java:33-35`: the maximum is a point of a valid range and no point of the range is above it |
| Ranges.ContainsValue | src/main/java/org/repozoo/commons/range/Range.java:83-85 | a value is contained iff its element is one of the range's points |
| Ranges.ContainsElementAsWritten | src/main/java/org/repozoo/commons/range/Range.java:87-89 | as written, element containment of a valid range tests `t <= min` |
| Ranges.ContainsElement | src/main/java/org/repozoo/commons/range/Range.java:87-89 | corrected: element containment tests `min <= t <= max` |
| Ranges.ContainsElementAsWrittenIsWrong | src/main/java/org/repozoo/commons/range/Range.java:87-89 | the as-written test claims [5,5] contains 3 and [1,4] does not contain 2 |
| Ranges.ContainsRange | src/main/java/org/repozoo/commons/range/Range.java:79-81 | a range contains another iff both of the other's endpoints lie inside it |
| Ranges.ContainsRangeIffSubset | src/main/java/org/repozoo/commons/range/Range.java:79-85 | for a valid other range, containment is inclusion of point sets |
| Ranges.Intersects | src/main/java/org/repozoo/commons/range/Range.java:98-100 | for valid ranges the three-way test holds iff the greater minimum is at most the smaller maximum |
| Ranges.IntersectsIffCommonPoint | src/main/java/org/repozoo/commons/range/Range.java:98-100 | two valid ranges intersect iff they share a point |
| Ranges.IntersectsReflexiveSymmetric | src/main/java/org/repozoo/commons/range/RangeI.java:33-35 | intersection is reflexive and symmetric, and containment implies it |
| Ranges.IsBefore | src/main/java/org/repozoo/commons/range/Range.java:108 | true iff all of the range lies before all of the other (`max < other.min`) |
| Ranges.IsAfter | src/main/java/org/repozoo/commons/range/Range.java:110 | true iff all of the range lies after all of the other (`min > other.max`) |
| Ranges.StartsBefore | src/main/java/org/repozoo/commons/range/Range.java:118-123 | true iff the range's minimum is strictly smaller |
| RangeSets.SortedMeansNoneStartsBefore | src/main/java/org/repozoo/commons/range/RangeSet.java:154 | sorting by minimum leaves no range starting before one ahead of it, and conversely |
| Ranges.RangeTrichotomy | src/main/java/org/repozoo/commons/range/Range.java:108-110 | two valid ranges are exactly one of before, intersecting and after; before is the converse of after |
| Ranges.Enclose | src/main/java/org/repozoo/commons/range/Range.java:11-25 | the result spans the least minimum and the greatest maximum of the inputs, both attained; no range for no input |
| Ranges.EncloseTwo | src/main/java/org/repozoo/commons/range/Range.java:20-24 | the enclosing range of two ranges is `[min of minima, max of maxima]` |
| Ranges.EncloseOfTouchingIsUnion | src/main/java/org/repozoo/commons/range/RangeSet.java:181-182 | enclosing two ranges that intersect or are adjacent covers exactly their union |
| CanonicalForm.CanonicalMeans | src/main/java/org/repozoo/commons/range/RangeSet.java:106-111 | the neighbour form of canonical form equals sorted, pairwise disjoint and non-adjacent |
| CanonicalForm.CanonicalOrdered | src/main/java/org/repozoo/commons/range/RangeSet.java:106-111 | in canonical form every later range starts beyond the successor of every earlier maximum |
| CanonicalForm.CanonicalUnique | src/main/java/org/repozoo/commons/range/RangeSet.java:121-128 | two canonical sequences covering the same points are equal |
| RangeAlgebra.Remove | src/main/java/org/repozoo/commons/range/Range.java:27-45 | at most two fragments, canonical, inside the original range, every fragment but the last before the removed range |
| RangeAlgebra.RemoveIsDifference | src/main/java/org/repozoo/commons/range/Range.java:27-45 | the fragments cover exactly the points of the range outside the removed range |
| RangeAlgebra.RemoveDisjointKeeps | src/main/java/org/repozoo/commons/range/Range.java:42-44 | a non-intersecting range removes nothing |
| RangeAlgebra.RemoveCoveringIsEmpty | src/main/java/org/repozoo/commons/range/Range.java:29-30 | an equal or enclosing range removes everything |
| RangeAlgebra.RemoveInteriorSplits | src/main/java/org/repozoo/commons/range/Range.java:31-34 | a range strictly inside splits it into `[min, lo-1]` and `[hi+1, max]` |
| RangeAlgebra.RemovePartialTrims | src/main/java/org/repozoo/commons/range/Range.java:35-41 | a partial overlap trims the tail or the head |
| RangeAlgebra.Intersection | src/main/java/org/repozoo/commons/range/Range.java:51-59 | at most one range, inside both inputs, canonical for valid inputs |
| RangeAlgebra.IntersectionIsMeet | src/main/java/org/repozoo/commons/range/Range.java:51-59 | the result covers exactly the common points, and is one range iff the inputs intersect |
| RangeSets.Empty | src/main/java/org/repozoo/commons/range/RangeSet.java:114-119 | the empty set is canonical and covers no point |
| RangeSets.IsEmpty | src/main/java/org/repozoo/commons/range/RangeSet.java:102-104 | the set holds no range (point meaning in `RangeSets.IsEmptyMeansNoPoints`) |
| RangeSets.IsEmptyMeansNoPoints | src/main/java/org/repozoo/commons/range/RangeSet.java:99-104 | a set of valid ranges is empty iff it covers no point |
| RangeSets.InsertByMin | src/main/java/org/repozoo/commons/range/RangeSet.java:154 | inserting keeps the ranges sorted by minimum and adds exactly the one range |
| RangeSets.SortByMin | src/main/java/org/repozoo/commons/range/RangeSet.java:154 | the result is sorted by minimum and a permutation of the input |
| RangeSets.AddOnTop | src/main/java/org/repozoo/commons/range/RangeSet.java:175-188 | a step touches only the top of the stack: every range below the old top stays, and the stack grows by at most one |
| RangeSets.AddOnTopMergesIff | src/main/java/org/repozoo/commons/range/RangeSet.java:175-188 | a step merges exactly when the top and the range intersect or are adjacent, into the range spanning both; otherwise it pushes the range |
| RangeSets.AddOnTopKeepsCanonical | src/main/java/org/repozoo/commons/range/RangeSet.java:175-188 | fed a range not starting before the top, a step keeps the stack canonical and adds exactly the range's points |
| RangeSets.FoldOnTop | src/main/java/org/repozoo/commons/range/RangeSet.java:167-173 | folding sorted ranges into a canonical stack gives a canonical stack covering the union of both |
| RangeSets.Of | src/main/java/org/repozoo/commons/range/RangeSet.java:124-128 | normalisation yields a canonical set covering exactly the input's points |
| RangeSets.Union | src/main/java/org/repozoo/commons/range/RangeSet.java:130-144 | `add`/`sum` yield a canonical set covering the union of the points |
| RangeSets.SubtractStep | src/main/java/org/repozoo/commons/range/RangeSet.java:87-92 | one step of the fragment stack keeps it canonical, removes exactly one range's points, and keeps the lower fragments before the remaining subtrahend |
| RangeSets.SubtractEach | src/main/java/org/repozoo/commons/range/RangeSet.java:84-95 | for a subtrahend sorted by minimum, the fragment stack ends canonical, covering the range's points minus all of the subtrahend's |
| RangeSets.Remove | src/main/java/org/repozoo/commons/range/RangeSet.java:82-97 | for a subtrahend sorted by minimum, the result covers exactly the set difference and is canonical for a canonical minuend |
| RangeSets.IntersectEach | src/main/java/org/repozoo/commons/range/RangeSet.java:46-48 | the pairwise intersections of one range with a set cover exactly the common points and lie inside the range; canonical for a canonical set |
| RangeSets.IntersectFold | src/main/java/org/repozoo/commons/range/Range.java:102-106 | the union fold stays canonical and adds exactly the common points |
| RangeSets.RangeIntersection | src/main/java/org/repozoo/commons/range/RangeI.java:37-41 | a range's `intersection(RangeSet)` is canonical and covers exactly the common points |
| RangeSets.Intersection | src/main/java/org/repozoo/commons/range/RangeSet.java:42-51 | a set's `intersection` covers exactly the common points and is canonical for canonical inputs |
| RangeSets.Contains | src/main/java/org/repozoo/commons/range/RangeSet.java:27-33 | every range of the other set lies inside some single range of this set (point meaning in `RangeSets.ContainsIffSubset`) |
| RangeSets.IntersectsSet | src/main/java/org/repozoo/commons/range/RangeSet.java:35-40 | some range of this set intersects some range of the other (point meaning in `RangeSets.IntersectsSetIffCommonPoint`) |
| RangeSets.RangeIntersectsSet | src/main/java/org/repozoo/commons/range/Range.java:91-96 | some range of the set intersects the range (point meaning in `RangeSets.RangeIntersectsSetMeaning`) |
| RangeSets.IsDistinct | src/main/java/org/repozoo/commons/range/RangeSet.java:53-58 | the negation of the intersection test against the one-range set (point meaning in `RangeSets.IsDistinctMeaning`) |
| RangeSets.ContainsIffSubset | src/main/java/org/repozoo/commons/range/RangeSet.java:27-33 | containment implies inclusion of points, and for a canonical set the converse holds too |
| RangeSets.IntersectsSetIffCommonPoint | src/main/java/org/repozoo/commons/range/RangeSet.java:35-40 | two sets of valid ranges intersect iff they share a point |
| RangeSets.RangeIntersectsSetMeaning | src/main/java/org/repozoo/commons/range/Range.java:91-96 | a range's `intersects(RangeSet)` equals the set test on the one-range set and holds iff they share a point |
| RangeSets.IsDistinctMeaning | src/main/java/org/repozoo/commons/range/RangeSet.java:53-58 | `isDistinct` is the negation of `intersects`: no shared point |
| RangeSetLaws.OfCanonicalIsIdentity | src/main/java/org/repozoo/commons/range/RangeSet.java:121-128 | normalising a canonical set returns it unchanged |
| RangeSetLaws.OfIdempotent | src/main/java/org/repozoo/commons/range/RangeSet.java:121-128 | normalisation is idempotent |
| RangeSetLaws.OfIgnoresOrder | src/main/java/org/repozoo/commons/range/RangeSet.java:153-156 | permuting the input does not change the normalised set |
| RangeSetLaws.SortByMinKeepsSorted | src/main/java/org/repozoo/commons/range/RangeSet.java:154 | the sort is stable on sorted input: it returns it unchanged |
| RangeSetLaws.OfSortedIsFold | src/main/java/org/repozoo/commons/range/RangeSet.java:153-156 | a sorted input goes to the stack collector in the given order |
| RangeSetLaws.RemoveFragmentsAreNormal | src/main/java/org/repozoo/commons/range/Range.java:31-34 | normalising the two split fragments changes nothing |
| RangeSetLaws.UnionCommutative | src/main/java/org/repozoo/commons/range/RangeSet.java:130-144 | `sum(a, b) == sum(b, a)` |
| RangeSetLaws.UnionAssociative | src/main/java/org/repozoo/commons/range/RangeSet.java:130-144 | `sum` is associative |
| RangeSetLaws.UnionSelf | src/main/java/org/repozoo/commons/range/RangeSet.java:130-144 | `sum(a, a) == a` for a canonical set |
| RangeSetLaws.UnionEmptyIdentity | src/main/java/org/repozoo/commons/range/RangeSet.java:114-144 | the empty set is a two-sided identity of `sum` on canonical sets |
| RangeSetLaws.RemoveEmptyIdentity | src/main/java/org/repozoo/commons/range/RangeSet.java:82-97 | removing the empty set returns the very same ranges |
| RangeSetLaws.RemoveSelfIsEmpty | src/main/java/org/repozoo/commons/range/RangeSet.java:82-97 | removing a canonical set from itself leaves nothing |
| RangeSetLaws.IntersectionEmptyAbsorbs | src/main/java/org/repozoo/commons/range/RangeSet.java:42-51 | intersecting with the empty set gives the empty set |
| RangeSetLaws.IntersectionCommutativeIdempotent | src/main/java/org/repozoo/commons/range/RangeSet.java:42-51 | on canonical sets `intersection` is commutative and idempotent |
| RangeSetLaws.IntersectionPathsAgree | src/main/java/org/repozoo/commons/range/Range.java:102-106 | for a canonical set, a range's normalised `intersection(RangeSet)` equals the plain pairwise collection a set's `intersection` performs |
| RangeSetLaws.SelfContainsAndIntersects | src/main/java/org/repozoo/commons/range/RangeSet.java:27-40 | a set contains itself, and a non-empty set intersects itself |
| RangeSetLaws.EmptyIsEmpty | src/main/java/org/repozoo/commons/range/RangeSet.java:99-119 | `empty()` is empty |
| Examples.OfTouchingPair | src/main/java/org/repozoo/commons/range/RangeSet.java:181-182 | two ranges that overlap or touch, in order, normalise to their enclosing range |
| Examples.OfApartPair | src/main/java/org/repozoo/commons/range/RangeSet.java:183-185 | two ranges with a gap between them normalise to themselves |
| Examples.OfMergesAdjacent | src/main/java/org/repozoo/commons/range/RangeSet.java:175-188 | `[1-2]` and `[3-4]`, in either order, normalise to `[1-4]` |
| Examples.OfMergesOverlapping | src/test/java/org/repozoo/commons/range/RangeSetTest.java:137-140 | `[1-5]` and `[4-10]` normalise to `[1-10]` |
| Examples.OfKeepsGaps | src/test/java/org/repozoo/commons/range/RangeSetTest.java:128-135 | `[1-2]` and `[4-6]`, in either order, normalise to themselves |
| Examples.OfMergesMiddle | src/main/java/org/repozoo/commons/range/RangeSet.java:153-156 | four ranges whose middle two overlap or touch, with gaps around them, normalise to the outer two and the range spanning the middle two |
| Examples.OfFourMergesOnePair | src/test/java/org/repozoo/commons/range/RangeSetTest.java:142-151 | `[1-3],[5-6],[6-10],[12-15]` normalises to `[1-3],[5-10],[12-15]` |
| Examples.OfFourMergesChain | src/main/java/org/repozoo/commons/range/RangeSet.java:175-188 | `[1-5],[6-8],[8-10],[9-15]` normalises to `[1-15]`, because `[1-5]` and `[6-8]` are adjacent |
| Examples.AddAppends | src/test/java/org/repozoo/commons/range/RangeSetTest.java:13-24 | `[1-2],[4-6]` plus `[8-10]` is `[1-2],[4-6],[8-10]` |
| Examples.RangeAddsAbsorbExtendKeep | src/main/java/org/repozoo/commons/range/RangeSet.java:137-144 | adding to a range a set of one range inside it, one overlapping or touching its end and one beyond a gap extends the range and keeps the last |
| Examples.RangeAddSet | src/test/java/org/repozoo/commons/range/RangeTest.java:130-143 | `[1-10]` plus `[1-1],[9-11],[90-100]` is `[1-11],[90-100]` |
| Examples.SumWithItself | src/test/java/org/repozoo/commons/range/RangeSetTest.java:166-177 | `[1-2],[4-6]` summed with itself is itself |
| Examples.UnionAbsorbs | src/main/java/org/repozoo/commons/range/RangeSet.java:137-144 | a range summed with two ranges inside it is that range |
| Examples.SumOfNormalised | src/test/java/org/repozoo/commons/range/RangeSetTest.java:179-189 | `of([1-5],[4-10])` summed with `of([1-2],[4-6])` is `[1-10]` |
| Examples.UnionOfMatchedQuads | src/main/java/org/repozoo/commons/range/RangeSet.java:137-144 | two four-range sets whose paired ranges each cover exactly one range of a canonical set sum to that set |
| Examples.SumOfInterleaved | src/test/java/org/repozoo/commons/range/RangeSetTest.java:191-208 | `[0-10],[20-30],[50-70],[91-99]` plus `[10-11],[19-20],[40-50],[92-100]` is `[0-11],[19-30],[40-70],[91-100]` |
| Examples.UnionExample | src/main/java/org/repozoo/commons/range/RangeSet.java:60-68 | `[1-3],[7-10]` plus `[4-5],[9-12]` is `[1-5],[7-12]` |
| Examples.UnionOfSingleRanges | src/test/java/org/repozoo/commons/range/RangeTest.java:122-125 | `[1]` plus `[1]` is `[1]`, and `[1]` plus `[2]` is `[1-2]` |
| Examples.UnionOfOverlappingRanges | src/test/java/org/repozoo/commons/range/RangeTest.java:126-127 | `[1-2]` plus `[2-3]` is `[1-3]`, and `[1-3]` plus `[2-4]` is `[1-4]` |
| Examples.RemoveExample | src/main/java/org/repozoo/commons/range/RangeSet.java:73-81 | `[1-5],[7-10]` minus `[3-4],[9-12]` is `[1-2],[5-5],[7-8]` |
| Examples.RangeRemoveSplits | src/test/java/org/repozoo/commons/range/RangeFactoryTest.java:84-87 | `[4-9]` minus `[6-7]` is `[4-5],[8-9]` |
| Examples.RangeRemoveCovering | src/test/java/org/repozoo/commons/range/RangeTest.java:154-156 | `[2-4]` minus `[1-5]` or `[2-4]` is empty, and so is `[4-9]` minus itself (`RangeFactoryTest.java:76`) |
| Examples.RangeRemoveTrimsHead | src/test/java/org/repozoo/commons/range/RangeTest.java:153-165 | `[2-4]` minus `[1-2]` is `[3-4]`, minus `[1-3]` is `[4-4]`; `[2-5]` minus `[1-3]` is `[4-5]`, minus `[2-2]` is `[3-5]` |
| Examples.FactoryRemoveTrimsHead | src/test/java/org/repozoo/commons/range/RangeFactoryTest.java:80-89 | `[4-9]` minus `[2-6]` is `[7-9]`, and minus `[2-4]` is `[5-9]` |
| Examples.RangeRemoveTrimsTail | src/test/java/org/repozoo/commons/range/RangeTest.java:164 | `[2-5]` minus `[5-5]` is `[2-4]`, and `[4-9]` minus `[6-11]` is `[4-5]` (`RangeFactoryTest.java:82`) |
| Examples.RangeRemoveDisjoint | src/main/java/org/repozoo/commons/range/Range.java:42-44 | `[2-4]` minus `[6-7]` is `[2-4]` |
| Examples.RemoveBothEnds | src/test/java/org/repozoo/commons/range/RangeTest.java:167-170 | `[2-5]` minus `[2-2],[5-5]` is `[3-4]` |
| Examples.RangeIntersectionCases | src/test/java/org/repozoo/commons/range/RangeTest.java:96-106 | every pairwise intersection of the test, in both argument orders, including the two empty ones |
| Examples.RangeWithSetIntersection | src/test/java/org/repozoo/commons/range/RangeTest.java:107-119 | `[11-100]` with `[10-20],[30-40],[60-70]` gives `[11-20],[30-40],[60-70]`, by the pairwise collection and by the union fold |
| Examples.RangeIntersectsSetExample | src/test/java/org/repozoo/commons/range/RangeTest.java:88-92 | `[11-100]` intersects `[10-20],[30-40],[60-70]` |
| Examples.SetIntersectionExample | src/test/java/org/repozoo/commons/range/RangeSetTest.java:115-125 | `[1-2],[4-6]` intersected with `[0-10]` is itself |
| Examples.ContainsMinima | src/test/java/org/repozoo/commons/range/RangeSetTest.java:55-64 | `[10-30],[40-70],[80-110]` contains `[10-10],[40-40],[80-80]`, the single points of its minima |
| Examples.NotContainsCases | src/test/java/org/repozoo/commons/range/RangeSetTest.java:74-101 | `[10-30],[40-70],[80-110]` does not contain sets reaching into a gap or past its end |
| Examples.ContainsNotIntersects | src/test/java/org/repozoo/commons/range/RangeSetTest.java:66-72 | `[1-2],[4-6]` does not contain `[0-10]` but intersects it |
| Examples.ContainsElementCases | src/test/java/org/repozoo/commons/range/RangeTest.java:11-15 | single-point ranges do not contain a value outside them |
| Examples.ContainsRangeCases | src/test/java/org/repozoo/commons/range/RangeTest.java:45-61 | all eleven containment cases of the test: shared bounds count, overhanging ones do not |
| Examples.DistinctCases | src/test/java/org/repozoo/commons/range/RangeTest.java:63-73 | all seven distinctness cases of the test, in both argument orders |
| Examples.IntersectsCases | src/test/java/org/repozoo/commons/range/RangeTest.java:75-86 | all eight single-range intersection cases of the test, in both argument orders |
| Examples.OrderingCases | src/test/java/org/repozoo/commons/range/RangeTest.java:17-43 | all twelve whole-range ordering cases of the tests: only a range entirely before or after counts |
| Examples.EncloseCases | src/main/java/org/repozoo/commons/range/Range.java:11-18 | `enclose([1-3], [5-8])` and `enclose([1-6], [5-8])` are both `[1-8]` |

## Left out

- The per-domain adapters and factories are not part of this model: the
  integer, date and year-month factories, `ValueImpl`, `value/Value.java`,
  `SimpleRange`, `RangeSetImpl` and the builders. The model fixes the domain
  to the integers with stepping `n ± 1`.
- Integer overflow is not modelled. The integer adapter's `next` of the
  largest `int` would wrap around, but the model's integers are unbounded.
- `combineStacks` is not modelled. It only throws, and the sequential streams
  the library uses never call it.
- `streamValues`, `forEachValue`, `toString`, `min()`, `max()` and `getRanges`
  are not modelled. They enumerate, format or unwrap and hold no logic;
  `getRanges` is the sequence itself.
- `Objects.requireNonNull` on arrays is not modelled; there are no null
  sequences. Only the missing endpoints of the validating constructor are
  modelled (`MissingValue`).
- `Range.between` at `Range.java:47-49` builds a `SimpleRange` without
  validation; it is not part of this model. Every range operation requires
  valid ranges, which is what the validating constructor guarantees.
- Ranges.IsBefore: `isBefore`/`isAfter` have no implementation in
  `Range.java:108-110` or `RangeI.java:43-45`. The model follows the whole-range
  ordering their tests demand (`RangeTest.java:17-43`).
- `RangeSetTest.java:29-39` expects `{[1],[3]}` plus `[2]` to stay as three
  single points. The `addOnTop` code merges adjacent ranges, so the model
  gives `[1-3]`. The model follows the code and does not encode that test.
- `RangeSetTest.java:153-161` expects `[1-5],[6-8],[8-10],[9-15]` to normalise
  to `[1-5],[6-15]`. `5` and `6` are adjacent, so `addOnTop`
  (`RangeSet.java:181`) merges them as well. `Examples.OfFourMergesChain`
  states the code's result, `[1-15]`.
- `RangeSet.remove` and `RangeSet.intersection` collect their fragments
  without renormalising, unlike `of`, `add` and `sum`. The model follows the
  code, and proves canonical output for canonical inputs instead.
- The normalising `RangeSet.of(r1, r2)` in the split case of `Range.remove` is
  modelled as the plain pair. `RangeSetLaws.RemoveFragmentsAreNormal` proves
  the two are equal.
- RangeSets.Remove: requires the subtrahend's ranges to be valid and sorted by
  minimum, as `getRanges` documents for every range set
  (`RangeSet.java:106-107`). The fragment stack only subtracts from its top
  fragment, so an unsorted subtrahend leaves points behind: `{[1-10]}` minus
  `[8-9],[2-3]` gives `[1-7],[10-10]`, which still holds 2 and 3. The same
  requirement is on `RangeSets.SubtractEach`.
- `Enclose` of no ranges throws in the source (`orElseThrow`); the model
  returns `None`.

## Findings

| source | as written | input that shows it | evidently intended | confidence | as-written member | corrected member |
|---|---|---|---|---|---|---|
| src/main/java/org/repozoo/commons/range/Value.java:46-49 | `isBeforeOrEqual(X)` delegates to `isAfterOrEqual`, so it tests `t >= x` | value 1 and element 3: answers false although 1 <= 3 | `t <= x`, like `isBeforeOrEqual(Value)` | high; not executed | Values.IsBeforeOrEqualElementAsWritten (shown by Values.IsBeforeOrEqualElementInverted) | Values.IsBeforeOrEqualElement |
| src/main/java/org/repozoo/commons/range/Range.java:87-89 | `contains(T)` builds on the inverted overload, so it tests `t <= min && max >= t` | `[5,5]` and 3: answers true, against `RangeTest.java:14`; `[1,4]` and 2: answers false | `min <= t <= max`, like `contains(Value)` | high; not executed | Ranges.ContainsElementAsWritten (shown by Ranges.ContainsElementAsWrittenIsWrong) | Ranges.ContainsElement |
