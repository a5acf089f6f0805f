/**
  Algebraic laws of range sets that follow from canonical form being unique:
  normalisation is idempotent and leaves canonical sets alone, union is
  commutative, associative and idempotent, and the empty set is the identity
  of union and of difference and absorbs intersection.
 */
module RangeSetLaws {
  import opened Ranges
  import opened CanonicalForm
  import RangeAlgebra
  import opened RangeSets

  /** Normalising a canonical set gives it back unchanged. */
  lemma OfCanonicalIsIdentity(s: RangeSet)
    requires Canonical(s)
    ensures Of(s) == s
  {
    CanonicalUnique(Of(s), s);
  }

  /** Normalisation is idempotent. */
  lemma OfIdempotent(rs: seq<Range>)
    requires AllValid(rs)
    ensures Of(Of(rs)) == Of(rs)
  {
    OfCanonicalIsIdentity(Of(rs));
  }

  /** The order in which the ranges are given does not matter. */
  lemma OfIgnoresOrder(a: seq<Range>, b: seq<Range>)
    requires AllValid(a) && AllValid(b)
    requires multiset(a) == multiset(b)
    ensures Of(a) == Of(b)
  {
    assert forall r :: r in a <==> r in multiset(b);
    PointsOfSameElements(a, b);
    CanonicalUnique(Of(a), Of(b));
  }

  /** Sorting by minimum is stable: ranges already in order stay where they
      are, so the ranges of a sorted input go to the stack as given. */
  lemma {:induction false} SortByMinKeepsSorted(rs: seq<Range>)
    requires SortedByMin(rs)
    ensures SortByMin(rs) == rs
  {
    if |rs| > 0 {
      assert SortedByMin(rs[1..]) by {
        forall i, j | 0 <= i < j < |rs[1..]| ensures rs[1..][i].lo <= rs[1..][j].lo {
          assert rs[1..][i] == rs[i + 1] && rs[1..][j] == rs[j + 1];
        }
      }
      SortByMinKeepsSorted(rs[1..]);
      assert rs == [rs[0]] + rs[1..];
    }
  }

  /** Normalising a sorted input folds its ranges into the stack in order. */
  lemma OfSortedIsFold(rs: seq<Range>)
    requires AllValid(rs) && SortedByMin(rs)
    ensures Of(rs) == FoldOnTop([], rs)
  {
    SortByMinKeepsSorted(rs);
  }

  /** The split fragments of a range subtraction are already normal, so
      building them into a set through normalisation changes nothing. */
  lemma RemoveFragmentsAreNormal(a: Range, toRemove: Range)
    requires Valid(a) && Valid(toRemove)
    ensures Of(RangeAlgebra.Remove(a, toRemove)) == RangeAlgebra.Remove(a, toRemove)
  {
    OfCanonicalIsIdentity(RangeAlgebra.Remove(a, toRemove));
  }

  lemma UnionCommutative(a: RangeSet, b: RangeSet)
    requires AllValid(a) && AllValid(b)
    ensures Union(a, b) == Union(b, a)
  {
    CanonicalUnique(Union(a, b), Union(b, a));
  }

  lemma UnionAssociative(a: RangeSet, b: RangeSet, c: RangeSet)
    requires AllValid(a) && AllValid(b) && AllValid(c)
    ensures Union(Union(a, b), c) == Union(a, Union(b, c))
  {
    CanonicalUnique(Union(Union(a, b), c), Union(a, Union(b, c)));
  }

  /** `sum(A, A) == A` for a canonical set. */
  lemma UnionSelf(a: RangeSet)
    requires Canonical(a)
    ensures Union(a, a) == a
  {
    CanonicalUnique(Union(a, a), a);
  }

  lemma UnionEmptyIdentity(a: RangeSet)
    requires Canonical(a)
    ensures Union(a, Empty()) == a
    ensures Union(Empty(), a) == a
  {
    CanonicalUnique(Union(a, Empty()), a);
    CanonicalUnique(Union(Empty(), a), a);
  }

  /** Removing the empty set returns the very same ranges, even without
      canonical form. */
  lemma {:induction false} RemoveEmptyIdentity(a: RangeSet)
    requires AllValid(a)
    ensures Remove(a, Empty()) == a
  {
    if |a| > 0 {
      RemoveEmptyIdentity(a[1..]);
      assert a == [a[0]] + a[1..];
    }
  }

  /** A canonical set is sorted, so it may be removed from itself, and doing
      so leaves nothing. */
  lemma RemoveSelfIsEmpty(a: RangeSet)
    requires Canonical(a)
    ensures SortedByMin(a)
    ensures Remove(a, a) == []
  {
    CanonicalIsSorted(a);
    CanonicalUnique(Remove(a, a), []);
  }

  /** Intersecting with the empty set gives the empty set. */
  lemma {:induction false} IntersectionEmptyAbsorbs(a: RangeSet)
    requires AllValid(a)
    ensures Intersection(a, Empty()) == Empty()
  {
    if |a| > 0 {
      IntersectionEmptyAbsorbs(a[1..]);
    }
  }

  /** Intersection of canonical sets is commutative and idempotent. */
  lemma IntersectionCommutativeIdempotent(a: RangeSet, b: RangeSet)
    requires Canonical(a) && Canonical(b)
    ensures Intersection(a, b) == Intersection(b, a)
    ensures Intersection(a, a) == a
  {
    CanonicalUnique(Intersection(a, b), Intersection(b, a));
    CanonicalUnique(Intersection(a, a), a);
  }

  /** For a canonical `others`, a single range's normalised
      `intersection(RangeSet)` equals the plain collection of its pairwise
      intersections that a set's `intersection` performs. */
  lemma IntersectionPathsAgree(r: Range, others: RangeSet)
    requires Valid(r) && Canonical(others)
    ensures RangeIntersection(r, others) == IntersectEach(r, others)
  {
    CanonicalUnique(RangeIntersection(r, others), IntersectEach(r, others));
  }

  /** A set contains itself, and a non-empty set intersects itself. */
  lemma SelfContainsAndIntersects(a: RangeSet)
    requires AllValid(a)
    ensures Contains(a, a)
    ensures |a| > 0 ==> IntersectsSet(a, a)
  {
    forall j | 0 <= j < |a| ensures SomeRangeContains(a, a[j]) {
      assert ContainsRange(a[j], a[j]);
    }
    if |a| > 0 {
      assert Intersects(a[0], a[0]);
    }
  }

  /** The empty set is empty, and holds no range. */
  lemma EmptyIsEmpty()
    ensures IsEmpty(Empty())
    ensures |Empty()| == 0
  {
  }
}
