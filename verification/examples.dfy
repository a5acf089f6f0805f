/**
  Worked cases over integer ranges, each stated as a lemma about the model:
  normalisation, union, difference, intersection and the containment,
  intersection and ordering tests on concrete inputs.

  Where an operation that normalises is applied to concrete ranges, those
  ranges are passed as parameters fixed by `requires`. Written as literals,
  they would let the verifier unfold the recursive definitions without bound.
 */
module Examples {
  import opened Ranges
  import opened CanonicalForm
  import RangeAlgebra
  import opened RangeSets
  import RangeSetLaws

  /** The points of a two-range sequence. */
  lemma PointsPair(a: Range, b: Range)
    ensures Points([a, b]) == RangePoints(a) + RangePoints(b)
  {
    assert [a, b] == [a] + [b];
    PointsConcat([a], [b]);
    PointsSingle(a);
    PointsSingle(b);
  }

  /** The points of a three-range sequence. */
  lemma PointsTriple(a: Range, b: Range, c: Range)
    ensures Points([a, b, c]) == RangePoints(a) + RangePoints(b) + RangePoints(c)
  {
    assert [a, b, c] == [a, b] + [c];
    PointsConcat([a, b], [c]);
    PointsPair(a, b);
    PointsSingle(c);
  }

  /** The points of a four-range sequence. */
  lemma PointsQuad(a: Range, b: Range, c: Range, d: Range)
    ensures Points([a, b, c, d]) == RangePoints(a) + RangePoints(b) + RangePoints(c) + RangePoints(d)
  {
    assert [a, b, c, d] == [a, b, c] + [d];
    PointsConcat([a, b, c], [d]);
    PointsTriple(a, b, c);
    PointsSingle(d);
  }

  /** Two valid ranges that overlap or touch, the second not starting
      earlier, cover exactly the range from the first minimum to the greater
      maximum. */
  lemma Join(a: Range, b: Range)
    requires Valid(a) && Valid(b)
    requires a.lo <= b.lo <= a.hi + 1
    ensures RangePoints(a) + RangePoints(b) == RangePoints(Range(a.lo, if a.hi < b.hi then b.hi else a.hi))
  {
    var e := Range(a.lo, if a.hi < b.hi then b.hi else a.hi);
    forall x | x in RangePoints(e) ensures x in RangePoints(a) + RangePoints(b) {
      if x <= a.hi {
        assert Covers(a, x);
      } else {
        assert Covers(b, x);
      }
    }
  }

  /** Normalising two such ranges gives their enclosing range. */
  lemma OfTouchingPair(a: Range, b: Range)
    requires Valid(a) && Valid(b)
    requires a.lo <= b.lo <= a.hi + 1
    ensures Of([a, b]) == [Range(a.lo, if a.hi < b.hi then b.hi else a.hi)]
  {
    var e := Range(a.lo, if a.hi < b.hi then b.hi else a.hi);
    PointsPair(a, b);
    Join(a, b);
    PointsSingle(e);
    CanonicalUnique(Of([a, b]), [e]);
  }

  /** Two ranges with a gap between them are already normal. */
  lemma OfApartPair(a: Range, b: Range)
    requires Valid(a) && Valid(b)
    requires a.hi + 1 < b.lo
    ensures Of([a, b]) == [a, b]
  {
    RangeSetLaws.OfCanonicalIsIdentity([a, b]);
  }

  // ----- Normalisation -----

  /** Adjacent and overlapping ranges merge; ranges separated by a gap stay
      apart, whatever order they are given in. */
  lemma OfMergesAdjacent(a: Range, b: Range)
    // Pinned parameters rather than literals, which the verifier unfolds eagerly.
    requires a == Range(1, 2) && b == Range(3, 4)
    ensures Of([a, b]) == [Range(1, 4)]
    ensures Of([b, a]) == [Range(1, 4)]
  {
    OfTouchingPair(a, b);
    assert multiset([b, a]) == multiset([a, b]);
    RangeSetLaws.OfIgnoresOrder([b, a], [a, b]);
  }

  lemma OfMergesOverlapping(a: Range, b: Range)
    // Pinned parameters rather than literals, which the verifier unfolds eagerly.
    requires a == Range(1, 5) && b == Range(4, 10)
    ensures Of([a, b]) == [Range(1, 10)]
  {
    OfTouchingPair(a, b);
  }

  lemma OfKeepsGaps(a: Range, b: Range)
    // Pinned parameters rather than literals, which the verifier unfolds eagerly.
    requires a == Range(1, 2) && b == Range(4, 6)
    ensures Of([a, b]) == [a, b]
    ensures Of([b, a]) == [a, b]
  {
    OfApartPair(a, b);
    assert multiset([b, a]) == multiset([a, b]);
    RangeSetLaws.OfIgnoresOrder([b, a], [a, b]);
  }

  /** Normalising four ranges whose middle two overlap or touch, with gaps
      around them, merges just the middle two. */
  lemma OfMergesMiddle(a: Range, b: Range, c: Range, d: Range)
    requires Valid(a) && Valid(b) && Valid(c) && Valid(d)
    requires a.hi + 1 < b.lo && b.lo <= c.lo <= b.hi + 1
    requires (if b.hi < c.hi then c.hi else b.hi) + 1 < d.lo
    ensures Of([a, b, c, d]) == [a, Range(b.lo, if b.hi < c.hi then c.hi else b.hi), d]
  {
    var m := Range(b.lo, if b.hi < c.hi then c.hi else b.hi);
    var x := [a, b, c, d];
    var e := [a, m, d];
    assert Points(x) == Points(e) by {
      PointsQuad(a, b, c, d);
      PointsTriple(a, m, d);
      Join(b, c);
    }
    SameCanonicalOf(x, e);
  }

  /** Normalising ranges that cover the same points as a canonical `e`
      gives `e`. */
  lemma SameCanonicalOf(x: seq<Range>, e: RangeSet)
    requires AllValid(x) && Canonical(e) && Points(x) == Points(e)
    ensures Of(x) == e
  {
    CanonicalUnique(Of(x), e);
  }

  /** `[1-3],[5-6],[6-10],[12-15]` normalises to `[1-3],[5-10],[12-15]`. */
  lemma OfFourMergesOnePair(a: Range, b: Range, c: Range, d: Range)
    // Pinned parameters rather than literals, which the verifier unfolds eagerly.
    requires a == Range(1, 3) && b == Range(5, 6) && c == Range(6, 10) && d == Range(12, 15)
    ensures Of([a, b, c, d]) == [Range(1, 3), Range(5, 10), Range(12, 15)]
  {
    OfMergesMiddle(a, b, c, d);
  }

  /** `[1-5],[6-8],[8-10],[9-15]` normalises to the single range `[1-15]`:
      `[1-5]` and `[6-8]` are adjacent, so the collector merges them too. */
  lemma OfFourMergesChain(a: Range, b: Range, c: Range, d: Range)
    // Pinned parameters rather than literals, which the verifier unfolds eagerly.
    requires a == Range(1, 5) && b == Range(6, 8) && c == Range(8, 10) && d == Range(9, 15)
    ensures Of([a, b, c, d]) == [Range(1, 15)]
  {
    var x := [a, b, c, d];
    var e := [Range(1, 15)];
    assert Points(x) == Points(e) by {
      PointsQuad(a, b, c, d);
      PointsSingle(Range(1, 15));
      Join(a, b);
      Join(Range(1, 8), c);
      Join(Range(1, 10), d);
    }
    SameCanonicalOf(x, e);
  }

  // ----- Union -----

  /** Adding a range beyond the last range of a set appends it. */
  lemma AddAppends(a: Range, b: Range, c: Range)
    // Pinned parameters rather than literals, which the verifier unfolds eagerly.
    requires a == Range(1, 2) && b == Range(4, 6) && c == Range(8, 10)
    ensures Union([a, b], [c]) == [a, b, c]
  {
    assert [a, b] + [c] == [a, b, c];
    RangeSetLaws.OfCanonicalIsIdentity([a, b, c]);
  }

  /** Adding to `r` a set whose first range lies inside `r`, whose second
      overlaps or touches `r`'s end and whose third lies beyond a gap. */
  lemma RangeAddsAbsorbExtendKeep(r: Range, a: Range, b: Range, c: Range)
    requires Valid(r) && Valid(a) && Valid(b) && Valid(c)
    requires r.lo <= a.lo && a.hi <= r.hi
    requires r.lo <= b.lo <= r.hi + 1
    requires (if r.hi < b.hi then b.hi else r.hi) + 1 < c.lo
    ensures Union([r], [a, b, c]) == [Range(r.lo, if r.hi < b.hi then b.hi else r.hi), c]
  {
    var m := Range(r.lo, if r.hi < b.hi then b.hi else r.hi);
    var e := [m, c];
    assert Points([r]) + Points([a, b, c]) == Points(e) by {
      PointsSingle(r);
      PointsTriple(a, b, c);
      PointsPair(m, c);
      Join(r, b);
      assert RangePoints(a) <= RangePoints(r);
    }
    SameCanonicalUnion([r], [a, b, c], e);
  }

  /** The sum of two sets covering the same points as a canonical `e` is
      `e`. */
  lemma SameCanonicalUnion(s: RangeSet, t: RangeSet, e: RangeSet)
    requires AllValid(s) && AllValid(t) && Canonical(e)
    requires Points(s) + Points(t) == Points(e)
    ensures Union(s, t) == e
  {
    CanonicalUnique(Union(s, t), e);
  }

  /** `[1-10]` plus `[1-1],[9-11],[90-100]` is `[1-11],[90-100]`. */
  lemma RangeAddSet(r: Range, a: Range, b: Range, c: Range)
    // Pinned parameters rather than literals, which the verifier unfolds eagerly.
    requires r == Range(1, 10) && a == Range(1, 1) && b == Range(9, 11) && c == Range(90, 100)
    ensures Union([r], [a, b, c]) == [Range(1, 11), Range(90, 100)]
  {
    RangeAddsAbsorbExtendKeep(r, a, b, c);
  }

  /** The sum of a set with itself is the set. */
  lemma SumWithItself(a: Range, b: Range)
    // Pinned parameters rather than literals, which the verifier unfolds eagerly.
    requires a == Range(1, 2) && b == Range(4, 6)
    ensures Union([a, b], [a, b]) == [a, b]
  {
    RangeSetLaws.UnionSelf([a, b]);
  }

  /** A range absorbs any ranges it contains. */
  lemma UnionAbsorbs(m: Range, c: Range, d: Range)
    requires Valid(m) && Valid(c) && Valid(d)
    requires m.lo <= c.lo && c.hi <= m.hi && m.lo <= d.lo && d.hi <= m.hi
    ensures Union([m], [c, d]) == [m]
  {
    assert Points([m]) + Points([c, d]) == Points([m]) by {
      PointsPair(c, d);
      PointsSingle(m);
      assert RangePoints(c) <= RangePoints(m) && RangePoints(d) <= RangePoints(m);
    }
    SameCanonicalUnion([m], [c, d], [m]);
  }

  /** The sum of `of([1-5],[4-10])` and `of([1-2],[4-6])` is `[1-10]`. */
  lemma SumOfNormalised(a: Range, b: Range, c: Range, d: Range)
    // Pinned parameters rather than literals, which the verifier unfolds eagerly.
    requires a == Range(1, 5) && b == Range(4, 10) && c == Range(1, 2) && d == Range(4, 6)
    ensures Union(Of([a, b]), Of([c, d])) == [Range(1, 10)]
  {
    OfTouchingPair(a, b);
    OfApartPair(c, d);
    UnionAbsorbs(Range(1, 10), c, d);
  }

  /** Regrouping the union of two four-way unions pair by pair. */
  lemma Regroup(a0: set<int>, a1: set<int>, a2: set<int>, a3: set<int>,
                b0: set<int>, b1: set<int>, b2: set<int>, b3: set<int>)
    ensures (a0 + a1 + a2 + a3) + (b0 + b1 + b2 + b3)
         == (a0 + b0) + (a1 + b1) + (a2 + b2) + (a3 + b3)
  {
  }

  /** Two sets of four ranges whose ranges pair up, each pair covering
      exactly one range of a canonical `e`, sum to `e`. */
  lemma UnionOfMatchedQuads(s: RangeSet, t: RangeSet, e: RangeSet)
    requires |s| == 4 && |t| == 4 && |e| == 4
    requires AllValid(s) && AllValid(t) && Canonical(e)
    requires forall i | 0 <= i < 4 :: RangePoints(s[i]) + RangePoints(t[i]) == RangePoints(e[i])
    ensures Union(s, t) == e
  {
    assert Points(s) + Points(t) == Points(e) by {
      assert s == [s[0], s[1], s[2], s[3]];
      assert t == [t[0], t[1], t[2], t[3]];
      assert e == [e[0], e[1], e[2], e[3]];
      PointsQuad(s[0], s[1], s[2], s[3]);
      PointsQuad(t[0], t[1], t[2], t[3]);
      PointsQuad(e[0], e[1], e[2], e[3]);
      Regroup(RangePoints(s[0]), RangePoints(s[1]), RangePoints(s[2]), RangePoints(s[3]),
              RangePoints(t[0]), RangePoints(t[1]), RangePoints(t[2]), RangePoints(t[3]));
    }
    SameCanonicalUnion(s, t, e);
  }

  /** `[0-10],[20-30],[50-70],[91-99]` plus `[10-11],[19-20],[40-50],[92-100]`
      is `[0-11],[19-30],[40-70],[91-100]`. */
  lemma SumOfInterleaved(s: RangeSet, t: RangeSet)
    // Pinned parameters rather than literals, which the verifier unfolds eagerly.
    requires s == [Range(0, 10), Range(20, 30), Range(50, 70), Range(91, 99)]
    requires t == [Range(10, 11), Range(19, 20), Range(40, 50), Range(92, 100)]
    ensures Union(s, t) == [Range(0, 11), Range(19, 30), Range(40, 70), Range(91, 100)]
  {
    Join(s[0], t[0]);
    Join(t[1], s[1]);
    Join(t[2], s[2]);
    Join(s[3], t[3]);
    UnionOfMatchedQuads(s, t, [Range(0, 11), Range(19, 30), Range(40, 70), Range(91, 100)]);
  }

  /** `[1-3],[7-10]` plus `[4-5],[9-12]` is `[1-5],[7-12]`. */
  lemma UnionExample(a: Range, b: Range, c: Range, d: Range)
    // Pinned parameters rather than literals, which the verifier unfolds eagerly.
    requires a == Range(1, 3) && b == Range(7, 10) && c == Range(4, 5) && d == Range(9, 12)
    ensures Union([a, b], [c, d]) == [Range(1, 5), Range(7, 12)]
  {
    var e := [Range(1, 5), Range(7, 12)];
    assert Points([a, b]) + Points([c, d]) == Points(e) by {
      PointsPair(a, b);
      PointsPair(c, d);
      PointsPair(e[0], e[1]);
      Join(a, c);
      Join(b, d);
    }
    SameCanonicalUnion([a, b], [c, d], e);
  }

  /** Single ranges that are equal, overlap or touch sum to one range. */
  lemma UnionOfSingleRanges(p: Range, q: Range)
    // Pinned parameters rather than literals, which the verifier unfolds eagerly.
    requires p == Range(1, 1) && q == Range(2, 2)
    ensures Union([p], [p]) == [p]
    ensures Union([p], [q]) == [Range(1, 2)]
  {
    RangeSetLaws.UnionSelf([p]);
    UnionOfPair(p, q);
  }

  lemma UnionOfOverlappingRanges(p: Range, q: Range, r: Range, t: Range)
    // Pinned parameters rather than literals, which the verifier unfolds eagerly.
    requires p == Range(1, 2) && q == Range(2, 3) && r == Range(1, 3) && t == Range(2, 4)
    ensures Union([p], [q]) == [Range(1, 3)]
    ensures Union([r], [t]) == [Range(1, 4)]
  {
    UnionOfPair(p, q);
    UnionOfPair(r, t);
  }

  lemma UnionOfPair(a: Range, b: Range)
    requires Valid(a) && Valid(b)
    requires a.lo <= b.lo <= a.hi + 1
    ensures Union([a], [b]) == [Range(a.lo, if a.hi < b.hi then b.hi else a.hi)]
  {
    assert [a] + [b] == [a, b];
    OfTouchingPair(a, b);
  }

  // ----- Difference -----

  /** `[1-5],[7-10]` minus `[3-4],[9-12]` is `[1-2],[5-5],[7-8]`. */
  lemma RemoveExample()
    ensures Remove([Range(1, 5), Range(7, 10)], [Range(3, 4), Range(9, 12)])
      == [Range(1, 2), Range(5, 5), Range(7, 8)]
  {
    SubtractFromFirst();
    SubtractFromSecond();
  }

  lemma SubtractFromFirst()
    ensures SubtractEach([Range(1, 5)], [Range(3, 4), Range(9, 12)]) == [Range(1, 2), Range(5, 5)]
  {
    assert RangeAlgebra.Remove(Range(1, 5), Range(3, 4)) == [Range(1, 2), Range(5, 5)];
    assert RangeAlgebra.Remove(Range(5, 5), Range(9, 12)) == [Range(5, 5)];
  }

  lemma SubtractFromSecond()
    ensures SubtractEach([Range(7, 10)], [Range(3, 4), Range(9, 12)]) == [Range(7, 8)]
  {
    assert RangeAlgebra.Remove(Range(7, 10), Range(3, 4)) == [Range(7, 10)];
    assert RangeAlgebra.Remove(Range(7, 10), Range(9, 12)) == [Range(7, 8)];
  }

  /** A canonical set minus a sorted one, with the same points as a
      canonical `e`, is `e`. */
  lemma SameCanonicalRemove(rs: RangeSet, others: RangeSet, e: RangeSet)
    requires Canonical(rs) && AllValid(others) && SortedByMin(others) && Canonical(e)
    requires Points(rs) - Points(others) == Points(e)
    ensures Remove(rs, others) == e
  {
    CanonicalUnique(Remove(rs, others), e);
  }

  // Subtracting one range from another, one lemma per branch.

  /** A range strictly inside splits the range in two. */
  lemma RangeRemoveSplits()
    ensures RangeAlgebra.Remove(Range(4, 9), Range(6, 7)) == [Range(4, 5), Range(8, 9)]
  {
  }

  /** An equal or enclosing range removes everything. */
  lemma RangeRemoveCovering()
    ensures RangeAlgebra.Remove(Range(2, 4), Range(1, 5)) == []
    ensures RangeAlgebra.Remove(Range(2, 4), Range(2, 4)) == []
    ensures RangeAlgebra.Remove(Range(4, 9), Range(4, 9)) == []
  {
  }

  /** A range overlapping the head leaves the tail. */
  lemma RangeRemoveTrimsHead()
    ensures RangeAlgebra.Remove(Range(2, 4), Range(1, 2)) == [Range(3, 4)]
    ensures RangeAlgebra.Remove(Range(2, 4), Range(1, 3)) == [Range(4, 4)]
    ensures RangeAlgebra.Remove(Range(2, 5), Range(1, 3)) == [Range(4, 5)]
    ensures RangeAlgebra.Remove(Range(2, 5), Range(2, 2)) == [Range(3, 5)]
  {
  }

  /** The head trims of the factory tests. */
  lemma FactoryRemoveTrimsHead()
    ensures RangeAlgebra.Remove(Range(4, 9), Range(2, 6)) == [Range(7, 9)]
    ensures RangeAlgebra.Remove(Range(4, 9), Range(2, 4)) == [Range(5, 9)]
  {
  }

  /** A range overlapping the tail leaves the head. */
  lemma RangeRemoveTrimsTail()
    ensures RangeAlgebra.Remove(Range(2, 5), Range(5, 5)) == [Range(2, 4)]
    ensures RangeAlgebra.Remove(Range(4, 9), Range(6, 11)) == [Range(4, 5)]
  {
  }

  /** A disjoint range removes nothing. */
  lemma RangeRemoveDisjoint()
    ensures RangeAlgebra.Remove(Range(2, 4), Range(6, 7)) == [Range(2, 4)]
  {
  }

  /** Removing both ends of `[2-5]` leaves `[3-4]`. */
  lemma RemoveBothEnds(r: Range, p: Range, q: Range)
    // Pinned parameters rather than literals, which the verifier unfolds eagerly.
    requires r == Range(2, 5) && p == Range(2, 2) && q == Range(5, 5)
    ensures Remove([r], [p, q]) == [Range(3, 4)]
  {
    var e := [Range(3, 4)];
    assert Points([r]) - Points([p, q]) == Points(e) by {
      PointsSingle(r);
      PointsPair(p, q);
      PointsSingle(e[0]);
      assert RangePoints(r) - (RangePoints(p) + RangePoints(q)) == RangePoints(e[0]) by {
        forall x | x in RangePoints(r) - (RangePoints(p) + RangePoints(q))
          ensures x in RangePoints(e[0])
        {
          assert Covers(e[0], x);
        }
      }
    }
    SameCanonicalRemove([r], [p, q], e);
  }

  // ----- Intersection -----

  /** Intersections of two ranges. */
  lemma RangeIntersectionCases()
    ensures RangeAlgebra.Intersection(Range(1, 1), Range(1, 1)) == [Range(1, 1)]
    ensures RangeAlgebra.Intersection(Range(1, 4), Range(2, 3)) == [Range(2, 3)]
    ensures RangeAlgebra.Intersection(Range(2, 3), Range(1, 4)) == [Range(2, 3)]
    ensures RangeAlgebra.Intersection(Range(1, 3), Range(2, 4)) == [Range(2, 3)]
    ensures RangeAlgebra.Intersection(Range(2, 4), Range(1, 3)) == [Range(2, 3)]
    ensures RangeAlgebra.Intersection(Range(1, 1), Range(2, 2)) == []
    ensures RangeAlgebra.Intersection(Range(2, 2), Range(1, 1)) == []
    ensures RangeAlgebra.Intersection(Range(7, 10), Range(9, 11)) == [Range(9, 10)]
  {
  }

  /** `[11-100]` intersected with `[10-20],[30-40],[60-70]`, by either path. */
  lemma RangeWithSetIntersection(r: Range, others: RangeSet)
    // Pinned parameters rather than literals, which the verifier unfolds eagerly.
    requires r == Range(11, 100)
    requires others == [Range(10, 20), Range(30, 40), Range(60, 70)]
    ensures IntersectEach(r, others) == [Range(11, 20), Range(30, 40), Range(60, 70)]
    ensures RangeIntersection(r, others) == [Range(11, 20), Range(30, 40), Range(60, 70)]
  {
    PairwiseIntersections();
    RangeSetLaws.IntersectionPathsAgree(r, others);
  }

  lemma PairwiseIntersections()
    ensures IntersectEach(Range(11, 100), [Range(10, 20), Range(30, 40), Range(60, 70)])
      == [Range(11, 20), Range(30, 40), Range(60, 70)]
  {
  }

  /** `[11-100]` intersects `[10-20],[30-40],[60-70]`. */
  lemma RangeIntersectsSetExample(r: Range, others: RangeSet)
    // Pinned parameters rather than literals, which the verifier unfolds eagerly.
    requires r == Range(11, 100)
    requires others == [Range(10, 20), Range(30, 40), Range(60, 70)]
    ensures RangeIntersectsSet(r, others)
  {
    assert Intersects(r, others[0]);
  }

  /** `[1-2],[4-6]` intersected with `[0-10]` is itself. */
  lemma SetIntersectionExample()
    ensures Intersection([Range(1, 2), Range(4, 6)], [Range(0, 10)]) == [Range(1, 2), Range(4, 6)]
    ensures IntersectsSet([Range(1, 2), Range(4, 6)], [Range(0, 10)])
  {
    assert Intersects([Range(1, 2), Range(4, 6)][0], [Range(0, 10)][0]);
  }

  // ----- Tests -----

  /** Containment in `[10-30],[40-70],[80-110]`: its range minima are
      contained; sets reaching into a gap or past the end are not. */
  lemma ContainsMinima(s: RangeSet, t: RangeSet)
    requires s == [Range(10, 30), Range(40, 70), Range(80, 110)]
    requires t == [Range(10, 10), Range(40, 40), Range(80, 80)]
    ensures Contains(s, t)
  {
    assert SomeRangeContains(s, t[0]) by {
      assert ContainsRange(s[0], t[0]);
    }
    assert SomeRangeContains(s, t[1]) by {
      assert ContainsRange(s[1], t[1]);
    }
    assert SomeRangeContains(s, t[2]) by {
      assert ContainsRange(s[2], t[2]);
    }
  }

  lemma NotContainsCases(s: RangeSet)
    requires s == [Range(10, 30), Range(40, 70), Range(80, 110)]
    ensures !Contains(s, [Range(0, 9)])
    ensures !Contains(s, [Range(30, 40), Range(70, 80)])
    ensures !Contains(s, [Range(10, 20), Range(40, 70), Range(80, 111)])
  {
    assert !SomeRangeContains(s, [Range(0, 9)][0]);
    assert !SomeRangeContains(s, [Range(30, 40), Range(70, 80)][0]);
    assert !SomeRangeContains(s, [Range(10, 20), Range(40, 70), Range(80, 111)][2]);
  }

  /** `[1-2],[4-6]` does not contain `[0-10]` but intersects it. */
  lemma ContainsNotIntersects(s: RangeSet)
    requires s == [Range(1, 2), Range(4, 6)]
    ensures !Contains(s, [Range(0, 10)])
    ensures IntersectsSet(s, [Range(0, 10)])
  {
    assert !SomeRangeContains(s, [Range(0, 10)][0]);
    assert Intersects(s[0], [Range(0, 10)][0]);
  }

  /** A single-point range does not contain a value outside it. */
  lemma ContainsElementCases()
    ensures !ContainsElement(Range(1, 1), 3) && !ContainsElement(Range(5, 5), 3)
  {
  }

  /** Containment of one range in another: the bounds may coincide. */
  lemma ContainsRangeCases()
    ensures ContainsRange(Range(1, 4), Range(1, 1)) && ContainsRange(Range(1, 4), Range(4, 4))
    ensures ContainsRange(Range(1, 4), Range(1, 2)) && ContainsRange(Range(1, 4), Range(1, 3))
    ensures ContainsRange(Range(1, 4), Range(1, 4))
    ensures ContainsRange(Range(1, 4), Range(3, 4)) && ContainsRange(Range(1, 4), Range(2, 4))
    ensures !ContainsRange(Range(2, 4), Range(1, 2)) && !ContainsRange(Range(2, 4), Range(3, 5))
    ensures !ContainsRange(Range(2, 3), Range(1, 5))
  {
  }

  /** Distinctness of single ranges, in both argument orders. */
  lemma DistinctCases()
    ensures IsDistinct([Range(1, 1)], Range(2, 2)) && IsDistinct([Range(2, 2)], Range(1, 1))
    ensures !IsDistinct([Range(1, 1)], Range(1, 1))
    ensures !IsDistinct([Range(1, 4)], Range(2, 3)) && !IsDistinct([Range(2, 3)], Range(1, 4))
    ensures !IsDistinct([Range(1, 3)], Range(2, 4)) && !IsDistinct([Range(2, 4)], Range(1, 3))
  {
    assert Intersects([Range(1, 1)][0], [Range(1, 1)][0]);
    assert Intersects([Range(1, 4)][0], [Range(2, 3)][0]);
    assert Intersects([Range(2, 3)][0], [Range(1, 4)][0]);
    assert Intersects([Range(1, 3)][0], [Range(2, 4)][0]);
    assert Intersects([Range(2, 4)][0], [Range(1, 3)][0]);
  }

  /** Intersection tests of single ranges, in both argument orders. */
  lemma IntersectsCases()
    ensures Intersects(Range(1, 1), Range(1, 1))
    ensures Intersects(Range(1, 4), Range(2, 3)) && Intersects(Range(2, 3), Range(1, 4))
    ensures Intersects(Range(1, 3), Range(2, 4)) && Intersects(Range(2, 4), Range(1, 3))
    ensures !Intersects(Range(1, 1), Range(2, 2)) && !Intersects(Range(2, 2), Range(1, 1))
    ensures Intersects(Range(7, 10), Range(9, 11))
  {
  }

  /** Whole-range ordering: only a range entirely before or after counts. */
  lemma OrderingCases()
    ensures IsBefore(Range(1, 2), Range(3, 4))
    ensures !IsBefore(Range(2, 3), Range(3, 4)) && !IsBefore(Range(3, 3), Range(3, 4))
    ensures !IsBefore(Range(3, 4), Range(3, 4)) && !IsBefore(Range(4, 5), Range(3, 4))
    ensures !IsBefore(Range(5, 5), Range(3, 4))
    ensures IsAfter(Range(2, 2), Range(1, 1)) && IsAfter(Range(3, 4), Range(1, 2))
    ensures !IsAfter(Range(1, 1), Range(1, 1)) && !IsAfter(Range(1, 2), Range(1, 2))
    ensures !IsAfter(Range(2, 4), Range(1, 3)) && !IsAfter(Range(2, 4), Range(1, 2))
  {
  }

  /** `enclose([1-3], [5-8])` and `enclose([1-6], [5-8])` are both `[1-8]`. */
  lemma EncloseCases()
    ensures Enclose([Range(1, 3), Range(5, 8)]) == Some(Range(1, 8))
    ensures Enclose([Range(1, 6), Range(5, 8)]) == Some(Range(1, 8))
  {
    EncloseTwo(Range(1, 3), Range(5, 8));
    EncloseTwo(Range(1, 6), Range(5, 8));
  }
}
