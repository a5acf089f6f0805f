/**
  Range sets: a sequence of ranges kept in canonical form.  Normalisation
  sorts arbitrary ranges by their minimum and folds them through a stack,
  merging each range into the top of the stack when the two intersect or are
  adjacent.  Union, difference, intersection, containment and intersection
  tests are built on top of it.
 */
module RangeSets {
  import opened Values
  import opened Ranges
  import opened CanonicalForm
  import RangeAlgebra

  /** A range set is its sequence of ranges, in canonical form once built by
      `Of`, `Union`, `Remove` or `Intersection`. */
  type RangeSet = seq<Range>

  /** The set holding no range. */
  function Empty(): (s: RangeSet)
    ensures Canonical(s)
    ensures Points(s) == {}
  {
    PointsEmpty();
    []
  }

  /** `isEmpty`: the set holds no range. */
  predicate IsEmpty(s: RangeSet) {
    |s| == 0
  }

  /** A set of valid ranges is empty iff it covers no point. */
  lemma IsEmptyMeansNoPoints(s: RangeSet)
    requires AllValid(s)
    ensures IsEmpty(s) <==> Points(s) == {}
  {
    if |s| > 0 {
      FirstMinimumCovered(s);
    } else {
      PointsEmpty();
    }
  }

  // ----- Normalisation -----

  predicate SortedByMin(rs: seq<Range>) {
    forall i, j | 0 <= i < j < |rs| :: rs[i].lo <= rs[j].lo
  }

  /** Sorted by minimum means that no range starts before one ahead of it. */
  lemma SortedMeansNoneStartsBefore(rs: seq<Range>)
    ensures SortedByMin(rs) <==> forall i, j | 0 <= i < j < |rs| :: !StartsBefore(rs[j], rs[i])
  {
  }

  /** The tail of a sorted sequence is sorted. */
  lemma SortedTail(rs: seq<Range>)
    requires SortedByMin(rs) && |rs| > 0
    ensures SortedByMin(rs[1..])
  {
    forall i, j | 0 <= i < j < |rs| - 1 ensures rs[1..][i].lo <= rs[1..][j].lo {
      assert rs[1..][i] == rs[i + 1] && rs[1..][j] == rs[j + 1];
    }
  }

  /** A canonical sequence is sorted by minimum. */
  lemma CanonicalIsSorted(rs: seq<Range>)
    requires Canonical(rs)
    ensures SortedByMin(rs)
  {
    forall i, j | 0 <= i < j < |rs| ensures rs[i].lo <= rs[j].lo {
      CanonicalOrdered(rs, i, j);
    }
  }

  /** Inserts `r` ahead of the first range whose minimum is not smaller, so
      that ranges with equal minima keep their input order. */
  function InsertByMin(r: Range, rs: seq<Range>): (t: seq<Range>)
    requires SortedByMin(rs)
    ensures SortedByMin(t)
    ensures multiset(t) == multiset(rs) + multiset{r}
    ensures forall k | 0 <= k < |t| :: t[k] == r || t[k] in rs
  {
    if |rs| == 0 then [r]
    else if r.lo <= rs[0].lo then
      SortedCons(r, rs);
      [r] + rs
    else
      var rest := InsertByMin(r, rs[1..]);
      assert rs == [rs[0]] + rs[1..];
      HeadBelowInsertion(r, rs, rest);
      SortedCons(rs[0], rest);
      [rs[0]] + rest
  }

  /** The head of a sorted sequence stays below everything that inserting a
      later range into its tail produces. */
  lemma HeadBelowInsertion(r: Range, rs: seq<Range>, rest: seq<Range>)
    requires SortedByMin(rs) && |rs| > 0 && rs[0].lo < r.lo
    requires forall k | 0 <= k < |rest| :: rest[k] == r || rest[k] in rs[1..]
    ensures forall k | 0 <= k < |rest| :: rs[0].lo <= rest[k].lo
  {
    forall k | 0 <= k < |rest| ensures rs[0].lo <= rest[k].lo {
      if rest[k] != r {
        var m :| 0 <= m < |rs[1..]| && rs[1..][m] == rest[k];
        assert rs[1..][m] == rs[m + 1];
      }
    }
  }

  /** A range no later than every range of a sorted sequence may lead it. */
  lemma SortedCons(x: Range, rs: seq<Range>)
    requires SortedByMin(rs)
    requires forall k | 0 <= k < |rs| :: x.lo <= rs[k].lo
    ensures SortedByMin([x] + rs)
  {
    var t := [x] + rs;
    forall i, j | 0 <= i < j < |t| ensures t[i].lo <= t[j].lo {
      assert t[j] == rs[j - 1];
      if i > 0 {
        assert t[i] == rs[i - 1];
      }
    }
  }

  /** The ranges ordered ascending by minimum. */
  function SortByMin(rs: seq<Range>): (t: seq<Range>)
    ensures SortedByMin(t)
    ensures multiset(t) == multiset(rs)
  {
    if |rs| == 0 then []
    else
      assert rs == [rs[0]] + rs[1..];
      InsertByMin(rs[0], SortByMin(rs[1..]))
  }

  /** One reduction step of normalisation: `r` is merged with the top of the
      stack into their enclosing range when the two intersect or the top's
      successor is `r`'s minimum, and pushed as a new top otherwise. */
  function AddOnTop(stack: seq<Range>, r: Range): (s: seq<Range>)
    ensures |s| > 0
    ensures |s| == |stack| || |s| == |stack| + 1
    ensures |stack| > 0 ==> s[..|stack| - 1] == stack[..|stack| - 1]
  {
    if |stack| == 0 then
      [r]
    else
      var top := stack[|stack| - 1];
      if Intersects(top, r) || Next(MaxValue(top)) == MinValue(r) then
        stack[..|stack| - 1] + [Enclose([top, r]).value]
      else
        stack + [r]
  }

  /** The step merges exactly when the top and `r` intersect or are adjacent,
      into the range spanning both; otherwise it keeps both, in order. */
  lemma AddOnTopMergesIff(stack: seq<Range>, r: Range)
    requires |stack| > 0
    requires Valid(stack[|stack| - 1]) && Valid(r)
    ensures var top := stack[|stack| - 1];
      var s := AddOnTop(stack, r);
      && (|s| == |stack| <==> (top.lo <= r.hi && r.lo <= top.hi) || top.hi + 1 == r.lo)
      && (|s| == |stack| ==> s[|s| - 1] == Range(if top.lo <= r.lo then top.lo else r.lo,
                                                if r.hi <= top.hi then top.hi else r.hi))
      && (|s| != |stack| ==> s == stack + [r])
  {
  }

  /** Fed a range that does not start before the top, the step keeps the
      stack canonical and adds exactly the range's points. */
  lemma AddOnTopKeepsCanonical(stack: seq<Range>, r: Range)
    requires Canonical(stack) && Valid(r)
    requires |stack| > 0 ==> stack[|stack| - 1].lo <= r.lo
    ensures Canonical(AddOnTop(stack, r))
    ensures Points(AddOnTop(stack, r)) == Points(stack) + RangePoints(r)
    ensures var s := AddOnTop(stack, r); s[|s| - 1].lo <= r.lo
  {
    if |stack| == 0 {
      PointsSingle(r);
      PointsEmpty();
    } else {
      var top := stack[|stack| - 1];
      if Intersects(top, r) || top.hi + 1 == r.lo {
        MergeKeepsCanonical(stack, r);
      } else {
        PushKeepsCanonical(stack, r);
      }
    }
  }

  lemma MergeKeepsCanonical(stack: seq<Range>, r: Range)
    requires Canonical(stack) && Valid(r) && |stack| > 0
    requires stack[|stack| - 1].lo <= r.lo
    requires Intersects(stack[|stack| - 1], r) || stack[|stack| - 1].hi + 1 == r.lo
    ensures AddOnTop(stack, r) == stack[..|stack| - 1] + [Enclose([stack[|stack| - 1], r]).value]
    ensures Canonical(AddOnTop(stack, r))
    ensures Points(AddOnTop(stack, r)) == Points(stack) + RangePoints(r)
    ensures var s := AddOnTop(stack, r); s[|s| - 1].lo <= r.lo
  {
    var top := stack[|stack| - 1];
    var below := stack[..|stack| - 1];
    var e := MergedTop(stack, r);
    EncloseOfTouchingIsUnion(top, r);
    if |below| > 0 {
      assert below[|below| - 1].hi + 1 < top.lo;
    }
    CanonicalConcat(below, [e]);
    PointsSnoc(stack);
    PointsConcat(below, [e]);
    PointsSingle(e);
  }

  /** The merged top spans from the old top's minimum to the larger maximum. */
  lemma MergedTop(stack: seq<Range>, r: Range) returns (e: Range)
    requires |stack| > 0 && Valid(stack[|stack| - 1]) && Valid(r)
    requires stack[|stack| - 1].lo <= r.lo
    requires Intersects(stack[|stack| - 1], r) || stack[|stack| - 1].hi + 1 == r.lo
    ensures e == Range(stack[|stack| - 1].lo, if r.hi <= stack[|stack| - 1].hi then stack[|stack| - 1].hi else r.hi)
    ensures AddOnTop(stack, r) == stack[..|stack| - 1] + [e]
    ensures Enclose([stack[|stack| - 1], r]).value == e
  {
    var top := stack[|stack| - 1];
    EncloseTwo(top, r);
    e := Range(top.lo, if r.hi <= top.hi then top.hi else r.hi);
  }

  lemma PushKeepsCanonical(stack: seq<Range>, r: Range)
    requires Canonical(stack) && Valid(r) && |stack| > 0
    requires stack[|stack| - 1].lo <= r.lo
    requires !(Intersects(stack[|stack| - 1], r) || stack[|stack| - 1].hi + 1 == r.lo)
    ensures AddOnTop(stack, r) == stack + [r]
    ensures Canonical(AddOnTop(stack, r))
    ensures Points(AddOnTop(stack, r)) == Points(stack) + RangePoints(r)
  {
    assert stack[|stack| - 1].hi + 1 < r.lo;
    CanonicalConcat(stack, [r]);
    PointsConcat(stack, [r]);
    PointsSingle(r);
  }

  /** The stack collector: folds the sorted ranges into the stack one by one. */
  function FoldOnTop(stack: seq<Range>, rs: seq<Range>): (s: seq<Range>)
    requires Canonical(stack) && AllValid(rs) && SortedByMin(rs)
    requires |stack| > 0 && |rs| > 0 ==> stack[|stack| - 1].lo <= rs[0].lo
    ensures Canonical(s)
    ensures Points(s) == Points(stack) + Points(rs)
    decreases |rs|
  {
    if |rs| == 0 then
      PointsEmpty();
      stack
    else
      AddOnTopKeepsCanonical(stack, rs[0]);
      PointsCons(rs);
      PointsSingle(rs[0]);
      FoldOnTop(AddOnTop(stack, rs[0]), rs[1..])
  }

  /** Normalisation of arbitrary ranges: sort by minimum, then fold through
      the stack.  The result is canonical and covers the same points. */
  function Of(rs: seq<Range>): (s: RangeSet)
    requires AllValid(rs)
    ensures Canonical(s)
    ensures Points(s) == Points(rs)
  {
    var sorted := SortByMin(rs);
    assert forall r :: r in sorted <==> r in multiset(rs);
    assert AllValid(sorted) by {
      forall i | 0 <= i < |sorted| ensures Valid(sorted[i]) {
        assert sorted[i] in multiset(rs);
        var j :| 0 <= j < |rs| && rs[j] == sorted[i];
      }
    }
    PointsOfSameElements(sorted, rs);
    PointsEmpty();
    FoldOnTop([], sorted)
  }

  // ----- Union -----

  /** `add` and `sum`: both sets' ranges together, normalised. */
  function Union(set1: RangeSet, set2: RangeSet): (s: RangeSet)
    requires AllValid(set1) && AllValid(set2)
    ensures Canonical(s)
    ensures Points(s) == Points(set1) + Points(set2)
  {
    PointsConcat(set1, set2);
    Of(set1 + set2)
  }

  // ----- Difference -----

  /** After taking one more range `o` of the subtrahend off the top fragment,
      the fragment stack is still canonical, all fragments below the top lie
      before the remaining subtrahend ranges, and exactly `o`'s points are gone. */
  lemma SubtractStep(stack: seq<Range>, others: seq<Range>)
    requires Canonical(stack) && |stack| > 0
    requires AllValid(others) && SortedByMin(others) && |others| > 0
    requires forall i | 0 <= i < |stack| - 1 :: stack[i].hi < others[0].lo
    ensures var next := stack[..|stack| - 1] + RangeAlgebra.Remove(stack[|stack| - 1], others[0]);
      && Canonical(next)
      && Points(next) == Points(stack) - RangePoints(others[0])
      && (|others| > 1 ==> forall i | 0 <= i < |next| - 1 :: next[i].hi < others[1].lo)
  {
    var top := stack[|stack| - 1];
    var below := stack[..|stack| - 1];
    var o := others[0];
    var frags := RangeAlgebra.Remove(top, o);
    var next := below + frags;
    if |below| > 0 && |frags| > 0 {
      assert below[|below| - 1].hi + 1 < top.lo;
    }
    CanonicalConcat(below, frags);
    RangeAlgebra.RemoveIsDifference(top, o);
    PointsSnoc(stack);
    PointsConcat(below, frags);
    forall x | x in Points(below) ensures x !in RangePoints(o) {
      PointsMember(below, x);
    }
    if |others| > 1 {
      assert o.lo <= others[1].lo;
      forall i | 0 <= i < |next| - 1 ensures next[i].hi < others[1].lo {
        if i < |below| {
          assert next[i] == stack[i];
        } else {
          assert next[i] == frags[i - |below|];
        }
      }
    }
  }

  /** The local fragment stack of `remove`: each range of the subtrahend, in
      ascending order, is taken off the current top fragment, whose 0, 1 or 2
      remaining fragments are pushed back. */
  function SubtractEach(stack: seq<Range>, others: seq<Range>): (s: seq<Range>)
    requires Canonical(stack) && AllValid(others) && SortedByMin(others)
    requires |others| > 0 ==> forall i | 0 <= i < |stack| - 1 :: stack[i].hi < others[0].lo
    ensures Canonical(s)
    ensures Points(s) == Points(stack) - Points(others)
    decreases |others|
  {
    if |others| == 0 then
      PointsEmpty();
      stack
    else
      PointsCons(others);
      SortedTail(others);
      if |stack| == 0 then
        PointsEmpty();
        SubtractEach(stack, others[1..])
      else
        SubtractStep(stack, others);
        var top := stack[|stack| - 1];
        SubtractEach(stack[..|stack| - 1] + RangeAlgebra.Remove(top, others[0]), others[1..])
  }

  /** The fragments of consecutive ranges of a canonical set stay apart. */
  lemma PiecesJoinCanonically(rs: seq<Range>, first: seq<Range>, rest: seq<Range>)
    requires Canonical(rs) && |rs| > 0
    requires Canonical(first) && Canonical(rest)
    requires Points(first) <= RangePoints(rs[0])
    requires Points(rest) <= Points(rs[1..])
    ensures Canonical(first + rest)
  {
    if |first| > 0 && |rest| > 0 {
      WithinCover(first, rs[0]);
      PointsMember(rest, rest[0].lo);
      assert Covers(rest[0], rest[0].lo);
      CanonicalLowerBound(rs, rest[0].lo);
    }
    CanonicalConcat(first, rest);
  }

  /** The recursive step of `Remove`, `IntersectEach` and `Intersection`:
      when `c` holds and so canonical inputs make both pieces canonical, the
      pieces of the head and of the tail join canonically. */
  lemma PiecesJoinWhen(c: bool, rs: seq<Range>, first: seq<Range>, rest: seq<Range>)
    requires |rs| > 0
    requires c ==> Canonical(rs) && Canonical(first)
    requires c ==> (Canonical(rs[1..]) ==> Canonical(rest))
    requires Points(first) <= RangePoints(rs[0])
    requires Points(rest) <= Points(rs[1..])
    ensures c ==> Canonical(first + rest)
  {
    if c {
      CanonicalTail(rs);
      PiecesJoinCanonically(rs, first, rest);
    }
  }

  /** `remove`: every range of `rs` minus all of `others`, the fragments
      collected in `rs`'s order without renormalising. */
  function Remove(rs: RangeSet, others: RangeSet): (s: RangeSet)
    requires AllValid(rs) && AllValid(others) && SortedByMin(others)
    ensures Points(s) == Points(rs) - Points(others)
    ensures Canonical(rs) ==> Canonical(s)
  {
    if |rs| == 0 then
      PointsEmpty();
      []
    else
      var first := SubtractEach([rs[0]], others);
      var rest := Remove(rs[1..], others);
      PointsCons(rs);
      PointsSingle(rs[0]);
      PointsConcat(first, rest);
      PiecesJoinWhen(Canonical(rs), rs, first, rest);
      first + rest
  }

  // ----- Intersection -----

  /** The intersections of `r` with each range of `others`, in `others`'
      order (the per-range step of a set's `intersection`). */
  function IntersectEach(r: Range, others: RangeSet): (s: RangeSet)
    requires Valid(r) && AllValid(others)
    ensures Points(s) == RangePoints(r) * Points(others)
    ensures Canonical(others) ==> Canonical(s)
    ensures forall i | 0 <= i < |s| :: r.lo <= s[i].lo && s[i].hi <= r.hi
  {
    if |others| == 0 then
      PointsEmpty();
      []
    else
      var first := RangeAlgebra.Intersection(r, others[0]);
      var rest := IntersectEach(r, others[1..]);
      RangeAlgebra.IntersectionIsMeet(r, others[0]);
      PointsCons(others);
      PointsConcat(first, rest);
      PiecesJoinWhen(Canonical(others), others, first, rest);
      first + rest
  }

  /** The accumulation of a single range's `intersection(RangeSet)`: each
      pairwise intersection is merged into the accumulator by union. */
  function IntersectFold(r: Range, acc: RangeSet, others: RangeSet): (s: RangeSet)
    requires Valid(r) && Canonical(acc) && AllValid(others)
    ensures Canonical(s)
    ensures Points(s) == Points(acc) + RangePoints(r) * Points(others)
    decreases |others|
  {
    if |others| == 0 then
      PointsEmpty();
      acc
    else
      RangeAlgebra.IntersectionIsMeet(r, others[0]);
      PointsCons(others);
      MeetDistributes(Points(acc), RangePoints(r), RangePoints(others[0]), Points(others[1..]));
      IntersectFold(r, Union(acc, RangeAlgebra.Intersection(r, others[0])), others[1..])
  }

  /** Meeting with a union, one part at a time. */
  lemma MeetDistributes(a: set<int>, m: set<int>, p: set<int>, q: set<int>)
    ensures (a + m * p) + m * q == a + m * (p + q)
  {
  }

  /** A single range's `intersection(RangeSet)`: the normalised union of its
      intersections with every range of `others`. */
  function RangeIntersection(r: Range, others: RangeSet): (s: RangeSet)
    requires Valid(r) && AllValid(others)
    ensures Canonical(s)
    ensures Points(s) == RangePoints(r) * Points(others)
  {
    PointsEmpty();
    IntersectFold(r, Empty(), others)
  }

  /** A set's `intersection`: for each range of `rs` in order, its
      intersections with `others`, collected without renormalising. */
  function Intersection(rs: RangeSet, others: RangeSet): (s: RangeSet)
    requires AllValid(rs) && AllValid(others)
    ensures Points(s) == Points(rs) * Points(others)
    ensures Canonical(rs) && Canonical(others) ==> Canonical(s)
  {
    if |rs| == 0 then
      PointsEmpty();
      []
    else
      var first := IntersectEach(rs[0], others);
      var rest := Intersection(rs[1..], others);
      PointsCons(rs);
      PointsConcat(first, rest);
      WithinCoverPoints(first, rs[0]);
      PiecesJoinWhen(Canonical(rs) && Canonical(others), rs, first, rest);
      first + rest
  }

  /** Ranges lying inside `r` cover only points of `r`. */
  lemma WithinCoverPoints(rs: seq<Range>, r: Range)
    requires forall i | 0 <= i < |rs| :: r.lo <= rs[i].lo && rs[i].hi <= r.hi
    ensures Points(rs) <= RangePoints(r)
  {
    forall x | x in Points(rs) ensures x in RangePoints(r) {
      PointsMember(rs, x);
    }
  }

  // ----- Containment and intersection tests -----

  /** Some single range of `rs` contains `other`. */
  predicate SomeRangeContains(rs: RangeSet, other: Range) {
    exists i | 0 <= i < |rs| :: ContainsRange(rs[i], other)
  }

  /** Every range of `others` lies inside some single range of `rs`. */
  predicate Contains(rs: RangeSet, others: RangeSet) {
    forall j | 0 <= j < |others| :: SomeRangeContains(rs, others[j])
  }

  /** Some range of `rs` intersects some range of `others`. */
  predicate IntersectsSet(rs: RangeSet, others: RangeSet) {
    exists i, j | 0 <= i < |rs| && 0 <= j < |others| :: Intersects(rs[i], others[j])
  }

  /** A single range's `intersects(RangeSet)`: some range of `others`
      intersects `r`. */
  predicate RangeIntersectsSet(r: Range, others: RangeSet) {
    exists j | 0 <= j < |others| :: Intersects(r, others[j])
  }

  /** `rs` shares no point with `other`. */
  predicate IsDistinct(rs: RangeSet, other: Range) {
    !IntersectsSet(rs, [other])
  }

  /** Containment implies inclusion of points; for a canonical `rs` the
      converse holds too, because a gap-free run of points inside a canonical
      set never straddles a gap. */
  lemma ContainsIffSubset(rs: RangeSet, others: RangeSet)
    requires AllValid(others)
    ensures Contains(rs, others) ==> Points(others) <= Points(rs)
    ensures Canonical(rs) ==> (Contains(rs, others) <==> Points(others) <= Points(rs))
  {
    if Contains(rs, others) {
      forall x | x in Points(others) ensures x in Points(rs) {
        PointsMember(others, x);
        var j :| 0 <= j < |others| && Covers(others[j], x);
        assert SomeRangeContains(rs, others[j]);
        var i :| 0 <= i < |rs| && ContainsRange(rs[i], others[j]);
        PointsMember(rs, x);
        assert Covers(rs[i], x);
      }
    }
    if Canonical(rs) && Points(others) <= Points(rs) {
      forall j | 0 <= j < |others| ensures SomeRangeContains(rs, others[j]) {
        PointsOfElement(others, j);
        var k := EnclosingRangeIndex(rs, others[j]);
      }
    }
  }

  /** In a canonical set, a valid range whose points are all covered lies
      inside one single range of the set. */
  lemma EnclosingRangeIndex(rs: RangeSet, o: Range) returns (i: int)
    requires Canonical(rs) && Valid(o)
    requires RangePoints(o) <= Points(rs)
    ensures 0 <= i < |rs| && ContainsRange(rs[i], o)
  {
    assert o.lo in RangePoints(o);
    PointsMember(rs, o.lo);
    i :| 0 <= i < |rs| && Covers(rs[i], o.lo);
    if rs[i].hi < o.hi {
      assert rs[i].hi + 1 in RangePoints(o);
      CanonicalGapAfter(rs, i);
      assert false;
    }
  }

  /** Two sets of valid ranges intersect iff they share a point. */
  lemma IntersectsSetIffCommonPoint(rs: RangeSet, others: RangeSet)
    requires AllValid(rs) && AllValid(others)
    ensures IntersectsSet(rs, others) <==> Points(rs) * Points(others) != {}
  {
    if IntersectsSet(rs, others) {
      var i, j :| 0 <= i < |rs| && 0 <= j < |others| && Intersects(rs[i], others[j]);
      IntersectsIffCommonPoint(rs[i], others[j]);
      var x :| x in RangePoints(rs[i]) * RangePoints(others[j]);
      PointsMember(rs, x);
      PointsMember(others, x);
      assert Covers(rs[i], x) && Covers(others[j], x);
    }
    if Points(rs) * Points(others) != {} {
      var x :| x in Points(rs) * Points(others);
      PointsMember(rs, x);
      PointsMember(others, x);
      var i :| 0 <= i < |rs| && Covers(rs[i], x);
      var j :| 0 <= j < |others| && Covers(others[j], x);
      assert x in RangePoints(rs[i]) * RangePoints(others[j]);
      IntersectsIffCommonPoint(rs[i], others[j]);
    }
  }

  /** The single-range test is the set test on the one-range set, and holds
      iff `r` shares a point with `others`. */
  lemma RangeIntersectsSetMeaning(r: Range, others: RangeSet)
    requires Valid(r) && AllValid(others)
    ensures RangeIntersectsSet(r, others) <==> IntersectsSet([r], others)
    ensures RangeIntersectsSet(r, others) <==> RangePoints(r) * Points(others) != {}
  {
    if RangeIntersectsSet(r, others) {
      var j :| 0 <= j < |others| && Intersects(r, others[j]);
      assert Intersects([r][0], others[j]);
    }
    IntersectsSetIffCommonPoint([r], others);
    PointsSingle(r);
  }

  /** `isDistinct` is the negation of `intersects`: no shared point. */
  lemma IsDistinctMeaning(rs: RangeSet, other: Range)
    requires AllValid(rs) && Valid(other)
    ensures IsDistinct(rs, other) <==> !IntersectsSet(rs, [other])
    ensures IsDistinct(rs, other) <==> Points(rs) * RangePoints(other) == {}
  {
    IntersectsSetIffCommonPoint(rs, [other]);
    PointsSingle(other);
  }
}
