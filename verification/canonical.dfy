/**
  The point-set meaning of a sequence of ranges and the canonical form every
  range set is kept in: sorted ascending, pairwise disjoint and with no two
  neighbours adjacent.  The central fact is that a canonical sequence is
  determined by the points it covers (`CanonicalUnique`).
 */
module CanonicalForm {
  import opened Ranges

  /** The points covered by the union of the ranges.  The explicit bounds
      make the set finite; the `Covers` term gives the quantifier over `i`
      and `x` a trigger. */
  ghost function Points(rs: seq<Range>): set<int> {
    set i, x | 0 <= i < |rs| && rs[i].lo <= x <= rs[i].hi && Covers(rs[i], x) :: x
  }

  /** Canonical form, stated on neighbours: every range is valid and the next
      range starts beyond the successor of this range's maximum. */
  predicate Canonical(rs: seq<Range>) {
    && AllValid(rs)
    && forall i | 0 <= i < |rs| - 1 :: rs[i].hi + 1 < rs[i + 1].lo
  }

  /** The three conditions of canonical form: sorted by minimum, pairwise
      disjoint, no adjacent neighbours. */
  predicate SortedDisjointNonAdjacent(rs: seq<Range>) {
    && AllValid(rs)
    && (forall i, j | 0 <= i < j < |rs| :: rs[i].lo < rs[j].lo)
    && (forall i, j | 0 <= i < j < |rs| :: !Intersects(rs[i], rs[j]))
    && (forall i | 0 <= i < |rs| - 1 :: rs[i].hi + 1 != rs[i + 1].lo)
  }

  lemma PointsMember(rs: seq<Range>, x: int)
    ensures x in Points(rs) <==> exists i | 0 <= i < |rs| :: Covers(rs[i], x)
  {
    if exists i | 0 <= i < |rs| :: Covers(rs[i], x) {
      var i :| 0 <= i < |rs| && Covers(rs[i], x);
      assert rs[i].lo <= x <= rs[i].hi;
    }
  }

  lemma PointsEmpty()
    ensures Points([]) == {}
  {
  }

  lemma PointsSingle(r: Range)
    ensures Points([r]) == RangePoints(r)
  {
    forall x ensures x in Points([r]) <==> x in RangePoints(r) {
      PointsMember([r], x);
      if x in RangePoints(r) {
        assert Covers([r][0], x);
      }
    }
  }

  lemma PointsConcat(a: seq<Range>, b: seq<Range>)
    ensures Points(a + b) == Points(a) + Points(b)
  {
    forall x ensures x in Points(a + b) <==> x in Points(a) + Points(b) {
      PointsMember(a + b, x);
      PointsMember(a, x);
      PointsMember(b, x);
      if x in Points(a + b) {
        var i :| 0 <= i < |a + b| && Covers((a + b)[i], x);
        if i >= |a| {
          assert (a + b)[i] == b[i - |a|];
        }
      }
      if x in Points(a) {
        var i :| 0 <= i < |a| && Covers(a[i], x);
        assert (a + b)[i] == a[i];
      }
      if x in Points(b) {
        var i :| 0 <= i < |b| && Covers(b[i], x);
        assert (a + b)[|a| + i] == b[i];
      }
    }
  }

  lemma PointsOfElement(rs: seq<Range>, i: int)
    requires 0 <= i < |rs|
    ensures RangePoints(rs[i]) <= Points(rs)
  {
    forall x | x in RangePoints(rs[i]) ensures x in Points(rs) {
      PointsMember(rs, x);
      assert Covers(rs[i], x);
    }
  }

  /** Points depend only on which ranges occur, not on their order or count. */
  lemma PointsOfSameElements(a: seq<Range>, b: seq<Range>)
    requires forall r :: r in a <==> r in b
    ensures Points(a) == Points(b)
  {
    forall x | x in Points(a) ensures x in Points(b) {
      PointsMember(a, x);
      PointsMember(b, x);
      var i :| 0 <= i < |a| && Covers(a[i], x);
      assert a[i] in b;
    }
    forall x | x in Points(b) ensures x in Points(a) {
      PointsMember(a, x);
      PointsMember(b, x);
      var i :| 0 <= i < |b| && Covers(b[i], x);
      assert b[i] in a;
    }
  }

  lemma PointsCons(rs: seq<Range>)
    requires |rs| > 0
    ensures Points(rs) == RangePoints(rs[0]) + Points(rs[1..])
  {
    assert rs == [rs[0]] + rs[1..];
    PointsConcat([rs[0]], rs[1..]);
    PointsSingle(rs[0]);
  }

  lemma PointsSnoc(rs: seq<Range>)
    requires |rs| > 0
    ensures Points(rs) == Points(rs[..|rs| - 1]) + RangePoints(rs[|rs| - 1])
  {
    assert rs == rs[..|rs| - 1] + [rs[|rs| - 1]];
    PointsConcat(rs[..|rs| - 1], [rs[|rs| - 1]]);
    PointsSingle(rs[|rs| - 1]);
  }

  /** In canonical form the neighbour condition extends to every later range. */
  lemma {:induction false} CanonicalOrdered(rs: seq<Range>, i: int, j: int)
    requires Canonical(rs)
    requires 0 <= i < j < |rs|
    ensures rs[i].hi + 1 < rs[j].lo
    decreases j - i
  {
    if j > i + 1 {
      CanonicalOrdered(rs, i, j - 1);
      assert rs[j - 1].lo <= rs[j - 1].hi;
    }
  }

  /** The neighbour form equals those three conditions. */
  lemma CanonicalMeans(rs: seq<Range>)
    ensures Canonical(rs) <==> SortedDisjointNonAdjacent(rs)
  {
    if Canonical(rs) {
      forall i, j | 0 <= i < j < |rs| ensures rs[i].lo < rs[j].lo && !Intersects(rs[i], rs[j]) {
        CanonicalOrdered(rs, i, j);
      }
    }
    if SortedDisjointNonAdjacent(rs) {
      forall i | 0 <= i < |rs| - 1 ensures rs[i].hi + 1 < rs[i + 1].lo {
        assert !Intersects(rs[i], rs[i + 1]);
      }
    }
  }

  lemma CanonicalTail(rs: seq<Range>)
    requires Canonical(rs) && |rs| > 0
    ensures Canonical(rs[1..])
  {
    assert forall i | 0 <= i < |rs| - 1 :: rs[1..][i] == rs[i + 1];
  }

  lemma CanonicalPrefix(rs: seq<Range>, k: nat)
    requires Canonical(rs) && k <= |rs|
    ensures Canonical(rs[..k])
  {
  }

  /** Two canonical sequences, the first ending well before the second
      starts, concatenate to a canonical sequence. */
  lemma CanonicalConcat(a: seq<Range>, b: seq<Range>)
    requires Canonical(a) && Canonical(b)
    requires |a| > 0 && |b| > 0 ==> a[|a| - 1].hi + 1 < b[0].lo
    ensures Canonical(a + b)
  {
    var c := a + b;
    forall i | 0 <= i < |c| ensures Valid(c[i]) {
      if i >= |a| {
        assert c[i] == b[i - |a|];
      }
    }
    forall i | 0 <= i < |c| - 1 ensures c[i].hi + 1 < c[i + 1].lo {
      if i >= |a| {
        assert c[i] == b[i - |a|] && c[i + 1] == b[i + 1 - |a|];
      }
    }
  }

  /** Every covered point is at or after the first minimum; the points of the
      tail lie beyond the successor of the first maximum. */
  lemma CanonicalLowerBound(rs: seq<Range>, x: int)
    requires Canonical(rs) && |rs| > 0
    ensures x in Points(rs) ==> rs[0].lo <= x
    ensures x in Points(rs[1..]) ==> rs[0].hi + 1 < x
  {
    PointsMember(rs, x);
    PointsMember(rs[1..], x);
    if x in Points(rs) {
      var i :| 0 <= i < |rs| && Covers(rs[i], x);
      if i > 0 {
        CanonicalOrdered(rs, 0, i);
      }
    }
    if x in Points(rs[1..]) {
      var i :| 0 <= i < |rs[1..]| && Covers(rs[1..][i], x);
      assert rs[1..][i] == rs[i + 1];
      CanonicalOrdered(rs, 0, i + 1);
    }
  }

  /** Every covered point is at or before the last maximum. */
  lemma CanonicalUpperBound(rs: seq<Range>, x: int)
    requires Canonical(rs) && |rs| > 0
    ensures x in Points(rs) ==> x <= rs[|rs| - 1].hi
  {
    PointsMember(rs, x);
    if x in Points(rs) {
      var i :| 0 <= i < |rs| && Covers(rs[i], x);
      if i < |rs| - 1 {
        CanonicalOrdered(rs, i, |rs| - 1);
      }
    }
  }

  /** The successor of any maximum is a gap of a canonical sequence. */
  lemma CanonicalGapAfter(rs: seq<Range>, i: int)
    requires Canonical(rs) && 0 <= i < |rs|
    ensures rs[i].hi + 1 !in Points(rs)
  {
    PointsMember(rs, rs[i].hi + 1);
    forall k | 0 <= k < |rs| ensures !Covers(rs[k], rs[i].hi + 1) {
      if k < i {
        CanonicalOrdered(rs, k, i);
      } else if k > i {
        CanonicalOrdered(rs, i, k);
      }
    }
  }

  /** Every range of a valid sequence covered by `r` lies inside `r`. */
  lemma WithinCover(rs: seq<Range>, r: Range)
    requires AllValid(rs)
    requires Points(rs) <= RangePoints(r)
    ensures forall i | 0 <= i < |rs| :: r.lo <= rs[i].lo && rs[i].hi <= r.hi
  {
    forall i | 0 <= i < |rs| ensures r.lo <= rs[i].lo && rs[i].hi <= r.hi {
      PointsMember(rs, rs[i].lo);
      PointsMember(rs, rs[i].hi);
      assert rs[i].lo in RangePoints(r) && rs[i].hi in RangePoints(r);
    }
  }

  /** The first minimum of a non-empty valid sequence is one of its points. */
  lemma FirstMinimumCovered(rs: seq<Range>)
    requires AllValid(rs) && |rs| > 0
    ensures rs[0].lo in Points(rs)
  {
    PointsMember(rs, rs[0].lo);
    assert Covers(rs[0], rs[0].lo);
  }

  /** The points of a canonical sequence past its first range are exactly
      those outside the first range. */
  lemma PointsAfterHead(rs: seq<Range>)
    requires Canonical(rs) && |rs| > 0
    ensures Points(rs[1..]) == Points(rs) - RangePoints(rs[0])
  {
    PointsCons(rs);
    forall x | x in Points(rs[1..]) ensures x !in RangePoints(rs[0]) {
      CanonicalLowerBound(rs, x);
    }
  }

  /** Two canonical sequences covering the same points start with the same
      range. */
  lemma CanonicalSameHead(a: seq<Range>, b: seq<Range>)
    requires Canonical(a) && Canonical(b) && |a| > 0 && |b| > 0
    requires Points(a) == Points(b)
    ensures a[0] == b[0]
  {
    FirstMinimumCovered(a);
    FirstMinimumCovered(b);
    CanonicalLowerBound(a, b[0].lo);
    CanonicalLowerBound(b, a[0].lo);
    if a[0].hi < b[0].hi {
      PointsMember(b, a[0].hi + 1);
      assert Covers(b[0], a[0].hi + 1);
      CanonicalGapAfter(a, 0);
      assert false;
    }
    if b[0].hi < a[0].hi {
      PointsMember(a, b[0].hi + 1);
      assert Covers(a[0], b[0].hi + 1);
      CanonicalGapAfter(b, 0);
      assert false;
    }
  }

  /** A canonical sequence is determined by the points it covers. */
  lemma {:induction false} CanonicalUnique(a: seq<Range>, b: seq<Range>)
    requires Canonical(a) && Canonical(b)
    requires Points(a) == Points(b)
    ensures a == b
    decreases |a|
  {
    if |a| == 0 || |b| == 0 {
      if |a| > 0 {
        FirstMinimumCovered(a);
      }
      if |b| > 0 {
        FirstMinimumCovered(b);
      }
    } else {
      CanonicalSameHead(a, b);
      PointsAfterHead(a);
      PointsAfterHead(b);
      CanonicalTail(a);
      CanonicalTail(b);
      CanonicalUnique(a[1..], b[1..]);
      assert a == [a[0]] + a[1..];
      assert b == [b[0]] + b[1..];
    }
  }
}
