/**
  The two static operations on a pair of ranges whose result is a range set:
  subtracting one range from another (0, 1 or 2 fragments) and intersecting
  two ranges (0 or 1 range).
 */
module RangeAlgebra {
  import opened Values
  import opened Ranges
  import opened CanonicalForm

  /** The part of `a` outside `toRemove`.  Disjoint ranges leave `a` as it
      is, a covering range leaves nothing, a range strictly inside `a` splits
      it in two, and a partial overlap trims the tail or the head. */
  function Remove(a: Range, toRemove: Range): (frags: seq<Range>)
    requires Valid(a) && Valid(toRemove)
    ensures |frags| <= 2
    ensures Canonical(frags)
    ensures forall i | 0 <= i < |frags| :: a.lo <= frags[i].lo && frags[i].hi <= a.hi
    ensures forall i | 0 <= i < |frags| - 1 :: frags[i].hi < toRemove.lo
  {
    if Intersects(a, toRemove) then
      if a == toRemove || ContainsRange(toRemove, a) then
        []
      else if ContainsRange(a, toRemove)
        && Values.IsAfter(MinValue(toRemove), MinValue(a))
        && Values.IsBefore(MaxValue(toRemove), MaxValue(a)) then
        [Range(a.lo, Previous(MinValue(toRemove)).t), Range(Next(MaxValue(toRemove)).t, a.hi)]
      else if Values.IsAfter(MinValue(toRemove), MinValue(a)) then
        [Range(a.lo, Previous(MinValue(toRemove)).t)]
      else
        [Range(Next(MaxValue(toRemove)).t, a.hi)]
    else
      [a]
  }

  /** The fragments cover exactly the points of `a` not in `toRemove`. */
  lemma RemoveIsDifference(a: Range, toRemove: Range)
    requires Valid(a) && Valid(toRemove)
    ensures Points(Remove(a, toRemove)) == RangePoints(a) - RangePoints(toRemove)
  {
    var frags := Remove(a, toRemove);
    forall x ensures x in Points(frags) <==> x in RangePoints(a) - RangePoints(toRemove) {
      PointsMember(frags, x);
      if x in RangePoints(a) - RangePoints(toRemove) {
        if |frags| == 2 {
          if x < toRemove.lo {
            assert Covers(frags[0], x);
          } else {
            assert Covers(frags[1], x);
          }
        } else {
          assert Covers(frags[0], x);
        }
      }
    }
  }

  /** A range that does not meet `a` removes nothing. */
  lemma RemoveDisjointKeeps(a: Range, toRemove: Range)
    requires Valid(a) && Valid(toRemove)
    requires a.hi < toRemove.lo || toRemove.hi < a.lo
    ensures Remove(a, toRemove) == [a]
  {
  }

  /** A range equal to or enclosing `a` removes all of it. */
  lemma RemoveCoveringIsEmpty(a: Range, toRemove: Range)
    requires Valid(a) && Valid(toRemove)
    requires toRemove.lo <= a.lo && a.hi <= toRemove.hi
    ensures Remove(a, toRemove) == []
  {
  }

  /** A range strictly inside `a` splits it around itself. */
  lemma RemoveInteriorSplits(a: Range, toRemove: Range)
    requires Valid(a) && Valid(toRemove)
    requires a.lo < toRemove.lo && toRemove.hi < a.hi
    ensures Remove(a, toRemove) == [Range(a.lo, toRemove.lo - 1), Range(toRemove.hi + 1, a.hi)]
  {
  }

  /** A partial overlap reaching past one end of `a` trims that end. */
  lemma RemovePartialTrims(a: Range, toRemove: Range)
    requires Valid(a) && Valid(toRemove)
    requires Intersects(a, toRemove)
    ensures a.lo < toRemove.lo && a.hi <= toRemove.hi ==> Remove(a, toRemove) == [Range(a.lo, toRemove.lo - 1)]
    ensures toRemove.lo <= a.lo && toRemove.hi < a.hi ==> Remove(a, toRemove) == [Range(toRemove.hi + 1, a.hi)]
  {
  }

  /** The common part of two ranges: `[max of mins, min of maxes]` when they
      intersect, nothing otherwise. */
  function Intersection(a: Range, b: Range): (s: seq<Range>)
    ensures |s| <= 1
    ensures forall i | 0 <= i < |s| :: a.lo <= s[i].lo && s[i].hi <= a.hi && b.lo <= s[i].lo && s[i].hi <= b.hi
    ensures Valid(a) && Valid(b) ==> Canonical(s)
  {
    if Intersects(a, b) then
      var maxStart := if Values.IsAfter(MinValue(b), MinValue(a)) then b.lo else a.lo;
      var minEnd := if Values.IsBefore(MaxValue(b), MaxValue(a)) then b.hi else a.hi;
      [Range(maxStart, minEnd)]
    else
      []
  }

  /** The intersection covers exactly the common points, and is empty exactly
      when the ranges do not intersect. */
  lemma IntersectionIsMeet(a: Range, b: Range)
    requires Valid(a) && Valid(b)
    ensures Points(Intersection(a, b)) == RangePoints(a) * RangePoints(b)
    ensures |Intersection(a, b)| == 1 <==> Intersects(a, b)
  {
    var s := Intersection(a, b);
    forall x ensures x in Points(s) <==> x in RangePoints(a) * RangePoints(b) {
      PointsMember(s, x);
      if x in RangePoints(a) * RangePoints(b) {
        assert Covers(s[0], x);
      }
    }
  }
}
