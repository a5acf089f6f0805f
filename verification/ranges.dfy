/**
  A single closed range `[lo, hi]` over the integer domain: its validating
  construction, containment, the three-way intersection test, whole-range
  ordering and the enclosing range of several ranges.
 */
module Ranges {
  import opened Values

  /** A closed interval; `Valid` (lo <= hi) is established by `Between`. */
  datatype Range = Range(lo: int, hi: int)

  datatype RangeError =
    | MissingValue   // a required endpoint is absent
    | InvalidRange   // the lower endpoint is after the upper one

  datatype Result<T> = Ok(value: T) | Err(error: RangeError)

  datatype Option<T> = None | Some(value: T)

  predicate Valid(r: Range) {
    r.lo <= r.hi
  }

  predicate AllValid(rs: seq<Range>) {
    forall i | 0 <= i < |rs| :: Valid(rs[i])
  }

  /** `x` lies inside `r`, both boundaries inclusive: the reference meaning
      every containment test is compared with. */
  predicate Covers(r: Range, x: int) {
    r.lo <= x <= r.hi
  }

  /** The points a range covers.  The explicit bounds make the set finite;
      the `Covers` term gives the comprehension a trigger. */
  ghost function RangePoints(r: Range): set<int> {
    set x | r.lo <= x <= r.hi && Covers(r, x)
  }

  /** The least point of a valid range. */
  function MinValue(r: Range): (m: Value)
    ensures Valid(r) ==> Covers(r, m.t)
    ensures forall x :: Covers(r, x) ==> m.t <= x
  {
    Value(r.lo)
  }

  /** The greatest point of a valid range. */
  function MaxValue(r: Range): (m: Value)
    ensures Valid(r) ==> Covers(r, m.t)
    ensures forall x :: Covers(r, x) ==> x <= m.t
  {
    Value(r.hi)
  }

  /** The validating constructor: both endpoints must be present and the
      first must not be after the second. */
  function Between(from: Option<Value>, to: Option<Value>): (res: Result<Range>)
    ensures res.Ok? <==> from.Some? && to.Some? && from.value.t <= to.value.t
    ensures (from.None? || to.None?) ==> res == Err(MissingValue)
    ensures res.Err? && from.Some? && to.Some? ==> res.error == InvalidRange
    ensures res.Ok? ==> Valid(res.value)
    ensures res.Ok? ==> MinValue(res.value) == from.value && MaxValue(res.value) == to.value
  {
    if from.None? || to.None? then Err(MissingValue)
    else if Values.IsAfter(from.value, to.value) then Err(InvalidRange)
    else Ok(Range(from.value.t, to.value.t))
  }

  /** Equal endpoints give the single-point range. */
  lemma BetweenSinglePoint(v: Value)
    ensures Between(Some(v), Some(v)).Ok?
    ensures RangePoints(Between(Some(v), Some(v)).value) == {v.t}
  {
    var r := Between(Some(v), Some(v)).value;
    forall x | x in RangePoints(r) ensures x == v.t { }
  }

  /** Range equality is structural on the two endpoints. */
  lemma EqualityIsStructural(a: Range, b: Range)
    ensures a == b <==> MinValue(a) == MinValue(b) && MaxValue(a) == MaxValue(b)
  {
  }

  /** Inclusive containment of a value. */
  function ContainsValue(r: Range, v: Value): (b: bool)
    ensures b <==> v.t in RangePoints(r)
  {
    IsBeforeOrEqual(MinValue(r), v) && IsAfterOrEqual(MaxValue(r), v)
  }

  /** Containment of a bare element, as intended: both boundaries inclusive. */
  function ContainsElement(r: Range, t: int): (b: bool)
    ensures b <==> r.lo <= t <= r.hi
  {
    IsBeforeOrEqualElement(MinValue(r), t) && IsAfterOrEqualElement(MaxValue(r), t)
  }

  /** Containment of a bare element as the source writes it: through the
      inverted `isBeforeOrEqual(X)` it tests `t <= lo` instead of `lo <= t`. */
  function ContainsElementAsWritten(r: Range, t: int): (b: bool)
    ensures Valid(r) ==> (b <==> t <= r.lo)
  {
    IsBeforeOrEqualElementAsWritten(MinValue(r), t) && IsAfterOrEqualElement(MaxValue(r), t)
  }

  /** The as-written element containment claims that [5,5] contains 3 and that
      [1,4] does not contain 2. */
  lemma ContainsElementAsWrittenIsWrong()
    ensures ContainsElementAsWritten(Range(5, 5), 3) && !ContainsElement(Range(5, 5), 3)
    ensures !ContainsElementAsWritten(Range(1, 4), 2) && ContainsElement(Range(1, 4), 2)
  {
  }

  /** A range contains another iff it contains both of its endpoints. */
  function ContainsRange(r: Range, other: Range): (b: bool)
    ensures b <==> r.lo <= other.lo <= r.hi && r.lo <= other.hi <= r.hi
  {
    ContainsValue(r, MinValue(other)) && ContainsValue(r, MaxValue(other))
  }

  /** For a valid `other`, containment is inclusion of point sets. */
  lemma ContainsRangeIffSubset(r: Range, other: Range)
    requires Valid(other)
    ensures ContainsRange(r, other) <==> RangePoints(other) <= RangePoints(r)
  {
    if RangePoints(other) <= RangePoints(r) {
      assert other.lo in RangePoints(other);
      assert other.hi in RangePoints(other);
    }
  }

  /** The three-way test: one of `other`'s endpoints lies in `r`, or `other`
      encloses `r`. */
  function Intersects(r: Range, other: Range): (b: bool)
    ensures Valid(r) && Valid(other) ==>
      (b <==> (if r.lo < other.lo then other.lo else r.lo) <= (if r.hi < other.hi then r.hi else other.hi))
  {
    ContainsValue(r, MinValue(other)) || ContainsValue(r, MaxValue(other)) || ContainsRange(other, r)
  }

  /** Two valid ranges intersect iff they share a point. */
  lemma IntersectsIffCommonPoint(a: Range, b: Range)
    requires Valid(a) && Valid(b)
    ensures Intersects(a, b) <==> RangePoints(a) * RangePoints(b) != {}
  {
    if Intersects(a, b) {
      var m := if a.lo < b.lo then b.lo else a.lo;
      assert m in RangePoints(a) * RangePoints(b);
    }
  }

  /** Intersection is reflexive and symmetric, and holds when one range
      encloses the other. */
  lemma IntersectsReflexiveSymmetric(a: Range, b: Range)
    requires Valid(a) && Valid(b)
    ensures Intersects(a, a)
    ensures Intersects(a, b) == Intersects(b, a)
    ensures ContainsRange(a, b) ==> Intersects(a, b) && Intersects(b, a)
  {
  }

  /** Whole-range strict ordering: all of `r` lies before all of `other`. */
  function IsBefore(r: Range, other: Range): (b: bool)
    ensures b <==> r.hi < other.lo
  {
    Values.IsBefore(MaxValue(r), MinValue(other))
  }

  /** Whole-range strict ordering: all of `r` lies after all of `other`. */
  function IsAfter(r: Range, other: Range): (b: bool)
    ensures b <==> r.lo > other.hi
  {
    Values.IsAfter(MinValue(r), MaxValue(other))
  }

  /** `r` starts strictly before `other`. */
  function StartsBefore(r: Range, other: Range): (b: bool)
    ensures b <==> r.lo < other.lo
  {
    Values.IsBefore(MinValue(r), MinValue(other))
  }

  /** Two valid ranges are in exactly one of three positions: before,
      intersecting or after. */
  lemma RangeTrichotomy(a: Range, b: Range)
    requires Valid(a) && Valid(b)
    ensures IsBefore(a, b) || Intersects(a, b) || IsAfter(a, b)
    ensures !(IsBefore(a, b) && Intersects(a, b))
    ensures !(IsAfter(a, b) && Intersects(a, b))
    ensures !(IsBefore(a, b) && IsAfter(a, b))
    ensures IsBefore(a, b) <==> IsAfter(b, a)
  {
  }

  /** The range spanning the least minimum and the greatest maximum of the
      given ranges, ignoring any gaps; no range for no input. */
  function Enclose(rs: seq<Range>): (e: Option<Range>)
    ensures e.None? <==> |rs| == 0
    ensures e.Some? ==> forall i | 0 <= i < |rs| :: e.value.lo <= rs[i].lo && rs[i].hi <= e.value.hi
    ensures e.Some? ==> exists i | 0 <= i < |rs| :: rs[i].lo == e.value.lo
    ensures e.Some? ==> exists i | 0 <= i < |rs| :: rs[i].hi == e.value.hi
    ensures e.Some? && AllValid(rs) ==> Valid(e.value)
  {
    if |rs| == 0 then None
    else if |rs| == 1 then Some(rs[0])
    else
      var rest := Enclose(rs[1..]).value;
      assert forall i | 1 <= i < |rs| :: rs[i] == rs[1..][i - 1];
      Some(Range(if rs[0].lo <= rest.lo then rs[0].lo else rest.lo,
                 if rest.hi <= rs[0].hi then rs[0].hi else rest.hi))
  }

  /** The enclosing range of two ranges. */
  lemma EncloseTwo(a: Range, b: Range)
    ensures Enclose([a, b]) == Some(Range(if a.lo <= b.lo then a.lo else b.lo,
                                         if b.hi <= a.hi then a.hi else b.hi))
  {
    assert [a, b][1..] == [b];
  }

  /** Enclosing two valid ranges that intersect or are adjacent loses and adds
      no point: it is their union. */
  lemma EncloseOfTouchingIsUnion(a: Range, b: Range)
    requires Valid(a) && Valid(b)
    requires Intersects(a, b) || a.hi + 1 == b.lo
    ensures Enclose([a, b]).Some?
    ensures RangePoints(Enclose([a, b]).value) == RangePoints(a) + RangePoints(b)
  {
    var e := Enclose([a, b]).value;
    assert e.lo <= a.lo && e.lo <= b.lo && a.hi <= e.hi && b.hi <= e.hi;
    assert e.lo == a.lo || e.lo == b.lo;
    assert e.hi == a.hi || e.hi == b.hi;
    forall x | x in RangePoints(e) ensures x in RangePoints(a) + RangePoints(b) {
      if x < a.lo || x > a.hi {
        assert x !in RangePoints(a);
      }
    }
  }
}
