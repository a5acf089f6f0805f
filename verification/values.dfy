/**
  One point of a discretely ordered domain, instantiated for the integers.

  A value wraps one element together with the domain's comparison rule and its
  stepping rule.  For the integer domain the comparison is the natural order
  and the stepping rule is `n + 1` / `n - 1`, so a value is just its element.
  Every ordering predicate is derived from the single `CompareTo`.
 */
module Values {

  datatype Value = Value(t: int)

  /** The successor under the stepping rule: the least value after `v`. */
  function Next(v: Value): (n: Value)
    ensures IsAfter(n, v)
    ensures forall w :: IsAfter(w, v) ==> IsAfterOrEqual(w, n)
  {
    Value(v.t + 1)
  }

  /** The predecessor under the stepping rule: the greatest value before `v`. */
  function Previous(v: Value): (p: Value)
    ensures IsBefore(p, v)
    ensures forall w :: IsBefore(w, v) ==> IsBeforeOrEqual(w, p)
  {
    Value(v.t - 1)
  }

  /** Rebinds `v`'s rules to another element of the domain. */
  function With(v: Value, x: int): (w: Value)
    ensures w.t == x
  {
    Value(x)
  }

  /** The natural order of the integers, answering -1, 0 or 1. */
  function CompareTo(a: Value, b: Value): (c: int)
    ensures -1 <= c <= 1
    ensures c < 0 <==> a.t < b.t
    ensures c == 0 <==> a == b
    ensures c > 0 <==> a.t > b.t
  {
    if a.t < b.t then -1 else if a.t == b.t then 0 else 1
  }

  function IsAfter(a: Value, b: Value): (r: bool)
    ensures r <==> a.t > b.t
  {
    CompareTo(a, b) > 0
  }

  function IsAfterOrEqual(a: Value, b: Value): (r: bool)
    ensures r <==> a.t >= b.t
  {
    var i := CompareTo(a, b);
    i > 0 || i == 0
  }

  function IsBefore(a: Value, b: Value): (r: bool)
    ensures r <==> a.t < b.t
  {
    CompareTo(a, b) < 0
  }

  function IsBeforeOrEqual(a: Value, b: Value): (r: bool)
    ensures r <==> a.t <= b.t
  {
    var i := CompareTo(a, b);
    i < 0 || i == 0
  }

  // The overloads taking a bare domain element compare against `With(x)`.

  function IsAfterElement(a: Value, x: int): (r: bool)
    ensures r <==> a.t > x
  {
    IsAfter(a, With(a, x))
  }

  function IsAfterOrEqualElement(a: Value, x: int): (r: bool)
    ensures r <==> a.t >= x
  {
    IsAfterOrEqual(a, With(a, x))
  }

  function IsBeforeElement(a: Value, x: int): (r: bool)
    ensures r <==> a.t < x
  {
    IsBefore(a, With(a, x))
  }

  /** `isBeforeOrEqual(X)` exactly as the source writes it: it delegates to
      the after-or-equal test, so it answers the inverted question. */
  function IsBeforeOrEqualElementAsWritten(a: Value, x: int): (r: bool)
    ensures r <==> a.t >= x
  {
    IsAfterOrEqual(a, With(a, x))
  }

  /** `isBeforeOrEqual(X)` as its name and its sibling overloads intend. */
  function IsBeforeOrEqualElement(a: Value, x: int): (r: bool)
    ensures r <==> a.t <= x
  {
    IsBeforeOrEqual(a, With(a, x))
  }

  /** Every element-overload agrees with its value form on `With(x)`. */
  lemma ElementOverloadsAgree(a: Value, x: int)
    ensures IsAfterElement(a, x) == IsAfter(a, Value(x))
    ensures IsAfterOrEqualElement(a, x) == IsAfterOrEqual(a, Value(x))
    ensures IsBeforeElement(a, x) == IsBefore(a, Value(x))
    ensures IsBeforeOrEqualElement(a, x) == IsBeforeOrEqual(a, Value(x))
  {
  }

  /** The as-written `isBeforeOrEqual(X)` disagrees with the value form: the
      value 1 is before 3, yet the overload says it is not; 5 is after 3, yet
      the overload says it is before or equal. */
  lemma IsBeforeOrEqualElementInverted()
    ensures IsBeforeOrEqual(Value(1), Value(3)) && !IsBeforeOrEqualElementAsWritten(Value(1), 3)
    ensures !IsBeforeOrEqual(Value(5), Value(3)) && IsBeforeOrEqualElementAsWritten(Value(5), 3)
  {
  }

  /** For a total order exactly one of before, equal and after holds. */
  lemma Trichotomy(a: Value, b: Value)
    ensures IsBefore(a, b) || a == b || IsAfter(a, b)
    ensures !(IsBefore(a, b) && a == b) && !(IsBefore(a, b) && IsAfter(a, b)) && !(a == b && IsAfter(a, b))
  {
  }

  /** The or-equal predicates are the strict ones widened by equality, and
      swapping the arguments swaps before and after. */
  lemma OrderingDuality(a: Value, b: Value)
    ensures IsBeforeOrEqual(a, b) <==> IsBefore(a, b) || a == b
    ensures IsAfterOrEqual(a, b) <==> IsAfter(a, b) || a == b
    ensures IsBefore(a, b) <==> IsAfter(b, a)
    ensures CompareTo(a, b) == -CompareTo(b, a)
  {
  }

  /** The stepping rule is consistent with the order: the successor is
      strictly after, nothing lies strictly between a value and its successor,
      and the predecessor undoes the successor. */
  lemma SteppingIsAdjacent(v: Value, w: Value)
    ensures IsAfter(Next(v), v) && IsBefore(Previous(v), v)
    ensures Previous(Next(v)) == v && Next(Previous(v)) == v
    ensures !(IsAfter(w, v) && IsBefore(w, Next(v)))
  {
  }
}
