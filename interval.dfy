/** Intervals on a totally ordered axis as pairs of bound points, with a
    validated factory from raw endpoints, four unbounded factories, and
    membership and overlap tests that are plain comparisons of bound points. */
module Intervals {
  import opened Orders
  import opened Results
  import opened BoundPoints

  /** Which of the two finite endpoints are excluded. */
  datatype IntervalType = Open | StartOpen | EndOpen | Close

  datatype IntervalError = StartMustBeMinorThanEnd

  datatype Interval<T> = Interval(start: BoundPoint<T>, end: BoundPoint<T>)

  /** The kinds whose start value is not part of the interval. */
  predicate ExcludesStart(kind: IntervalType) {
    kind == Open || kind == StartOpen
  }

  /** The kinds whose end value is not part of the interval. */
  predicate ExcludesEnd(kind: IntervalType) {
    kind == Open || kind == EndOpen
  }

  /** Rejects raw endpoints whose start is strictly greater than the end. */
  function Validate<T>(cmp: (T, T) -> Ordering, start: T, end: T): (r: Result<(), IntervalError>) {
    if cmp(start, end).IsGt() then Err(StartMustBeMinorThanEnd) else Ok(())
  }

  /** The validated factory: checks the raw endpoints, then turns each into
      the bound point that the interval kind calls for. */
  function New<T>(cmp: (T, T) -> Ordering, start: T, end: T, kind: IntervalType): (r: Result<Interval<T>, IntervalError>)
    ensures r.Err? <==> cmp(start, end).IsGt()
    ensures r.Err? ==> r.error == StartMustBeMinorThanEnd
    ensures r.Ok? ==> r.value.start == (if ExcludesStart(kind) then After(start) else At(start))
    ensures r.Ok? ==> r.value.end == (if ExcludesEnd(kind) then Before(end) else At(end))
  {
    var _ :- Validate(cmp, start, end);
    match kind
    case Open => Ok(Interval(After(start), Before(end)))
    case StartOpen => Ok(Interval(After(start), At(end)))
    case EndOpen => Ok(Interval(At(start), Before(end)))
    case Close => Ok(Interval(At(start), At(end)))
  }

  /** The values strictly above `value`. */
  function SinceExclusive<T>(value: T): (i: Interval<T>) {
    Interval(After(value), PosInfinity())
  }

  /** The values from `value` upwards. */
  function SinceInclusive<T>(value: T): (i: Interval<T>) {
    Interval(At(value), PosInfinity())
  }

  /** The values strictly below `value`. */
  function UntilExclusive<T>(value: T): (i: Interval<T>) {
    Interval(NegInfinity(), Before(value))
  }

  /** The values up to and including `value`. */
  function UntilInclusive<T>(value: T): (i: Interval<T>) {
    Interval(NegInfinity(), At(value))
  }

  predicate Contains<T>(cmp: (T, T) -> Ordering, i: Interval<T>, value: T) {
    var p := At(value);
    Le(cmp, i.start, p) && Ge(cmp, i.end, p)
  }

  predicate Overlaps<T>(cmp: (T, T) -> Ordering, i: Interval<T>, other: Interval<T>) {
    Le(cmp, i.start, other.end) && Ge(cmp, i.end, other.start)
  }

  /** Reference reading of an interval kind on raw values: `v` lies between
      `start` and `end`, strictly on each side the kind excludes. */
  predicate RawMember<T>(cmp: (T, T) -> Ordering, kind: IntervalType, start: T, end: T, v: T) {
    && (if ExcludesStart(kind) then cmp(start, v).IsLt() else cmp(start, v).IsLe())
    && (if ExcludesEnd(kind) then cmp(v, end).IsLt() else cmp(v, end).IsLe())
  }

  /** A bound point lies within the interval's two endpoints. */
  predicate Covers<T>(cmp: (T, T) -> Ordering, i: Interval<T>, p: BoundPoint<T>) {
    Le(cmp, i.start, p) && Le(cmp, p, i.end)
  }

  /** Equal raw endpoints are accepted for every interval kind. */
  lemma NewAcceptsEqualEndpoints<T(!new)>(cmp: (T, T) -> Ordering, x: T, kind: IntervalType)
    requires Lawful(cmp)
    ensures New(cmp, x, x, kind).Ok?
  {
  }

  /** Membership in a validated interval is the raw-value reading of its kind. */
  lemma ContainsMatchesKind<T(!new)>(cmp: (T, T) -> Ordering, start: T, end: T, kind: IntervalType, v: T)
    requires Lawful(cmp)
    requires !cmp(start, end).IsGt()
    ensures New(cmp, start, end, kind).Ok?
    ensures Contains(cmp, New(cmp, start, end, kind).value, v) <==> RawMember(cmp, kind, start, end, v)
  {
  }

  /** Membership in the unbounded intervals: everything on the unbounded
      side of the endpoint, nothing on the other side. */
  lemma ContainsUnbounded<T(!new)>(cmp: (T, T) -> Ordering, x: T, v: T)
    requires Lawful(cmp)
    ensures Contains(cmp, SinceExclusive(x), v) <==> cmp(x, v).IsLt()
    ensures Contains(cmp, SinceInclusive(x), v) <==> cmp(x, v).IsLe()
    ensures Contains(cmp, UntilExclusive(x), v) <==> cmp(v, x).IsLt()
    ensures Contains(cmp, UntilInclusive(x), v) <==> cmp(v, x).IsLe()
  {
  }

  /** Overlap does not depend on the order of its operands. */
  lemma OverlapsSymmetric<T(!new)>(cmp: (T, T) -> Ordering, a: Interval<T>, b: Interval<T>)
    requires Lawful(cmp)
    ensures Overlaps(cmp, a, b) <==> Overlaps(cmp, b, a)
  {
  }

  /** Two intervals that contain a common value overlap. */
  lemma SharedValueImpliesOverlap<T(!new)>(cmp: (T, T) -> Ordering, a: Interval<T>, b: Interval<T>, v: T)
    requires Lawful(cmp)
    requires Contains(cmp, a, v) && Contains(cmp, b, v)
    ensures Overlaps(cmp, a, b)
  {
  }

  /** For intervals whose start does not lie above their end, overlap means
      exactly that some bound point lies within both. */
  lemma OverlapsIffSharedPoint<T(!new)>(cmp: (T, T) -> Ordering, a: Interval<T>, b: Interval<T>)
    requires Lawful(cmp)
    requires Le(cmp, a.start, a.end) && Le(cmp, b.start, b.end)
    ensures Overlaps(cmp, a, b) <==> exists p :: Covers(cmp, a, p) && Covers(cmp, b, p)
  {
    LeIsTotalOrder(cmp);
    GeIsFlippedLe(cmp, a.end, b.start);
    if Overlaps(cmp, a, b) {
      var p := if Le(cmp, a.start, b.start) then b.start else a.start;
      assert Covers(cmp, a, p) && Covers(cmp, b, p);
    }
    if p :| Covers(cmp, a, p) && Covers(cmp, b, p) {
      LeTransitive(cmp, a.start, p, b.end);
      LeTransitive(cmp, b.start, p, a.end);
    }
  }

  /** Two closed intervals overlap exactly when some value lies in both. */
  lemma ClosedOverlapIffSharedValue<T(!new)>(cmp: (T, T) -> Ordering, s1: T, e1: T, s2: T, e2: T)
    requires Lawful(cmp)
    requires !cmp(s1, e1).IsGt() && !cmp(s2, e2).IsGt()
    ensures New(cmp, s1, e1, Close).Ok? && New(cmp, s2, e2, Close).Ok?
    ensures var a, b := New(cmp, s1, e1, Close).value, New(cmp, s2, e2, Close).value;
      Overlaps(cmp, a, b) <==> exists v :: Contains(cmp, a, v) && Contains(cmp, b, v)
  {
    var a, b := New(cmp, s1, e1, Close).value, New(cmp, s2, e2, Close).value;
    if Overlaps(cmp, a, b) {
      var v := if cmp(s1, s2).IsLe() then s2 else s1;
      assert Contains(cmp, a, v) && Contains(cmp, b, v);
    }
  }

  /** An interval built from equal endpoints with the start or the end
      excluded contains no value, although its construction succeeds. */
  lemma DegenerateOpenIsEmpty<T(!new)>(cmp: (T, T) -> Ordering, x: T, kind: IntervalType, v: T)
    requires Lawful(cmp)
    requires kind != Close
    ensures New(cmp, x, x, kind).Ok?
    ensures !Contains(cmp, New(cmp, x, x, kind).value, v)
  {
  }

  /** The membership cases of the table-driven test over the integers. */
  lemma ContainsCases()
    ensures !Contains(IntCmp, New(IntCmp, 1, 3, Open).value, 1)
    ensures !Contains(IntCmp, New(IntCmp, 1, 3, Open).value, 3)
    ensures Contains(IntCmp, New(IntCmp, 1, 3, Open).value, 2)
    ensures !Contains(IntCmp, New(IntCmp, 1, 3, StartOpen).value, 1)
    ensures Contains(IntCmp, New(IntCmp, 1, 3, StartOpen).value, 3)
    ensures Contains(IntCmp, New(IntCmp, 1, 3, StartOpen).value, 2)
    ensures Contains(IntCmp, New(IntCmp, 1, 3, EndOpen).value, 1)
    ensures !Contains(IntCmp, New(IntCmp, 1, 3, EndOpen).value, 3)
    ensures Contains(IntCmp, New(IntCmp, 1, 3, EndOpen).value, 2)
    ensures Contains(IntCmp, New(IntCmp, 1, 3, Close).value, 1)
    ensures Contains(IntCmp, New(IntCmp, 1, 3, Close).value, 3)
    ensures Contains(IntCmp, New(IntCmp, 1, 3, Close).value, 2)
    ensures !Contains(IntCmp, New(IntCmp, 1, 3, Close).value, 0)
    ensures !Contains(IntCmp, New(IntCmp, 1, 3, Close).value, 4)
    ensures Contains(IntCmp, UntilExclusive(1), 0)
    ensures !Contains(IntCmp, UntilExclusive(1), 1)
    ensures !Contains(IntCmp, UntilExclusive(1), 2)
    ensures Contains(IntCmp, UntilInclusive(1), 0)
    ensures Contains(IntCmp, UntilInclusive(1), 1)
    ensures !Contains(IntCmp, UntilInclusive(1), 2)
    ensures !Contains(IntCmp, SinceExclusive(1), 0)
    ensures !Contains(IntCmp, SinceExclusive(1), 1)
    ensures Contains(IntCmp, SinceExclusive(1), 2)
    ensures !Contains(IntCmp, SinceInclusive(1), 0)
    ensures Contains(IntCmp, SinceInclusive(1), 1)
    ensures Contains(IntCmp, SinceInclusive(1), 2)
  {
  }

  /** The overlap cases of the table-driven test over the integers, plus the
      touching closed intervals, which do overlap. */
  lemma OverlapsCases()
    ensures Overlaps(IntCmp, New(IntCmp, 0, 3, Open).value, New(IntCmp, 0, 3, Open).value)
    ensures Overlaps(IntCmp, New(IntCmp, 0, 3, Open).value, New(IntCmp, 1, 2, Open).value)
    ensures !Overlaps(IntCmp, New(IntCmp, 0, 3, Open).value, New(IntCmp, -1, 0, Open).value)
    ensures !Overlaps(IntCmp, New(IntCmp, 0, 3, Open).value, New(IntCmp, -2, -1, Open).value)
    ensures !Overlaps(IntCmp, New(IntCmp, 0, 3, Open).value, New(IntCmp, 3, 4, Open).value)
    ensures !Overlaps(IntCmp, New(IntCmp, 0, 3, Open).value, New(IntCmp, 4, 5, Open).value)
    ensures Overlaps(IntCmp, New(IntCmp, 0, 3, Open).value, New(IntCmp, -1, 2, Open).value)
    ensures Overlaps(IntCmp, New(IntCmp, 0, 3, Open).value, New(IntCmp, 2, 4, Open).value)
    ensures Overlaps(IntCmp, New(IntCmp, 0, 3, Close).value, New(IntCmp, 3, 4, Close).value)
  {
  }

  /** Over the integers an interval that contains no value can still overlap
      another: overlap compares bound points, not members. */
  lemma EmptyIntervalCanOverlap()
    ensures forall v :: !Contains(IntCmp, New(IntCmp, 2, 2, Open).value, v)
    ensures Overlaps(IntCmp, New(IntCmp, 2, 2, Open).value, New(IntCmp, 1, 3, Close).value)
  {
  }
}
