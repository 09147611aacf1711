/** An extended point on an ordered axis: negative infinity, a finite value
    with a proximity marker, or positive infinity, ordered by variant first
    and then lexicographically by (value, proximity). */
module BoundValues {
  import opened Orders
  import P = Proximity

  datatype BoundValue<T> =
    | NegInfinity
    | Finite(value: T, proximity: P.BoundProximity)
    | PosInfinity

  /** Declaration position of the variant, which the derived order compares first. */
  function Discriminant<T>(v: BoundValue<T>): (d: nat) {
    match v
    case NegInfinity => 0
    case Finite(_, _) => 1
    case PosInfinity => 2
  }

  /** Field-by-field comparison of two values of the same variant. */
  function FieldsCmp<T>(cmp: (T, T) -> Ordering, a: BoundValue<T>, b: BoundValue<T>): (r: Ordering)
    requires Discriminant(a) == Discriminant(b)
  {
    match (a, b)
    case (Finite(x, p), Finite(y, q)) => cmp(x, y).Then(P.Cmp(p, q))
    case _ => Equal
  }

  /** The derived comparison: variant positions first, then the fields. */
  function Cmp<T>(cmp: (T, T) -> Ordering, a: BoundValue<T>, b: BoundValue<T>): (r: Ordering) {
    var d := IntCmp(Discriminant(a), Discriminant(b));
    if d != Equal then d else FieldsCmp(cmp, a, b)
  }

  predicate Le<T>(cmp: (T, T) -> Ordering, a: BoundValue<T>, b: BoundValue<T>) {
    Cmp(cmp, a, b).IsLe()
  }

  predicate Lt<T>(cmp: (T, T) -> Ordering, a: BoundValue<T>, b: BoundValue<T>) {
    Cmp(cmp, a, b).IsLt()
  }

  /** Negative infinity lies below every other bound value. */
  lemma NegInfinityIsLeast<T>(cmp: (T, T) -> Ordering, v: BoundValue<T>)
    ensures Le(cmp, NegInfinity, v)
    ensures v != NegInfinity ==> Lt(cmp, NegInfinity, v)
  {
  }

  /** Positive infinity lies above every other bound value. */
  lemma PosInfinityIsGreatest<T>(cmp: (T, T) -> Ordering, v: BoundValue<T>)
    ensures Le(cmp, v, PosInfinity)
    ensures v != PosInfinity ==> Lt(cmp, v, PosInfinity)
  {
  }

  /** Two finite values with different payloads compare as the payloads do,
      whatever their proximities. */
  lemma FiniteComparesValueFirst<T>(cmp: (T, T) -> Ordering, a: T, p: P.BoundProximity, b: T, q: P.BoundProximity)
    requires cmp(a, b) != Equal
    ensures Cmp(cmp, Finite(a, p), Finite(b, q)) == cmp(a, b)
  {
  }

  /** On equal payloads the proximities decide. */
  lemma FiniteTieUsesProximity<T(!new)>(cmp: (T, T) -> Ordering, a: T, p: P.BoundProximity, q: P.BoundProximity)
    requires Lawful(cmp)
    ensures Cmp(cmp, Finite(a, p), Finite(a, q)) == P.Cmp(p, q)
  {
  }

  /** The derived comparison is lawful whenever the payload comparison is. */
  lemma CmpIsLawful<T(!new)>(cmp: (T, T) -> Ordering)
    requires Lawful(cmp)
    ensures Lawful((a: BoundValue<T>, b: BoundValue<T>) => Cmp(cmp, a, b))
  {
  }

  /** The derived `<=` is a total order on bound values. */
  lemma LeIsTotalOrder<T(!new)>(cmp: (T, T) -> Ordering)
    requires Lawful(cmp)
    ensures LeIsTotalOrdering((a: BoundValue<T>, b: BoundValue<T>) => Cmp(cmp, a, b))
  {
    CmpIsLawful(cmp);
    LawfulGivesTotalOrdering((a: BoundValue<T>, b: BoundValue<T>) => Cmp(cmp, a, b));
  }

  /** Reference statement of the order: negative infinity is least, positive
      infinity is greatest, and finite values compare by value and, only on a
      tie, by proximity. */
  lemma LeIsLexicographic<T(!new)>(cmp: (T, T) -> Ordering, a: BoundValue<T>, b: BoundValue<T>)
    requires Lawful(cmp)
    ensures Le(cmp, a, b) <==>
      || a.NegInfinity?
      || b.PosInfinity?
      || (a.Finite? && b.Finite? &&
          (|| cmp(a.value, b.value) == Less
           || (a.value == b.value && P.Rank(a.proximity) <= P.Rank(b.proximity))))
  {
  }
}
