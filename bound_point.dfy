/** The externally visible endpoint type: a wrapper around one bound value
    that inherits its order, with the five constructors used to build
    interval endpoints. */
module BoundPoints {
  import opened Orders
  import P = Proximity
  import BV = BoundValues

  datatype BoundPoint<T> = BoundPoint(value: BV.BoundValue<T>)

  /** The point just below `v`: an exclusive upper endpoint. */
  function Before<T>(v: T): (p: BoundPoint<T>) {
    BoundPoint(BV.Finite(v, P.Before))
  }

  /** The point on `v`: an inclusive endpoint. */
  function At<T>(v: T): (p: BoundPoint<T>) {
    BoundPoint(BV.Finite(v, P.At))
  }

  /** The point just above `v`: an exclusive lower endpoint. */
  function After<T>(v: T): (p: BoundPoint<T>) {
    BoundPoint(BV.Finite(v, P.After))
  }

  function NegInfinity<T>(): (p: BoundPoint<T>) {
    BoundPoint(BV.NegInfinity)
  }

  function PosInfinity<T>(): (p: BoundPoint<T>) {
    BoundPoint(BV.PosInfinity)
  }

  /** The derived comparison of a one-field struct: compare the field. */
  function Cmp<T>(cmp: (T, T) -> Ordering, a: BoundPoint<T>, b: BoundPoint<T>): (r: Ordering) {
    BV.Cmp(cmp, a.value, b.value)
  }

  predicate Lt<T>(cmp: (T, T) -> Ordering, a: BoundPoint<T>, b: BoundPoint<T>) {
    Cmp(cmp, a, b).IsLt()
  }

  predicate Le<T>(cmp: (T, T) -> Ordering, a: BoundPoint<T>, b: BoundPoint<T>) {
    Cmp(cmp, a, b).IsLe()
  }

  predicate Gt<T>(cmp: (T, T) -> Ordering, a: BoundPoint<T>, b: BoundPoint<T>) {
    Cmp(cmp, a, b).IsGt()
  }

  predicate Ge<T>(cmp: (T, T) -> Ordering, a: BoundPoint<T>, b: BoundPoint<T>) {
    Cmp(cmp, a, b).IsGe()
  }

  lemma CmpIsLawful<T(!new)>(cmp: (T, T) -> Ordering)
    requires Lawful(cmp)
    ensures Lawful((a: BoundPoint<T>, b: BoundPoint<T>) => Cmp(cmp, a, b))
  {
    BV.CmpIsLawful(cmp);
    forall a: BoundPoint<T>, b: BoundPoint<T>
      ensures Cmp(cmp, a, b) == Equal <==> a == b
      ensures Cmp(cmp, a, b) == Cmp(cmp, b, a).Reverse()
    {
      assert BV.Cmp(cmp, a.value, b.value) == Equal <==> a.value == b.value;
      assert BV.Cmp(cmp, a.value, b.value) == BV.Cmp(cmp, b.value, a.value).Reverse();
    }
    forall a: BoundPoint<T>, b: BoundPoint<T>, c: BoundPoint<T> | Cmp(cmp, a, b) == Less && Cmp(cmp, b, c) == Less
      ensures Cmp(cmp, a, c) == Less
    {
      assert BV.Cmp(cmp, a.value, b.value) == Less && BV.Cmp(cmp, b.value, c.value) == Less;
    }
  }

  /** The derived `<=` on points is a total order. */
  lemma LeIsTotalOrder<T(!new)>(cmp: (T, T) -> Ordering)
    requires Lawful(cmp)
    ensures LeIsTotalOrdering((a: BoundPoint<T>, b: BoundPoint<T>) => Cmp(cmp, a, b))
  {
    CmpIsLawful(cmp);
    LawfulGivesTotalOrdering((a: BoundPoint<T>, b: BoundPoint<T>) => Cmp(cmp, a, b));
  }

  /** `>=` and `>` are `<=` and `<` with the operands swapped. */
  lemma GeIsFlippedLe<T(!new)>(cmp: (T, T) -> Ordering, a: BoundPoint<T>, b: BoundPoint<T>)
    requires Lawful(cmp)
    ensures Ge(cmp, a, b) <==> Le(cmp, b, a)
    ensures Gt(cmp, a, b) <==> Lt(cmp, b, a)
  {
  }

  /** `<=` on points is transitive. */
  lemma LeTransitive<T(!new)>(cmp: (T, T) -> Ordering, a: BoundPoint<T>, b: BoundPoint<T>, c: BoundPoint<T>)
    requires Lawful(cmp)
    requires Le(cmp, a, b) && Le(cmp, b, c)
    ensures Le(cmp, a, c)
  {
  }

  /** For every value, the three finite points around it are strictly ordered. */
  lemma BeforeAtAfterOrdered<T(!new)>(cmp: (T, T) -> Ordering, v: T)
    requires Lawful(cmp)
    ensures Lt(cmp, Before(v), At(v))
    ensures Lt(cmp, At(v), After(v))
    ensures Lt(cmp, Before(v), After(v))
  {
  }

  /** Points around a smaller value stay below points around a larger one:
      the proximity only breaks ties. */
  lemma AfterBelowBefore<T>(cmp: (T, T) -> Ordering, a: T, b: T)
    requires cmp(a, b) == Less
    ensures Lt(cmp, After(a), Before(b))
  {
  }

  /** The infinities bound every point, strictly unless equal to it. */
  lemma InfinitiesBoundEveryPoint<T>(cmp: (T, T) -> Ordering, p: BoundPoint<T>)
    ensures Le(cmp, NegInfinity(), p) && Le(cmp, p, PosInfinity())
    ensures p != NegInfinity() ==> Lt(cmp, NegInfinity(), p)
    ensures p != PosInfinity() ==> Lt(cmp, p, PosInfinity())
  {
  }

  /** A lower endpoint below or on `At(v)`: an exclusive one admits exactly
      the larger values, an inclusive one also admits its own value. */
  lemma LowerEndpointMeaning<T>(cmp: (T, T) -> Ordering, x: T, v: T)
    ensures Le(cmp, After(x), At(v)) <==> cmp(x, v) == Less
    ensures Le(cmp, At(x), At(v)) <==> cmp(x, v) != Greater
  {
  }

  /** An upper endpoint on or above `At(v)`: an exclusive one admits exactly
      the smaller values, an inclusive one also admits its own value. */
  lemma UpperEndpointMeaning<T>(cmp: (T, T) -> Ordering, y: T, v: T)
    ensures Ge(cmp, Before(y), At(v)) <==> cmp(y, v) == Greater
    ensures Ge(cmp, At(y), At(v)) <==> cmp(y, v) != Less
  {
  }
}
