/** Three-way comparison outcomes and the laws of a total order.

    The axis type `T` of the library only has to be totally ordered.  In the
    model it comes with a caller-supplied three-way comparison `cmp`, and
    `Lawful(cmp)` states the contract that an `Ord` implementation promises:
    equality exactly on equal values, antisymmetry and transitivity.  The
    derived orders of the bound types are built from such comparisons. */
module Orders {

  /** The outcome of a three-way comparison. */
  datatype Ordering = Less | Equal | Greater {

    /** The outcome of the same comparison with the operands swapped. */
    function Reverse(): (r: Ordering)
      ensures r.IsLt() <==> this.IsGt()
      ensures r.IsGt() <==> this.IsLt()
    {
      match this
      case Less => Greater
      case Equal => Equal
      case Greater => Less
    }

    /** Lexicographic chaining: `other` decides only on a tie. */
    function Then(other: Ordering): (r: Ordering)
      ensures r == Equal <==> this == Equal && other == Equal
      ensures this != Equal ==> r == this
    {
      if this == Equal then other else this
    }

    /** The four comparison operators read off a three-way outcome. */
    predicate IsLt() { this == Less }
    predicate IsLe() { this != Greater }
    predicate IsGt() { this == Greater }
    predicate IsGe() { this != Less }
  }

  /** `cmp` is a total order whose ties are exactly the equal pairs. */
  ghost predicate Lawful<T(!new)>(cmp: (T, T) -> Ordering) {
    && (forall a, b :: cmp(a, b) == Equal <==> a == b)
    && (forall a, b :: cmp(a, b) == cmp(b, a).Reverse())
    && (forall a, b, c :: cmp(a, b) == Less && cmp(b, c) == Less ==> cmp(a, c) == Less)
  }

  /** `<=` obtained from `cmp` is reflexive, antisymmetric, transitive and
      total: a total ordering in the sense of order theory. */
  ghost predicate LeIsTotalOrdering<T(!new)>(cmp: (T, T) -> Ordering) {
    && (forall a :: cmp(a, a).IsLe())
    && (forall a, b :: cmp(a, b).IsLe() && cmp(b, a).IsLe() ==> a == b)
    && (forall a, b, c :: cmp(a, b).IsLe() && cmp(b, c).IsLe() ==> cmp(a, c).IsLe())
    && (forall a, b :: cmp(a, b).IsLe() || cmp(b, a).IsLe())
  }

  lemma LawfulGivesTotalOrdering<T(!new)>(cmp: (T, T) -> Ordering)
    requires Lawful(cmp)
    ensures LeIsTotalOrdering(cmp)
  {
  }

  /** The comparison of mathematical integers, used for the concrete axis. */
  function IntCmp(a: int, b: int): (r: Ordering)
    ensures r.IsLt() <==> a < b
    ensures r.IsGt() <==> a > b
  {
    if a < b then Less else if a == b then Equal else Greater
  }

  lemma IntCmpIsLawful()
    ensures Lawful(IntCmp)
  {
  }
}
