/** Where a finite bound sits relative to its value: just below it, exactly
    on it, or just above it.  The order `Before < At < After` is the
    secondary sort key that separates exclusive from inclusive endpoints. */
module Proximity {
  import opened Orders

  datatype BoundProximity = Before | At | After

  /** Declaration position of the variant, which the derived order compares. */
  function Rank(p: BoundProximity): (n: nat) {
    match p
    case Before => 0
    case At => 1
    case After => 2
  }

  /** The derived comparison: variants compare by declaration position. */
  function Cmp(p: BoundProximity, q: BoundProximity): (r: Ordering)
    ensures r == Equal <==> p == q
  {
    IntCmp(Rank(p), Rank(q))
  }

  lemma BeforeBelowAtBelowAfter()
    ensures Cmp(Before, At) == Less
    ensures Cmp(At, After) == Less
    ensures Cmp(Before, After) == Less
  {
  }

  lemma CmpIsLawful()
    ensures Lawful(Cmp)
  {
  }
}
