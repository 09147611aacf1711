# Bound points and intervals on a totally ordered axis

This project models a small Rust library for intervals over any totally
ordered type `T`, and proves properties of the model.

- A finite endpoint is a value together with a *proximity*: `Before` (just
  below the value), `At` (on it) or `After` (just above it).
- With the two infinities this gives an *extended bound value*. Its derived
  order compares the variant first (`NegInfinity < Finite < PosInfinity`).
  Two finite values compare by value, and by proximity only on a tie.
- An *interval* is a pair of bound points. Exclusive and inclusive endpoints
  are encoded once, as the proximity. After that, membership and overlap are
  two `<=`/`>=` comparisons of bound points.

The axis type is a type parameter `T`. Every operation takes the caller's
three-way comparison `cmp: (T, T) -> Ordering`, which plays the part of
`T: Ord`. `Orders.Lawful(cmp)` states the laws an `Ord` implementation
promises: ties exactly on equal values, antisymmetry, and transitivity.
Lemmas that need those laws require `Lawful(cmp)`; the operations
themselves require nothing. The concrete test tables use `Orders.IntCmp`
on mathematical integers. `Orders.IntCmpIsLawful` proves it lawful.

Files and modules:

- `orders.dfy` (`Orders`): the three-way `Ordering`, its `<`/`<=`/`>`/`>=`
  readings and lexicographic `Then`, the `Lawful` and `LeIsTotalOrdering`
  predicates, and the integer comparison. This is Rust's standard
  comparison machinery, which the derived orders are built from.
- `bound_proximity.dfy` (`Proximity`): `BoundProximity` and its derived order.
- `bound_value.dfy` (`BoundValues`): `BoundValue<T>` and its derived order,
  with the variant compared by its declaration position (`Discriminant`).
- `bound_point.dfy` (`BoundPoints`): the `BoundPoint<T>` wrapper, its order
  (the order of the wrapped value), and the five constructors.
- `results.dfy` (`Results`): the `Result` type returned by the validated factory.
- `interval.dfy` (`Intervals`): `IntervalType`, `IntervalError`,
  `Interval<T>`, `Validate`, `New`, the four unbounded factories,
  `Contains` and `Overlaps`.

The file `src/bound_point.rs` repeats, line for line, the definitions of
the three files under `src/bound_point/`. Each definition is modelled once.
The rows below cite whichever copy states the property most directly.

Notes on the code as it stands:

- The test at `src/interval.rs:114` calls `Interval::from_to`, which the
  code does not define. The model has one factory, `Intervals.New`, for
  `new` (`src/interval.rs:25-46`).
- In `src/interval.rs:25-26` the signature of `new` appears before the
  `impl` line. This is read as a misplaced line, not as behaviour.
- `validate` rejects `start > end` (`src/interval.rs:77`). For a lawful
  comparison this accepts exactly `start <= end`.

## Model

| member | source | states |
|---|---|---|
| Proximity.Cmp | src/bound_point/bound_proximity.rs:9-28 | two proximities compare as equal exactly when they are the same variant |
| Proximity.BeforeBelowAtBelowAfter | src/bound_point/bound_proximity.rs:7-8 | `Before < At`, `At < After` and `Before < After` |
| Proximity.CmpIsLawful | src/bound_point.rs:7-10 | the derived proximity order is a lawful total order: ties only on equal variants, antisymmetric, transitive |
| BoundValues.NegInfinityIsLeast | src/bound_point/bound_value.rs:16-19 | `NegInfinity <= v` for every bound value, strictly for every other value (each `Finite` and `PosInfinity`) |
| BoundValues.PosInfinityIsGreatest | src/bound_point/bound_value.rs:31-34 | `v <= PosInfinity` for every bound value, strictly for every other value (each `Finite` and `NegInfinity`) |
| BoundValues.FiniteComparesValueFirst | src/bound_point/bound_value.rs:9-10 | finite values with unequal payloads compare as the payloads do, whatever the proximities; so `a < b` gives `Finite(a, p) < Finite(b, q)` |
| BoundValues.FiniteTieUsesProximity | src/bound_point.rs:36-37 | `Finite(a, p)` against `Finite(a, q)` gives the comparison of `p` against `q` |
| BoundValues.CmpIsLawful | src/bound_point/bound_value.rs:11 | for a lawful payload comparison the derived comparison is lawful: ties exactly on structural equality, antisymmetric, transitive |
| BoundValues.LeIsTotalOrder | src/bound_point.rs:38 | the derived `<=` on bound values is reflexive, antisymmetric, transitive and total |
| BoundValues.LeIsLexicographic | src/bound_point.rs:30-37 | `a <= b` iff `a` is `NegInfinity`, or `b` is `PosInfinity`, or both are finite and either the payload of `a` is less, or the payloads are equal and the proximity of `a` is at most that of `b` |
| BoundPoints.CmpIsLawful | src/bound_point.rs:64-76 | the bound-point comparison is lawful: ties exactly on equal points, antisymmetric, transitive |
| BoundPoints.LeIsTotalOrder | src/bound_point.rs:67-70 | the derived `<=` on bound points is reflexive, antisymmetric, transitive and total |
| BoundPoints.GeIsFlippedLe | src/bound_point/bound_point.rs:10 | `a >= b` iff `b <= a`, and `a > b` iff `b < a` |
| BoundPoints.LeTransitive | src/bound_point/bound_point.rs:7-9 | `a <= b` and `b <= c` give `a <= c` |
| BoundPoints.BeforeAtAfterOrdered | src/bound_point.rs:79-95 | `before(v) < at(v) < after(v)` and `before(v) < after(v)` for every `v` |
| BoundPoints.AfterBelowBefore | src/bound_point/bound_point.rs:19-35 | for `a < b`, `after(a) < before(b)`: a proximity never outweighs the value |
| BoundPoints.InfinitiesBoundEveryPoint | src/bound_point.rs:97-107 | `neg_infinity() <= p <= pos_infinity()` for every point, strictly unless `p` is that infinity |
| BoundPoints.LowerEndpointMeaning | src/bound_point/bound_point.rs:25-35 | `after(x) <= at(v)` iff `x < v`; `at(x) <= at(v)` iff `x <= v` |
| BoundPoints.UpperEndpointMeaning | src/bound_point/bound_point.rs:19-29 | `before(y) >= at(v)` iff `y > v`; `at(y) >= at(v)` iff `y >= v` |
| Intervals.New | src/interval.rs:25-46 | fails, always with `StartMustBeMinorThanEnd`, exactly when the raw `start > end`; on success the start is `after(start)` when the kind excludes the start (Open, StartOpen) and `at(start)` otherwise, and the end is `before(end)` when the kind excludes the end (Open, EndOpen) and `at(end)` otherwise |
| Intervals.NewAcceptsEqualEndpoints | src/interval.rs:76-82 | `start == end` is accepted for every interval kind |
| Intervals.ContainsMatchesKind | src/interval.rs:84-87 | a validated interval contains `v` iff `start < v` (or `<=` when the start is included) and `v < end` (or `<=` when the end is included) |
| Intervals.ContainsUnbounded | src/interval.rs:48-74 | `since_exclusive(x)` contains exactly the `v > x`, `since_inclusive(x)` the `v >= x`, `until_exclusive(x)` the `v < x`, `until_inclusive(x)` the `v <= x`; none of these factories can fail |
| Intervals.OverlapsSymmetric | src/interval.rs:89-91 | `a.overlaps(b)` iff `b.overlaps(a)` |
| Intervals.SharedValueImpliesOverlap | src/interval.rs:84-91 | two intervals that both contain some value overlap |
| Intervals.ClosedOverlapIffSharedValue | src/interval.rs:41-44 | two validated closed intervals overlap iff some value lies in both |
| Intervals.OverlapsIffSharedPoint | src/interval.rs:89-91 | for intervals whose start is not above their end, they overlap iff some bound point lies within both |
| Intervals.DegenerateOpenIsEmpty | src/interval.rs:28-45 | `new(x, x, kind)` succeeds, and for every kind other than Close it contains no value |
| Intervals.ContainsCases | src/interval.rs:99-128 | every membership case in the table-driven test holds over the integers |
| Intervals.OverlapsCases | src/interval.rs:138-146 | every overlap case in the table-driven test holds over the integers; touching closed intervals `[0,3]` and `[3,4]` overlap |
| Intervals.EmptyIntervalCanOverlap | src/interval.rs:89-91 | `new(2, 2, Open)` contains no integer, yet it overlaps `new(1, 3, Close)` |

## Left out

- The `Debug`, `Clone`, `Copy` and `PartialEq` derives. Datatype values in Dafny are immutable and compare structurally, which is what the derived `Eq` gives.
- `T: Ord` is modelled as a three-way comparison passed as a parameter. The `Ord` laws are a precondition (`Orders.Lawful`) of the lemmas, not a trait bound.
- The tests use `i32`. The model uses unbounded integers. Every test value is small, so 32-bit overflow never arises.
- The `rstest` harness, the `.unwrap()` calls and the assertion messages. The test tables are modelled as `Intervals.ContainsCases` and `Intervals.OverlapsCases`.
- `BoundPoints.Before`, `BoundPoints.At`, `BoundPoints.After`, `BoundPoints.NegInfinity` and `BoundPoints.PosInfinity` carry no contract of their own. They are the definitions of `src/bound_point/bound_point.rs:19-47` (repeated at `src/bound_point.rs:79-107`). They are specified through `BoundPoints.BeforeAtAfterOrdered`, `BoundPoints.AfterBelowBefore`, `BoundPoints.InfinitiesBoundEveryPoint`, `BoundPoints.LowerEndpointMeaning` and `BoundPoints.UpperEndpointMeaning`.
- `BoundPoints.Cmp`, `BoundPoints.Lt`, `BoundPoints.Le`, `BoundPoints.Gt` and `BoundPoints.Ge` carry no contract of their own. They are the order derived at `src/bound_point/bound_point.rs:10`: the comparison of the wrapped value and its four operator readings. They are specified through `BoundPoints.CmpIsLawful`, `BoundPoints.LeIsTotalOrder`, `BoundPoints.GeIsFlippedLe` and `BoundPoints.LeTransitive`.
- `BoundValues.Cmp`, `BoundValues.Discriminant`, `BoundValues.FieldsCmp`, `BoundValues.Le` and `BoundValues.Lt` carry no contract of their own. They are the order derived at `src/bound_point/bound_value.rs:11` (repeated at `src/bound_point.rs:38`). They are specified through `BoundValues.NegInfinityIsLeast`, `BoundValues.PosInfinityIsGreatest`, `BoundValues.FiniteComparesValueFirst`, `BoundValues.FiniteTieUsesProximity`, `BoundValues.CmpIsLawful`, `BoundValues.LeIsTotalOrder` and `BoundValues.LeIsLexicographic`.
- `Proximity.Rank` carries no contract of its own. It is the declaration position that the order derived at `src/bound_point/bound_proximity.rs:9` compares. It is specified through `Proximity.Cmp`, `Proximity.BeforeBelowAtBelowAfter` and `Proximity.CmpIsLawful`.
- `Intervals.SinceExclusive`, `Intervals.SinceInclusive`, `Intervals.UntilExclusive` and `Intervals.UntilInclusive` carry no contract of their own. They are stated through `Intervals.ContainsUnbounded`. Like the source, they do no validation.
- `Intervals.Validate`, `Intervals.Contains` and `Intervals.Overlaps` carry no contract of their own either. Validation is stated by the first `ensures` of `Intervals.New`, and the two queries by the `Intervals` lemmas in the table.
- Overlap is a comparison of bound points, not of members. Over a discrete axis, two intervals can overlap while sharing no value, for example both `new(0, 1, Open)` over the integers. `Intervals.EmptyIntervalCanOverlap` shows one case. For closed intervals overlap and a shared value coincide (`Intervals.ClosedOverlapIffSharedValue`). The model keeps this behaviour of the code.
