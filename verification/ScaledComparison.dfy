/** Comparing an observation with a bound recorded at another scale. */
module ScaledComparison {
  import opened Rescale

  datatype Direction = BoundToObservation | ObservationToBound

  datatype Comparison = AtMost | AtLeast

  /** `value * 10^exponent`. */
  datatype Quantity = Quantity(value: int, exponent: int)

  // Both sides at one scale.
  datatype Compared = Compared(observed: int, bound: int, exponent: int)

  function Map(moved: Result<int>, make: int -> Compared): Result<Compared> {
    match moved
    case Ok(n) => Ok(make(n))
    case Refused(e) => Refused(e)
  }

  /** The side the metric names moves to the scale of the other. */
  function CompareAt(direction: Direction, rounding: Rounding, bound: Quantity, observation: Quantity): Result<Compared> {
    match direction
    case BoundToObservation =>
      Map(Moved(bound.value, bound.exponent, observation.exponent, rounding),
          n => Compared(observation.value, n, observation.exponent))
    case ObservationToBound =>
      Map(Moved(observation.value, observation.exponent, bound.exponent, rounding),
          n => Compared(n, bound.value, bound.exponent))
  }

  predicate Satisfies(comparison: Comparison, observed: int, bound: int) {
    if comparison == AtMost then observed <= bound else observed >= bound
  }

  /** The comparison of the two quantities themselves, at a scale fine enough for both. */
  predicate TrulySatisfies(comparison: Comparison, observation: Quantity, bound: Quantity)
    requires IsScale(observation.exponent) && IsScale(bound.exponent)
  {
    Satisfies(comparison, observation.value * Pow10(observation.exponent + 18), bound.value * Pow10(bound.exponent + 18))
  }

  /** Rounding the moved side in this direction cannot turn a failure into a pass. */
  predicate Conservative(direction: Direction, rounding: Rounding, comparison: Comparison) {
    match rounding
    case RejectInexact => true
    case TowardNegativeInfinity => (comparison == AtMost) == (direction == BoundToObservation)
    case TowardPositiveInfinity => (comparison == AtMost) == (direction == ObservationToBound)
  }

  /**
    Rounding carries the moved side across a gap of less than one unit of the coarser scale onto the
    other side, which it does not equal.
   */
  predicate RoundsOnto(rounding: Rounding, moving: Quantity, other: Quantity) {
    moving.exponent < other.exponent &&
    var d := Pow10(other.exponent - moving.exponent);
    match rounding
    case RejectInexact => false
    case TowardPositiveInfinity => moving.value < other.value * d < moving.value + d
    case TowardNegativeInfinity => moving.value - d < other.value * d < moving.value
  }

  function Moving(direction: Direction, bound: Quantity, observation: Quantity): Quantity {
    if direction == BoundToObservation then bound else observation
  }

  function Standing(direction: Direction, bound: Quantity, observation: Quantity): Quantity {
    if direction == BoundToObservation then observation else bound
  }

  /** Scaling both sides by a positive factor keeps every comparison. */
  lemma ScalingKeepsOrder(a: int, b: int, k: int)
    requires k > 0
    ensures a * k <= b * k <==> a <= b
    ensures a * k == b * k <==> a == b
  {
    if a < b {
      assert (b - a) * k > 0;
    } else if a > b {
      assert (a - b) * k > 0;
    }
  }

  /** Where a rounded quotient stands to the exact one. */
  lemma CoarserBrackets(value: int, d: int, rounding: Rounding, r: int)
    requires d > 0 && Coarser(value, d, rounding) == Ok(r)
    ensures rounding == RejectInexact ==> r * d == value
    ensures rounding == TowardNegativeInfinity ==> r * d <= value < r * d + d
    ensures rounding == TowardPositiveInfinity ==> r * d - d < value <= r * d
    ensures r * d == value <==> value % d == 0
  {
    if value % d != 0 && r * d == value {
      QuotientIs(value, d, r, 0);
    }
    if rounding == TowardPositiveInfinity && value % d == 0 {
      var q := value / d;
      assert -value == (-q) * d;
      QuotientIs(-value, d, -q, 0);
    }
  }

  function Scaled(n: int, k: nat): int {
    n * Pow10(k)
  }

  ghost predicate IsMultiple(value: int, k: nat) {
    exists n: int :: Scaled(n, k) == value
  }

  /**
    A move gives the quantity itself at the finer scale, its quotient rounded as declared at the
    coarser one, or the reason there is none: out of range, or inexact where that is not allowed.
   */
  lemma MovedExactly(value: int, from: int, to: int, rounding: Rounding)
    ensures match Moved(value, from, to, rounding) {
      case Ok(n) =>
        && -18 <= from <= 18 && -18 <= to <= 18 && IsSafe(value)
        && if to <= from then n == value * Pow10(from - to) && IsSafe(n)
           else
             var d := Pow10(to - from);
             match rounding {
               case RejectInexact => n * d == value
               case TowardNegativeInfinity => n * d <= value < n * d + d
               case TowardPositiveInfinity => n * d - d < value <= n * d
             }
      case Refused(why) =>
        if IsScale(from) && IsScale(to) && IsSafe(value) && from < to then
          why == SchemaInvalid && rounding == RejectInexact && !IsMultiple(value, to - from)
        else
          && why == LimitExceeded
          && (IsScale(from) && IsScale(to) && IsSafe(value) ==> !IsSafe(value * Pow10(from - to)))
    }
  {
    if IsScale(from) && IsScale(to) && IsSafe(value) && from < to {
      var d := Pow10(to - from);
      var r := Coarser(value, d, rounding);
      if r.Ok? {
        CoarserBrackets(value, d, rounding, r.value);
      } else {
        if IsMultiple(value, to - from) {
          var n: int :| Scaled(n, to - from) == value;
          QuotientIs(value, d, n, 0);
        }
      }
    }
  }

  /** An integer compares with the rounded quotient as with the exact one, but for one case. */
  lemma RoundedComparison(other: int, value: int, d: int, rounding: Rounding, r: int)
    requires d > 0 && Coarser(value, d, rounding) == Ok(r)
    ensures rounding != TowardPositiveInfinity ==> (other <= r <==> other * d <= value)
    ensures rounding != TowardNegativeInfinity ==> (other >= r <==> other * d >= value)
    ensures value % d == 0 || other != r ==>
      (other <= r <==> other * d <= value) && (other >= r <==> other * d >= value)
    ensures value % d != 0 && other == r && rounding == TowardPositiveInfinity ==> other * d > value
    ensures value % d != 0 && other == r && rounding == TowardNegativeInfinity ==> other * d < value
  {
    CoarserBrackets(value, d, rounding, r);
    ProductsKeepDistance(other, r, d);
  }

  /** The one case is a condition on the inputs. */
  lemma RoundedOnto(other: int, value: int, d: int, rounding: Rounding, r: int)
    requires d > 0 && Coarser(value, d, rounding) == Ok(r)
    ensures rounding == RejectInexact ==> value % d == 0
    ensures rounding == TowardPositiveInfinity ==> (value % d != 0 && other == r <==> value < other * d < value + d)
    ensures rounding == TowardNegativeInfinity ==> (value % d != 0 && other == r <==> value - d < other * d < value)
  {
    CoarserBrackets(value, d, rounding, r);
    ProductsKeepDistance(other, r, d);
  }

  lemma ProductsKeepDistance(a: int, b: int, d: int)
    requires d > 0
    ensures a < b ==> a * d <= b * d - d
    ensures a > b ==> a * d >= b * d + d
  {
    if a < b {
      ProductBeyond(a, b - a - 1, d);
    } else if a > b {
      ProductBeyond(b, a - b - 1, d);
    }
  }

  lemma ProductBeyond(a: int, k: int, d: int)
    requires k >= 0 && d > 0
    ensures (a + 1 + k) * d >= a * d + d
  {
    assert k * d >= 0;
    assert (a + 1 + k) * d == a * d + d + k * d;
  }

  /** A move to a finer scale multiplies, and both sides keep their quantity. */
  lemma FinerKeepsQuantity(value: int, from: int, to: int)
    requires IsScale(from) && IsScale(to) && to <= from
    ensures value * Pow10(from - to) * Pow10(to + 18) == value * Pow10(from + 18)
  {
    Pow10Add(from - to, to + 18);
    Reassociate(value, Pow10(from - to), Pow10(to + 18));
  }

  lemma CoarserScale(other: int, from: int, to: int)
    requires IsScale(from) && IsScale(to) && from <= to
    ensures other * Pow10(to + 18) == other * Pow10(to - from) * Pow10(from + 18)
  {
    Pow10Add(to - from, from + 18);
    Reassociate(other, Pow10(to - from), Pow10(from + 18));
  }

  /** The moved side against the other, at one integer scale and as the quantities they stand for. */
  lemma MovedComparison(moving: Quantity, other: Quantity, rounding: Rounding, r: int)
    requires IsScale(moving.exponent) && IsScale(other.exponent)
    requires Moved(moving.value, moving.exponent, other.exponent, rounding) == Ok(r)
    ensures var m, o := moving.value * Pow10(moving.exponent + 18), other.value * Pow10(other.exponent + 18);
      if RoundsOnto(rounding, moving, other) then
        other.value == r && if rounding == TowardPositiveInfinity then o > m else o < m
      else
        (other.value <= r <==> o <= m) && (other.value >= r <==> o >= m)
  {
    var k := Pow10(moving.exponent + 18);
    if other.exponent <= moving.exponent {
      FinerKeepsQuantity(moving.value, moving.exponent, other.exponent);
      ScalingKeepsOrder(other.value, r, Pow10(other.exponent + 18));
      ScalingKeepsOrder(r, other.value, Pow10(other.exponent + 18));
    } else {
      var d := Pow10(other.exponent - moving.exponent);
      CoarserScale(other.value, moving.exponent, other.exponent);
      RoundedComparison(other.value, moving.value, d, rounding, r);
      RoundedOnto(other.value, moving.value, d, rounding, r);
      ScalingKeepsOrder(other.value * d, moving.value, k);
      ScalingKeepsOrder(moving.value, other.value * d, k);
    }
  }

  /** The side that stands is compared as it is, at its own scale; the other is the exact move to that scale. */
  lemma OneSideStands(direction: Direction, rounding: Rounding, bound: Quantity, observation: Quantity, c: Compared)
    requires CompareAt(direction, rounding, bound, observation) == Ok(c)
    ensures direction == BoundToObservation ==>
      && c.observed == observation.value && c.exponent == observation.exponent
      && Moved(bound.value, bound.exponent, observation.exponent, rounding) == Ok(c.bound)
    ensures direction == ObservationToBound ==>
      && c.bound == bound.value && c.exponent == bound.exponent
      && Moved(observation.value, observation.exponent, bound.exponent, rounding) == Ok(c.observed)
  {
  }

  /** Two quantities cannot be compared exactly when the side that moves cannot be moved, and for that reason. */
  lemma RefusedWithTheMove(direction: Direction, rounding: Rounding, bound: Quantity, observation: Quantity, why: RecordRejection)
    ensures CompareAt(direction, rounding, bound, observation) == Refused(why) <==>
      match direction {
        case BoundToObservation => Moved(bound.value, bound.exponent, observation.exponent, rounding) == Refused(why)
        case ObservationToBound => Moved(observation.value, observation.exponent, bound.exponent, rounding) == Refused(why)
      }
  {
  }

  /**
    Exactly when the verdict is the true comparison of the two quantities: the rounding is on the
    conservative side, or it does not carry the moved side onto the other. In the one remaining
    case the verdict is a pass and the truth is a failure.
   */
  lemma VerdictIsTrueComparison(
    direction: Direction, rounding: Rounding, comparison: Comparison, bound: Quantity, observation: Quantity, c: Compared)
    requires IsScale(bound.exponent) && IsScale(observation.exponent)
    requires CompareAt(direction, rounding, bound, observation) == Ok(c)
    ensures var verdict := Satisfies(comparison, c.observed, c.bound);
      var truth := TrulySatisfies(comparison, observation, bound);
      && (verdict == truth
          <==> || Conservative(direction, rounding, comparison)
               || !RoundsOnto(rounding, Moving(direction, bound, observation), Standing(direction, bound, observation)))
      && (truth ==> verdict)
  {
    if direction == BoundToObservation {
      MovedComparison(bound, observation, rounding, c.bound);
    } else {
      MovedComparison(observation, bound, rounding, c.observed);
    }
  }

  /** A conservative rule decides every comparison it does not refuse. */
  lemma ConservativeRulesNeverErr(
    direction: Direction, rounding: Rounding, comparison: Comparison, bound: Quantity, observation: Quantity, c: Compared)
    requires IsScale(bound.exponent) && IsScale(observation.exponent)
    requires Conservative(direction, rounding, comparison)
    requires CompareAt(direction, rounding, bound, observation) == Ok(c)
    ensures Satisfies(comparison, c.observed, c.bound) == TrulySatisfies(comparison, observation, bound)
  {
    VerdictIsTrueComparison(direction, rounding, comparison, bound, observation, c);
  }

  /** Under the other rules a breach can pass: 1 at scale 1 against a bound of 9 at scale 0, rounded up. */
  lemma RoundingUpABoundPassesABreach()
    ensures var bound, observation := Quantity(9, 0), Quantity(1, 1);
      && CompareAt(BoundToObservation, TowardPositiveInfinity, bound, observation) == Ok(Compared(1, 1, 1))
      && Satisfies(AtMost, 1, 1) && !TrulySatisfies(AtMost, observation, bound)
  {
    assert Pow10(1) == 10;
    assert Moved(9, 0, 1, TowardPositiveInfinity) == Ok(1);
    assert Pow10(19) == 10 * Pow10(18);
  }
}
