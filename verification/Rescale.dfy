/** Moving an integer quantity from one decimal scale to another. */
module Rescale {

  const MINIMUM_SCALE_EXPONENT := -18
  const MAXIMUM_SCALE_EXPONENT := 18
  const MAXIMUM_SAFE_INTEGER := 9_007_199_254_740_991

  newtype int64 = x: int | -0x8000_0000_0000_0000 <= x < 0x8000_0000_0000_0000

  const SAFE64: int64 := 9_007_199_254_740_991

  datatype Rounding = RejectInexact | TowardNegativeInfinity | TowardPositiveInfinity

  datatype RecordRejection = SchemaInvalid | DescriptorMismatch | LimitExceeded

  datatype Result<+T> = Ok(value: T) | Refused(rejection: RecordRejection)

  function Pow10(n: nat): (p: nat)
    ensures p > 0
  {
    if n == 0 then 1 else 10 * Pow10(n - 1)
  }

  predicate IsScale(e: int) {
    MINIMUM_SCALE_EXPONENT <= e <= MAXIMUM_SCALE_EXPONENT
  }

  predicate IsSafe(n: int) {
    -MAXIMUM_SAFE_INTEGER <= n <= MAXIMUM_SAFE_INTEGER
  }

  function Floor(n: int, d: int): int
    requires d > 0
  {
    n / d
  }

  function Ceiling(n: int, d: int): int
    requires d > 0
  {
    -(-n / d)
  }

  /** One exact move: `value * 10^(from - to)`, rounded as declared when that is no integer. */
  function Moved(value: int, from: int, to: int, rounding: Rounding): Result<int> {
    if !IsScale(from) || !IsScale(to) || !IsSafe(value) then Refused(LimitExceeded)
    else if to <= from then
      var finer := value * Pow10(from - to);
      if IsSafe(finer) then Ok(finer) else Refused(LimitExceeded)
    else
      Coarser(value, Pow10(to - from), rounding)
  }

  function Coarser(value: int, divisor: int, rounding: Rounding): Result<int>
    requires divisor > 0
  {
    match rounding
    case RejectInexact => if value % divisor == 0 then Ok(value / divisor) else Refused(SchemaInvalid)
    case TowardNegativeInfinity => Ok(Floor(value, divisor))
    case TowardPositiveInfinity => Ok(Ceiling(value, divisor))
  }

  /** `/` and `%` by ten as the language of the tools has them: truncated toward zero. */
  function Quotient10(n: int64): int64
    requires n > -0x8000_0000_0000_0000
  {
    if n >= 0 then n / 10 else -(-n / 10)
  }

  function Remainder10(n: int64): int64
    requires n > -0x8000_0000_0000_0000
  {
    if n >= 0 then n % 10 else -(-n % 10)
  }

  lemma FloorByTen(n: int, d: int)
    requires d > 0
    ensures Floor(Floor(n, d), 10) == Floor(n, 10 * d)
  {
    var q, r := n / d, n % d;
    var q', r' := q / 10, q % 10;
    TenfoldParts(q', r', d);
    assert n == q * d + r && q == 10 * q' + r';
    QuotientIs(n, 10 * d, q', r' * d + r);
  }

  lemma TenfoldParts(q: int, r: int, d: int)
    requires d > 0 && 0 <= r < 10
    ensures (10 * q + r) * d == q * (10 * d) + r * d
    ensures 0 <= r * d <= 9 * d
  {
    NoNegativeProduct(r, d);
    NoNegativeProduct(9 - r, d);
    assert (9 - r) * d == 9 * d - r * d;
  }

  lemma NoNegativeProduct(k: int, d: int)
    requires k >= 0 && d > 0
    ensures k * d >= 0
  {}

  lemma QuotientIs(n: int, d: int, q: int, r: int)
    requires d > 0 && n == q * d + r && 0 <= r < d
    ensures n / d == q && n % d == r
  {
    var diff := n / d - q;
    assert diff * d == r - n % d;
    assert -d < diff * d < d;
    if diff >= 1 {
      MulAtLeast(diff, d);
    } else if diff <= -1 {
      MulAtLeast(-diff, d);
    }
  }

  lemma MulAtLeast(k: int, d: int)
    requires k >= 1 && d > 0
    ensures k * d >= d
  {
  }

  lemma CeilingByTen(n: int, d: int)
    requires d > 0
    ensures Ceiling(Ceiling(n, d), 10) == Ceiling(n, 10 * d)
  {
    FloorByTen(-n, d);
  }

  lemma DivisibleByTen(n: int, d: int)
    requires d > 0 && n % d == 0
    ensures n / d % 10 == 0 <==> n % (10 * d) == 0
    ensures n % (10 * d) == 0 ==> n / d / 10 == n / (10 * d)
  {
    var q := n / d;
    var q', r' := q / 10, q % 10;
    TenfoldParts(q', r', d);
    assert n == q * d && q == 10 * q' + r';
    QuotientIs(n, 10 * d, q', r' * d);
    if r' > 0 {
      MulAtLeast(r', d);
    }
  }

  lemma {:induction false} Pow10Add(a: nat, b: nat)
    ensures Pow10(a + b) == Pow10(a) * Pow10(b)
  {
    if a > 0 {
      Pow10Add(a - 1, b);
      assert Pow10(a + b) == 10 * Pow10(a - 1 + b);
      assert 10 * (Pow10(a - 1) * Pow10(b)) == 10 * Pow10(a - 1) * Pow10(b);
    }
  }

  /** What is not divisible by one power of ten is divisible by no higher one. */
  lemma IndivisibleStays(n: int, a: nat, b: nat)
    requires n % Pow10(a) != 0 && a <= b
    ensures n % Pow10(b) != 0
  {
    Pow10Add(a, b - a);
    if n % Pow10(b) == 0 {
      var k := n / Pow10(b);
      Regroup(k, Pow10(a), Pow10(b - a));
      QuotientIs(n, Pow10(a), k * Pow10(b - a), 0);
    }
  }

  lemma Regroup(k: int, x: int, y: int)
    ensures k * (x * y) == k * y * x
  {
  }

  lemma Reassociate(k: int, x: int, y: int)
    ensures k * (x * y) == k * x * y
  {
  }

  /** A value that left the range stays outside it under further multiplication. */
  lemma OutsideStaysOutside(value: int, a: nat, b: nat)
    requires !IsSafe(value * Pow10(a)) && a <= b
    ensures !IsSafe(value * Pow10(b))
  {
    Pow10Add(a, b - a);
    Reassociate(value, Pow10(a), Pow10(b - a));
    GrowsAway(value * Pow10(a), Pow10(b - a));
  }

  lemma GrowsAway(n: int, p: int)
    requires p >= 1
    ensures n > 0 ==> n * p >= n
    ensures n < 0 ==> n * p <= n
  {
  }

  lemma MultiplyStep(value: int, k: nat, result: int)
    requires result == value * Pow10(k)
    ensures result * 10 == value * Pow10(k + 1)
  {
    assert value * (10 * Pow10(k)) == 10 * (value * Pow10(k));
  }

  /** One division by ten, corrected toward the declared side. */
  function Corrected(n: int64, rounding: Rounding): int64
    requires IsSafe(n as int)
  {
    match rounding
    case RejectInexact => Quotient10(n)
    case TowardNegativeInfinity => if Remainder10(n) < 0 then Quotient10(n) - 1 else Quotient10(n)
    case TowardPositiveInfinity => if Remainder10(n) > 0 then Quotient10(n) + 1 else Quotient10(n)
  }

  lemma TruncatedDivision(n: int64)
    requires IsSafe(n as int)
    ensures Remainder10(n) == 0 <==> n as int % 10 == 0
    ensures Remainder10(n) == 0 ==> Quotient10(n) as int == n as int / 10
    ensures Corrected(n, TowardNegativeInfinity) as int == Floor(n as int, 10)
    ensures Corrected(n, TowardPositiveInfinity) as int == Ceiling(n as int, 10)
  {
  }

  /** Repeating the single-digit step is one division by the next power. */
  lemma DivideStep(value: int, d: int, rounding: Rounding, n: int64)
    requires d > 0 && IsSafe(n as int) && Coarser(value, d, rounding) == Ok(n as int)
    ensures rounding.RejectInexact? && Remainder10(n) != 0 ==> value % (10 * d) != 0
    ensures !(rounding.RejectInexact? && Remainder10(n) != 0) ==>
      Coarser(value, 10 * d, rounding) == Ok(Corrected(n, rounding) as int) && IsSafe(Corrected(n, rounding) as int)
  {
    TruncatedDivision(n);
    match rounding
    case RejectInexact => DivisibleByTen(value, d);
    case TowardNegativeInfinity => FloorByTen(value, d);
    case TowardPositiveInfinity => CeilingByTen(value, d);
  }

  /**
    The step-by-step move. `int64` arithmetic is checked, so no step of either loop wraps, and the
    loops' ranges show that no intermediate leaves the safe integers.
   */
  method RescaleExact(value: int64, from: int, to: int, rounding: Rounding) returns (r: Result<int64>)
    ensures r.Ok? ==> IsSafe(r.value as int)
    ensures Moved(value as int, from, to, rounding) == (match r case Ok(n) => Ok(n as int) case Refused(e) => Refused(e))
  {
    if !IsScale(from) || !IsScale(to) {
      return Refused(LimitExceeded);
    }
    if value > SAFE64 || value < -SAFE64 {
      return Refused(LimitExceeded);
    }
    var result := value;
    var step := to;
    while step < from
      invariant to <= step && (step <= from || step == to)
      invariant IsSafe(result as int) && result as int == value as int * Pow10(step - to)
    {
      MultiplyStep(value as int, step - to, result as int);
      if result > SAFE64 / 10 || result < -(SAFE64 / 10) {
        OutsideStaysOutside(value as int, step - to + 1, from - to);
        return Refused(LimitExceeded);
      }
      result := result * 10;
      step := step + 1;
    }
    if to <= from {
      return Ok(result);
    }
    assert result == value;
    step := from;
    while step < to
      invariant from <= step <= to && IsSafe(result as int)
      invariant Coarser(value as int, Pow10(step - from), rounding) == Ok(result as int)
    {
      DivideStep(value as int, Pow10(step - from), rounding, result);
      ghost var next := Corrected(result, rounding);
      var remainder := Remainder10(result);
      result := Quotient10(result);
      if remainder != 0 {
        match rounding {
          case RejectInexact =>
            IndivisibleStays(value as int, step + 1 - from, to - from);
            return Refused(SchemaInvalid);
          case TowardNegativeInfinity =>
            if remainder < 0 {
              result := result - 1;
            }
          case TowardPositiveInfinity =>
            if remainder > 0 {
              result := result + 1;
            }
        }
      }
      assert result == next;
      step := step + 1;
    }
    return Ok(result);
  }
}
