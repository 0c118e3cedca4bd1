/**
  The roundings of decimal amounts that the verifier applies explicitly.
*/
module Rounding {
  const TEN_4: real := 10000.0
  const TEN_15: real := 1000000000000000.0

  /** The nearest integer, with ties to the even one. */
  function Nearest(x: real): (n: int)
    ensures -0.5 <= n as real - x <= 0.5
  {
    var f := x.Floor;
    var d := x - f as real;
    if d < 0.5 then f else if d > 0.5 then f + 1 else if f % 2 == 0 then f else f + 1
  }

  lemma NearestMonotone(x: real, y: real)
    requires x <= y
    ensures Nearest(x) <= Nearest(y)
  {
    if x.Floor == y.Floor {
      assert x - x.Floor as real <= y - y.Floor as real;
    } else {
      assert x.Floor + 1 <= y.Floor;
    }
  }

  /** An integer within one half, and even at exactly one half. */
  predicate IsNearest(n: int, x: real) {
    -0.5 <= n as real - x <= 0.5 && (n as real - x in {-0.5, 0.5} ==> n % 2 == 0)
  }

  lemma NearestIsUnique(x: real, n: int)
    ensures n == Nearest(x) <==> IsNearest(n, x)
  {
    var f := x.Floor;
    if IsNearest(n, x) { assert n == f || n == f + 1; }
  }

  lemma NearestOfWhole(n: int)
    ensures Nearest(n as real) == n
  {}

  /** Rounds to multiples of 1/unit, ties to even (`round_dp`). */
  function RoundDp(x: real, unit: real): (r: real)
    requires unit > 0.0
    ensures -0.5 / unit <= r - x <= 0.5 / unit
  {
    ScaledError(Nearest(x * unit), x, unit);
    Nearest(x * unit) as real / unit
  }

  /** Exactly the multiple of 1/unit whose factor is nearest, ties to even, is the result. */
  lemma RoundDpIsNearest(x: real, unit: real, n: int)
    requires unit > 0.0
    ensures RoundDp(x, unit) == n as real / unit <==> IsNearest(n, x * unit)
  {
    NearestIsUnique(x * unit, n);
    SameQuotient(n, Nearest(x * unit), unit);
  }

  lemma SameQuotient(n: int, m: int, unit: real)
    requires unit > 0.0
    ensures n as real / unit == m as real / unit <==> n == m
  {
    if n < m { StrictQuotient(n as real, m as real, unit); }
    if m < n { StrictQuotient(m as real, n as real, unit); }
  }

  lemma StrictQuotient(a: real, b: real, unit: real)
    requires a < b && unit > 0.0
    ensures a / unit < b / unit
  {}

  lemma ScaledError(n: int, x: real, unit: real)
    requires unit > 0.0 && -0.5 <= n as real - x * unit <= 0.5
    ensures -0.5 / unit <= n as real / unit - x <= 0.5 / unit
  {
    assert n as real / unit - x == (n as real - x * unit) / unit;
    DivideMonotone(-0.5, n as real - x * unit, unit);
    DivideMonotone(n as real - x * unit, 0.5, unit);
  }

  lemma DivideMonotone(a: real, b: real, unit: real)
    requires a <= b && unit > 0.0
    ensures a / unit <= b / unit
  {}

  lemma RoundDpMonotone(x: real, y: real, unit: real)
    requires x <= y && unit > 0.0
    ensures RoundDp(x, unit) <= RoundDp(y, unit)
  {
    assert x * unit <= y * unit;
    NearestMonotone(x * unit, y * unit);
    DivideMonotone(Nearest(x * unit) as real, Nearest(y * unit) as real, unit);
  }

  /** A whole number is not changed by rounding to a whole number of units. */
  lemma RoundDpOfWhole(n: int, unit: int)
    requires unit > 0
    ensures RoundDp(n as real, unit as real) == n as real
  {
    WholeProduct(n, unit);
    NearestOfWhole(n * unit);
    WholeQuotient(Nearest(n as real * unit as real), n, unit);
  }

  lemma WholeQuotient(m: int, n: int, unit: int)
    requires 0 < unit && m == n * unit
    ensures m as real / unit as real == n as real
  {
    WholeProduct(n, unit);
    CancelDivision(n as real, unit as real);
  }

  lemma WholeProduct(n: int, unit: int)
    ensures n as real * unit as real == (n * unit) as real
  {}

  lemma CancelDivision(a: real, b: real)
    requires 0.0 < b
    ensures a * b / b == a
  {}

  function Ceil(x: real): (n: int)
    ensures x <= n as real < x + 1.0
  {
    -(-x).Floor
  }

  /** Rounds up to multiples of 1/unit (`RoundingStrategy::ToPositiveInfinity`). */
  function CeilDp(x: real, unit: real): (r: real)
    requires unit > 0.0
    ensures x <= r < x + 1.0 / unit
  {
    CeilError(Ceil(x * unit), x, unit);
    Ceil(x * unit) as real / unit
  }

  lemma CeilError(n: int, x: real, unit: real)
    requires unit > 0.0 && x * unit <= n as real < x * unit + 1.0
    ensures x <= n as real / unit < x + 1.0 / unit
  {
    assert n as real / unit - x == (n as real - x * unit) / unit;
  }

  /** Exactly the least multiple of 1/unit that is not below is the result. */
  lemma CeilDpIsLeast(x: real, unit: real, n: int)
    requires unit > 0.0
    ensures CeilDp(x, unit) == n as real / unit <==> x * unit <= n as real && (n - 1) as real < x * unit
  {
    SameQuotient(n, Ceil(x * unit), unit);
  }
}
