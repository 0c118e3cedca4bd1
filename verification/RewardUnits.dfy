/**
  The reward units of one proof of coverage (HIP-15): what the beaconer and each selected witness earn, as a function of
  the number of selected witnesses.
*/
module RewardUnits {
  import opened Rounding

  const WITNESS_REDUNDANCY := 4
  const DECAY_RATE := 0.8
  const UNIT_CAP := 2.0

  function Decay(exp: nat): (d: real)
    ensures 0.0 < d <= 1.0
  {
    if exp == 0 then 1.0 else DECAY_RATE * Decay(exp - 1)
  }

  function Capped(units: real): real {
    if units <= UNIT_CAP then units else UNIT_CAP
  }

  function BeaconerExact(n: nat): real {
    if n == 0 then 0.0
    else if n <= WITNESS_REDUNDANCY then n as real / WITNESS_REDUNDANCY as real
    else Capped(2.0 - Decay(n - WITNESS_REDUNDANCY))
  }

  function WitnessExact(n: nat): real {
    if n == 0 then 0.0
    else if n <= WITNESS_REDUNDANCY then 1.0
    else Capped((WITNESS_REDUNDANCY as real - (1.0 - Decay(n - WITNESS_REDUNDANCY))) / n as real)
  }

  function BeaconerUnit(n: nat): real {
    RoundDp(BeaconerExact(n), TEN_4)
  }

  function WitnessUnit(n: nat): real {
    RoundDp(WitnessExact(n), TEN_4)
  }

  lemma {:induction false} DecayShrinks(m: nat, n: nat)
    requires m <= n
    ensures Decay(n) <= Decay(m)
    decreases n
  {
    if m < n { DecayShrinks(m, n - 1); }
  }

  lemma QuotientBound(a: real, n: nat)
    requires 0.0 < a < 4.0 && 4 < n
    ensures 0.0 < a / n as real < 1.0 && n as real * (a / n as real) == a
  {
    var q := a / n as real;
    assert q * n as real == a;
  }

  /** Neither cap is ever reached. */
  lemma CapsAreIdle(n: nat)
    requires WITNESS_REDUNDANCY < n
    ensures BeaconerExact(n) == 2.0 - Decay(n - WITNESS_REDUNDANCY)
    ensures WitnessExact(n) == (3.0 + Decay(n - WITNESS_REDUNDANCY)) / n as real
    ensures n as real * WitnessExact(n) == 3.0 + Decay(n - WITNESS_REDUNDANCY) && WitnessExact(n) < 1.0
  {
    DecayShrinks(1, n - WITNESS_REDUNDANCY);
    assert Decay(1) == 0.8;
    QuotientBound(3.0 + Decay(n - WITNESS_REDUNDANCY), n);
  }

  function Redundant(n: nat): nat {
    if n <= WITNESS_REDUNDANCY then n else WITNESS_REDUNDANCY
  }

  /** The units of a beaconer and its `n` witnesses. */
  function Pays(n: nat, beaconerUnit: real, witnessUnit: real): real {
    beaconerUnit + n as real * witnessUnit
  }

  /** What a proof of coverage with `n` witnesses is due: 5/4 units per witness, up to the redundancy. */
  function Due(n: nat): real {
    5.0 * Redundant(n) as real / 4.0
  }

  /** Before rounding, one proof of coverage pays exactly what it is due. */
  lemma UnitsAreConserved(n: nat)
    ensures Pays(n, BeaconerExact(n), WitnessExact(n)) == Due(n)
  {
    if WITNESS_REDUNDANCY < n { CapsAreIdle(n); }
  }

  lemma TimesBound(n: nat, d: real, e: real)
    requires -e <= d <= e
    ensures 0.0 <= n as real * d + n as real * e && n as real * d <= n as real * e
  {}

  lemma DifferenceOfPays(n: nat, b': real, b: real, w': real, w: real, d: real)
    requires d == w' - w
    ensures Pays(n, b', w') - Pays(n, b, w) == (b' - b) + n as real * d
  {}

  /** Within (n + 1) / 20000 of what a proof of coverage with `n` witnesses is due. */
  predicate CloseToDue(n: nat, paid: real) {
    -((n + 1) as real / 20000.0) <= paid - Due(n) <= (n + 1) as real / 20000.0
  }

  lemma AddErrors(n: nat, paid: real, b: real, x: real)
    requires -0.00005 <= b <= 0.00005 && 0.0 <= x + n as real * 0.00005 && x <= n as real * 0.00005
    requires paid == Due(n) + b + x
    ensures CloseToDue(n, paid)
  {
    assert (n + 1) as real / 20000.0 == n as real * 0.00005 + 0.00005;
  }

  lemma SmallErrors(n: nat, b': real, b: real, w': real, w: real)
    requires -0.00005 <= b' - b <= 0.00005 && -0.00005 <= w' - w <= 0.00005 && Pays(n, b, w) == Due(n)
    ensures CloseToDue(n, Pays(n, b', w'))
  {
    var d := w' - w;
    TimesBound(n, d, 0.00005);
    DifferenceOfPays(n, b', b, w', w, d);
    AddErrors(n, Pays(n, b', w'), b' - b, n as real * d);
  }

  lemma RoundingError(x: real)
    ensures -0.00005 <= RoundDp(x, TEN_4) - x <= 0.00005
  {}

  /** What is paid after rounding is off by at most (n + 1) / 20000. */
  lemma RoundedUnitsAreConserved(n: nat)
    ensures CloseToDue(n, Pays(n, BeaconerUnit(n), WitnessUnit(n)))
  {
    UnitsAreConserved(n);
    RoundingError(BeaconerExact(n));
    RoundingError(WitnessExact(n));
    SmallErrors(n, BeaconerUnit(n), BeaconerExact(n), WitnessUnit(n), WitnessExact(n));
  }

  /** More witnesses never lower the beaconer's units, which stay below two. */
  lemma BeaconerUnitsGrow(m: nat, n: nat)
    requires m <= n
    ensures BeaconerExact(m) <= BeaconerExact(n) < 2.0 && BeaconerUnit(m) <= BeaconerUnit(n)
  {
    if WITNESS_REDUNDANCY < n {
      CapsAreIdle(n);
      DecayShrinks(1, n - WITNESS_REDUNDANCY);
      assert Decay(1) == 0.8;
      if WITNESS_REDUNDANCY < m {
        CapsAreIdle(m);
        DecayShrinks(m - WITNESS_REDUNDANCY, n - WITNESS_REDUNDANCY);
      }
    }
    RoundDpMonotone(BeaconerExact(m), BeaconerExact(n), TEN_4);
  }

  lemma QuotientShrinks(a: real, m: nat, b: real, n: nat)
    requires 0.0 < b <= a && 0 < m <= n
    ensures b / n as real <= a / m as real
  {
    var p, q := a / m as real, b / n as real;
    assert p * m as real == a && q * n as real == b;
    assert q > 0.0 ==> q * m as real <= q * n as real;
  }

  /** More witnesses never raise the units of a single witness, from one witness on. */
  lemma WitnessUnitsShrink(m: nat, n: nat)
    requires 1 <= m <= n
    ensures WitnessExact(n) <= WitnessExact(m) && WitnessUnit(n) <= WitnessUnit(m)
  {
    if WITNESS_REDUNDANCY < n {
      CapsAreIdle(n);
      if WITNESS_REDUNDANCY < m {
        CapsAreIdle(m);
        DecayShrinks(m - WITNESS_REDUNDANCY, n - WITNESS_REDUNDANCY);
        QuotientShrinks(3.0 + Decay(m - WITNESS_REDUNDANCY), m, 3.0 + Decay(n - WITNESS_REDUNDANCY), n);
      }
    }
    RoundDpMonotone(WitnessExact(n), WitnessExact(m), TEN_4);
  }
}
