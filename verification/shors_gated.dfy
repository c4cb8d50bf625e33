/**
 * `ShorsFactoring` of shors_noise_gated.py. The noise-qubit circuit only
 * produces a measured register value and a continued-fraction denominator;
 * both are parameters here. What remains is the return contract of
 * `quantum_period_finding` and the branching of `factor`.
 */
module ShorsGated {
  import opened Wrappers
  import opened Arith
  import opened NumberTheory
  import ShorsSimple

  /**
   * `quantum_period_finding`: None on a zero measurement, the denominator when
   * it passes `classical_power_mod(a, r, n) == 1`, otherwise the classical
   * search. `Fraction.limit_denominator` always yields a positive denominator.
   */
  function QuantumPeriodFinding(a: int, n: int, measured: int, denominator: int): (r: Option<int>)
    requires n > 0 && denominator >= 1
    ensures measured == 0 ==> r.None?
    ensures r.Some? ==> r.value >= 1 && PowMod(a, r.value, n) == 1
    ensures measured != 0 && PowMod(a, denominator, n) == 1 ==> r == Some(denominator)
    ensures measured != 0 && PowMod(a, denominator, n) != 1 ==> r == FindPeriod(a, n)
  {
    if measured == 0 then None
    else if PowMod(a, denominator, n) == 1 then Some(denominator)
    else FindPeriod(a, n)
  }

  /** `ShorsResult` without the elapsed time. */
  datatype ShorsResult = ShorsResult(
    nToFactor: int,
    aValue: int,
    measuredPeriod: Option<int>,
    factors: (Option<int>, Option<int>),
    success: bool,
    numQubits: int,
    iterations: nat)

  /**
   * `factor(n, num_qubits)` for the base a and the circuit's measured value
   * and denominator. An odd n needs a in [2, n - 1].
   */
  function Factor(n: int, numQubits: int, a: int, measured: int, denominator: int): (r: ShorsResult)
    requires n % 2 != 0 ==> 2 <= a < n
    requires denominator >= 1
    ensures r.nToFactor == n && r.numQubits == numQubits
    ensures n % 2 == 0 ==>
      r.factors == (Some(2), Some(n / 2)) && r.success && r.iterations == 0 && r.measuredPeriod.None? && r.aValue == 2
    ensures n % 2 != 0 ==> r.aValue == a
    ensures n % 2 != 0 && Gcd(a, n) > 1 ==>
      r.factors == (Some(Gcd(a, n)), Some(n / Gcd(a, n))) && r.success && r.iterations == 0
    ensures r.iterations == 0 <==> n % 2 == 0 || Gcd(a, n) > 1
    ensures r.success ==>
      r.factors.0.Some? && r.factors.1.Some? && r.factors.0.value * r.factors.1.value == n
    ensures !r.success ==> r.factors == (None, None) && r.iterations == 1
    ensures r.measuredPeriod.Some? ==>
      n % 2 != 0 && r.measuredPeriod.value >= 1 && PowMod(a, r.measuredPeriod.value, n) == 1
    ensures n % 2 != 0 && r.iterations == 1 ==>
      (r.success <==> r.measuredPeriod.Some? && ShorsSimple.PeriodSplits(a, n, r.measuredPeriod.value))
    ensures n % 2 != 0 && r.success ==>
      1 < r.factors.0.value < n && 1 < r.factors.1.value < n
  {
    if n % 2 == 0 then
      ShorsResult(n, 2, None, (Some(2), Some(n / 2)), true, numQubits, 0)
    else
      var g := Gcd(a, n);
      if g > 1 then
        ShorsSimple.GcdBelow(a, n);
        Cofactor(n, g);
        ShorsResult(n, a, None, (Some(g), Some(n / g)), true, numQubits, 0)
      else
        PeriodPath(n, numQubits, a, QuantumPeriodFinding(a, n, measured, denominator))
  }

  /** The branch of `factor` after the quantum period finding, for an odd n coprime to a. */
  function PeriodPath(n: int, numQubits: int, a: int, period: Option<int>): (r: ShorsResult)
    requires n >= 3
    requires period.Some? ==> period.value >= 1 && PowMod(a, period.value, n) == 1
    ensures r.nToFactor == n && r.numQubits == numQubits && r.aValue == a
    ensures r.iterations == 1 && r.measuredPeriod == period
    ensures r.success <==> period.Some? && ShorsSimple.PeriodSplits(a, n, period.value)
    ensures r.success ==>
      r.factors.0.Some? && r.factors.1.Some? && r.factors.0.value * r.factors.1.value == n
    ensures r.success ==> 1 < r.factors.0.value < n && 1 < r.factors.1.value < n
    ensures !r.success ==> r.factors == (None, None)
  {
    if period.None? || period.value % 2 != 0 then
      ShorsResult(n, a, period, (None, None), false, numQubits, 1)
    else
      var half := period.value / 2;
      var f1 := ShorsSimple.Candidate(a, n, half, -1);
      var f2 := ShorsSimple.Candidate(a, n, half, 1);
      if 1 < f1 < n then
        Cofactor(n, f1);
        ShorsResult(n, a, period, (Some(f1), Some(n / f1)), true, numQubits, 1)
      else if 1 < f2 < n then
        Cofactor(n, f2);
        ShorsResult(n, a, period, (Some(n / f2), Some(f2)), true, numQubits, 1)
      else
        ShorsResult(n, a, period, (None, None), false, numQubits, 1)
  }

  /** A proper divisor f of n has a proper cofactor n // f with f * (n // f) == n. */
  lemma Cofactor(n: int, f: int)
    requires 1 < f < n && Divides(f, n)
    ensures f * (n / f) == n && 1 < n / f < n
  {
    var q := n / f;
    assert n == f * q + n % f;
    QuotientPositive(f, q);
    assert q != 1;
    assert q < n by {
      MulLe(q, 2, f);
      assert f * q == q * f;
    }
  }
}
