/**
 * `shors_factor` of shors_demo_simple.py with the random base `a` passed in
 * and the elapsed time left out: a quick even check, a lucky gcd, then the
 * classical period and the two gcd candidates around a^(r/2).
 */
module ShorsSimple {
  import opened Wrappers
  import opened NumberTheory

  /** (factor1, factor2, success); None stands for Python's None. */
  datatype Outcome = Outcome(factor1: Option<int>, factor2: Option<int>, success: bool)

  const Failure := Outcome(None, None, false)

  /** gcd(a^(r/2) mod n + delta, n): the candidate factor for delta = -1 or +1. */
  function Candidate(a: int, n: int, half: nat, delta: int): (g: int)
    requires n > 0
    ensures Divides(g, n)
  {
    Gcd(PowMod(a, half, n) + delta, n)
  }

  /** The base a, of period p modulo n, splits n through one of the two candidates. */
  predicate PeriodSplits(a: int, n: int, p: int)
    requires n > 0 && p >= 0
  {
    p % 2 == 0 &&
    (1 < Candidate(a, n, p / 2, -1) < n || 1 < Candidate(a, n, p / 2, 1) < n)
  }

  /** The factor pair (f, n // f) when f is a proper divisor. */
  function Split(n: int, f: int): (r: Outcome)
    requires Divides(f, n)
    ensures r.success && r.factor1 == Some(f) && r.factor2.Some?
    ensures r.factor1.value * r.factor2.value == n
  {
    assert n == f * (n / f) + n % f;
    Outcome(Some(f), Some(n / f), true)
  }

  /**
   * `shors_factor(n)` for the base a. An odd n needs a in [2, n - 1], as
   * `random.randint(2, n - 1)` does; an even n never draws it.
   */
  function ShorsFactor(n: int, a: int): (r: Outcome)
    requires n % 2 != 0 ==> 2 <= a < n
    ensures n % 2 == 0 ==> r == Outcome(Some(2), Some(n / 2), true)
    ensures r.success ==> r.factor1.Some? && r.factor2.Some? && r.factor1.value * r.factor2.value == n
    ensures !r.success ==> r == Failure
    ensures n % 2 != 0 && r.success ==> 1 < r.factor1.value < n && Divides(r.factor1.value, n)
    ensures n % 2 != 0 && Gcd(a, n) > 1 ==> r.success && r.factor1 == Some(Gcd(a, n))
    ensures n % 2 != 0 && Gcd(a, n) <= 1 ==>
      (r.success <==> FindPeriod(a, n).Some? && PeriodSplits(a, n, FindPeriod(a, n).value))
  {
    if n % 2 == 0 then Outcome(Some(2), Some(n / 2), true)
    else
      var g := Gcd(a, n);
      if g > 1 then
        GcdBelow(a, n);
        Split(n, g)
      else
        var period := FindPeriod(a, n);
        if period.None? || period.value % 2 != 0 then Failure
        else
          var half := period.value / 2;
          var f1 := Candidate(a, n, half, -1);
          var f2 := Candidate(a, n, half, 1);
          if 1 < f1 < n then Split(n, f1)
          else if 1 < f2 < n then Split(n, f2)
          else Failure
  }

  /** A common divisor of n and a base a in [2, n - 1] is smaller than n. */
  lemma GcdBelow(a: int, n: int)
    requires 2 <= a < n
    ensures Gcd(a, n) < n
  {
    var g := Gcd(a, n);
    MultipleAtLeast(g, a);
  }

  /**
   * On the period path the first candidate gcd(a^(r/2) - 1, n) is never n:
   * r is the least period, so a^(r/2) is not 1 modulo n. The path fails
   * only when that candidate is 1 and the second is 1 or n.
   */
  lemma FirstCandidateBelow(a: int, n: int)
    requires n >= 2
    requires FindPeriod(a, n).Some? && FindPeriod(a, n).value % 2 == 0
    ensures Candidate(a, n, FindPeriod(a, n).value / 2, -1) < n
  {
    var p := FindPeriod(a, n).value;
    var half := p / 2;
    assert 1 <= half < p;
    var x := PowMod(a, half, n);
    assert x != 1;
    assert 0 <= x < n;
    var g := Candidate(a, n, half, -1);
    MultipleAtLeast(g, n);
    NonzeroNotMultiple(x - 1, n);
  }

  lemma NonzeroNotMultiple(v: int, n: int)
    requires n > 0 && -n < v < n && v != 0
    ensures v % n != 0
  {
  }
}
