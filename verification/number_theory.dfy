/**
 * The classical number theory under both Shor demonstrations: Euclid's
 * algorithm, square-and-multiply modular exponentiation and the least-period
 * search. `shors_demo_simple.py` and the `ShorsFactoring` class of
 * `shors_noise_gated.py` carry identical copies of these three routines.
 */
module NumberTheory {
  import opened Wrappers
  import opened Arith

  /** d is a positive divisor of x. */
  predicate Divides(d: int, x: int)
  {
    d > 0 && x % d == 0
  }

  /** A positive divisor of both x and y divides every integer combination of them. */
  lemma DividesLinear(d: int, x: int, y: int, p: int, q: int)
    requires Divides(d, x) && Divides(d, y)
    ensures Divides(d, p * x + q * y)
  {
    var i := x / d;
    var j := y / d;
    assert x == d * i;
    assert y == d * j;
    assert p * x == d * (p * i);
    assert q * y == d * (q * j);
    assert p * x + q * y == d * (p * i + q * j);
    ModOfMultiple(d, p * i + q * j);
  }

  /** One step of Euclid's algorithm keeps the set of common divisors. */
  lemma GcdStep(a: int, b: int, r: int)
    requires b > 0
    requires Divides(r, b) && Divides(r, a % b)
    requires forall d :: Divides(d, b) && Divides(d, a % b) ==> Divides(d, r)
    ensures Divides(r, a)
    ensures forall d :: Divides(d, a) && Divides(d, b) ==> Divides(d, r)
  {
    assert a == (a / b) * b + 1 * (a % b);
    DividesLinear(r, b, a % b, a / b, 1);
    forall d | Divides(d, a) && Divides(d, b)
      ensures Divides(d, r)
    {
      assert a % b == 1 * a + (-(a / b)) * b;
      DividesLinear(d, a, b, 1, -(a / b));
    }
  }

  /**
   * `classical_gcd`: `while b: a, b = b, a % b`. The second argument is the
   * modulus of every caller and is never negative; Python's `%` agrees with
   * Dafny's for a positive divisor.
   */
  function Gcd(a: int, b: nat): (r: int)
    ensures b == 0 ==> r == a
    ensures b > 0 ==> Divides(r, a) && Divides(r, b)
    ensures forall d :: Divides(d, a) && Divides(d, b) ==> Divides(d, r)
    decreases b
  {
    if b == 0 then a
    else
      var r := Gcd(b, a % b);
      GcdStep(a, b, r);
      r
  }

  /** With b > 0, the result is the greatest common divisor of a and b. */
  lemma GcdGreatest(a: int, b: nat, d: int)
    requires b > 0
    requires Divides(d, a) && Divides(d, b)
    ensures d <= Gcd(a, b)
  {
    var r := Gcd(a, b);
    assert Divides(d, r);
    assert r > 0;
    MultipleAtLeast(d, r);
  }

  lemma MultipleAtLeast(d: int, r: int)
    requires Divides(d, r) && r > 0
    ensures d <= r
  {
    var q := r / d;
    assert r == d * q + r % d;
    QuotientPositive(d, q);
    MulMono(d, q);
  }

  lemma QuotientPositive(d: int, q: int)
    requires d > 0 && d * q > 0
    ensures q >= 1
  {
    if q <= 0 {
      MulLe(d, q, 0);
    }
  }

  /** The square-and-multiply loop: result, base, exponent. */
  function PowModLoop(result: int, b: int, e: nat, m: int): int
    requires m > 0
    decreases e
  {
    if e == 0 then result
    else PowModLoop(if e % 2 == 1 then (result * b) % m else result, (b * b) % m, e / 2, m)
  }

  /**
   * `classical_power_mod`. For a positive exponent the result is base^exp
   * reduced modulo mod; for exponent 0 it is 1 unreduced, so mod = 1 gives 1.
   */
  function PowMod(base: int, exp: nat, mod: int): (r: int)
    requires mod > 0
    ensures exp == 0 ==> r == 1
    ensures exp > 0 ==> r == Pow(base, exp) % mod
    ensures 0 <= r < mod || r == 1
  {
    PowModReduces(base, exp, mod);
    PowModLoop(1, base % mod, exp, mod)
  }

  lemma PowModReduces(base: int, exp: nat, mod: int)
    requires mod > 0
    ensures exp > 0 ==> PowModLoop(1, base % mod, exp, mod) == Pow(base, exp) % mod
  {
    if exp > 0 {
      PowModLoopCorrect(1, base % mod, exp, mod);
      PowModBase(base, exp, mod);
    }
  }

  lemma MulModRight(x: int, y: int, m: int)
    requires m > 0
    ensures (x * y) % m == (x * (y % m)) % m
  {
    MulModLeft(y, x, m);
    assert x * y == y * x;
    assert x * (y % m) == (y % m) * x;
  }

  /** Reducing the base first does not change a power modulo m. */
  lemma {:induction false} PowModBase(b: int, e: nat, m: int)
    requires m > 0
    ensures Pow(b % m, e) % m == Pow(b, e) % m
  {
    if e > 0 {
      PowModBase(b, e - 1, m);
      var c := b % m;
      var pc := Pow(c, e - 1);
      var pb := Pow(b, e - 1);
      assert Pow(c, e) == c * pc;
      assert Pow(b, e) == b * pb;
      MulModLeft(b, pb, m);
      MulModRight(c, pc, m);
      MulModRight(c, pb, m);
    }
  }

  /** The loop invariant of square-and-multiply: result * base^exp is kept modulo m. */
  lemma {:induction false} PowModLoopCorrect(r: int, b: int, e: nat, m: int)
    requires m > 0 && e > 0
    ensures PowModLoop(r, b, e, m) == (r * Pow(b, e)) % m
    decreases e
  {
    var r1 := if e % 2 == 1 then (r * b) % m else r;
    var b1 := (b * b) % m;
    var e1 := e / 2;
    if e1 == 0 {
      assert e == 1;
      assert Pow(b, 1) == b * Pow(b, 0);
    } else {
      PowModLoopCorrect(r1, b1, e1, m);
      var p := Pow(b, 2 * e1);
      assert Pow(b1, e1) % m == p % m by {
        PowModBase(b * b, e1, m);
        PowSquare(b, e1);
      }
      MulModRight(r1, Pow(b1, e1), m);
      MulModRight(r1, p, m);
      assert PowModLoop(r, b, e, m) == (r1 * p) % m;
      if e % 2 == 1 {
        assert e == 2 * e1 + 1;
        assert Pow(b, e) == b * p;
        MulModLeft(r * b, p, m);
        assert (r * b) * p == r * (b * p);
      } else {
        assert e == 2 * e1;
      }
    }
  }

  /** The least r in [from, n) with a^r mod n == 1, scanning upwards. */
  function PeriodFrom(a: int, n: int, from: int): (p: Option<int>)
    requires from >= 1
    ensures p.Some? ==> from <= p.value < n && PowMod(a, p.value, n) == 1
    ensures p.Some? ==> forall s :: from <= s < p.value ==> PowMod(a, s, n) != 1
    ensures p.None? ==> forall s :: from <= s < n ==> PowMod(a, s, n) != 1
    decreases n - from
  {
    if from >= n then None
    else if PowMod(a, from, n) == 1 then Some(from)
    else PeriodFrom(a, n, from + 1)
  }

  /** `find_period`: the least r in [1, n) with a^r mod n == 1, or None. */
  function FindPeriod(a: int, n: int): (p: Option<int>)
  {
    PeriodFrom(a, n, 1)
  }

  /** The period found is the multiplicative order of a modulo n, and None means no r < n works. */
  lemma PeriodIsOrder(a: int, n: int)
    ensures FindPeriod(a, n).Some? ==>
      1 <= FindPeriod(a, n).value < n && Pow(a, FindPeriod(a, n).value) % n == 1
    ensures FindPeriod(a, n).Some? ==>
      forall s :: 1 <= s < FindPeriod(a, n).value ==> Pow(a, s) % n != 1
    ensures FindPeriod(a, n).None? ==> forall s :: 1 <= s < n ==> Pow(a, s) % n != 1
  {
    var p := FindPeriod(a, n);
    if p.Some? {
      assert PowMod(a, p.value, n) == 1;
      forall s | 1 <= s < p.value
        ensures Pow(a, s) % n != 1
      {
        assert PowMod(a, s, n) != 1;
      }
    } else {
      forall s | 1 <= s < n
        ensures Pow(a, s) % n != 1
      {
        assert PowMod(a, s, n) != 1;
      }
    }
  }
}
