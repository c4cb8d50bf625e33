/** Integer facts used by the number-theoretic and byte-packing parts of the model. */
module Arith {

  /** b raised to the natural power e. */
  function Pow(b: int, e: nat): (r: int)
    ensures b > 0 ==> r > 0
  {
    if e == 0 then 1 else b * Pow(b, e - 1)
  }

  lemma MulPositive(a: int, b: int)
    requires a > 0 && b > 0
    ensures a * b > 0
  {
  }

  lemma {:induction false} PowAdd(b: int, e1: nat, e2: nat)
    ensures Pow(b, e1 + e2) == Pow(b, e1) * Pow(b, e2)
  {
    if e1 > 0 {
      PowAdd(b, e1 - 1, e2);
      calc {
        Pow(b, e1 + e2);
        b * Pow(b, e1 - 1 + e2);
        b * (Pow(b, e1 - 1) * Pow(b, e2));
        (b * Pow(b, e1 - 1)) * Pow(b, e2);
      }
    }
  }

  lemma {:induction false} PowMul(a: int, b: int, k: nat)
    ensures Pow(a * b, k) == Pow(a, k) * Pow(b, k)
  {
    if k > 0 {
      PowMul(a, b, k - 1);
      var x := Pow(a, k - 1);
      var y := Pow(b, k - 1);
      assert Pow(a * b, k) == (a * b) * (x * y);
      Interchange(a, b, x, y);
    }
  }

  lemma Interchange(a: int, b: int, x: int, y: int)
    ensures (a * b) * (x * y) == (a * x) * (b * y)
  {
    calc {
      (a * b) * (x * y);
      a * (b * (x * y));
      a * ((b * x) * y);
      a * ((x * b) * y);
      a * (x * (b * y));
      (a * x) * (b * y);
    }
  }

  /** Squaring the base halves the exponent: the step square-and-multiply relies on. */
  lemma PowSquare(b: int, k: nat)
    ensures Pow(b * b, k) == Pow(b, 2 * k)
  {
    PowMul(b, b, k);
    PowAdd(b, k, k);
  }

  /** Dafny's `%` on a positive modulus agrees with Python's floor modulo. */
  lemma ModOfMultiple(m: int, q: int)
    requires m > 0
    ensures (m * q) % m == 0
    ensures (m * q) / m == q
  {
    var r := (m * q) % m;
    var d := (m * q) / m;
    assert m * q == m * d + r;
    assert m * (q - d) == r;
    if q - d >= 1 {
      MulMono(m, q - d);
    } else if q - d <= -1 {
      MulMono(m, d - q);
    }
  }

  lemma MulMono(m: int, k: int)
    requires m > 0 && k >= 1
    ensures m * k >= m
  {
  }

  lemma ModAddMultiple(m: int, q: int, x: int)
    requires m > 0
    ensures (m * q + x) % m == x % m
  {
    var r := x % m;
    var d := x / m;
    assert x == m * d + r;
    assert m * q + x == m * (q + d) + r;
    var r2 := (m * q + x) % m;
    var d2 := (m * q + x) / m;
    assert m * (q + d - d2) == r2 - r;
    if q + d - d2 >= 1 {
      MulMono(m, q + d - d2);
    } else if q + d - d2 <= -1 {
      MulMono(m, d2 - q - d);
    }
  }

  /** Reducing a factor modulo m before multiplying does not change the product modulo m. */
  lemma MulModLeft(a: int, b: int, m: int)
    requires m > 0
    ensures (a * b) % m == ((a % m) * b) % m
  {
    var q := a / m;
    var r := a % m;
    assert a == m * q + r;
    assert a * b == m * (q * b) + r * b;
    ModAddMultiple(m, q * b, r * b);
  }

  lemma MulMod(a: int, b: int, m: int)
    requires m > 0
    ensures (a * b) % m == ((a % m) * (b % m)) % m
  {
    MulModLeft(a, b, m);
    MulModLeft(b, a % m, m);
  }

  lemma AddMod(a: int, b: int, m: int)
    requires m > 0
    ensures (a + b) % m == ((a % m) + b) % m
  {
    var q := a / m;
    assert a == m * q + a % m;
    ModAddMultiple(m, q, a % m + b);
  }

  /** Two values in one window of width m below k that agree modulo m are equal. */
  lemma ModWindowUnique(i: int, k: int, m: int)
    requires m > 0
    requires k - m < i <= k
    requires i % m == k % m
    ensures i == k
  {
    var qi := i / m;
    var qk := k / m;
    assert i == m * qi + i % m;
    assert k == m * qk + k % m;
    assert k - i == m * (qk - qi);
    if qk - qi >= 1 {
      MulMono(m, qk - qi);
    } else if qk - qi <= -1 {
      MulMono(m, qi - qk);
    }
  }

  /** Quotient and remainder are determined by any decomposition b == d*x + y with 0 <= y < d. */
  lemma DivModUnique(b: int, d: int, x: int, y: int)
    requires d > 0 && 0 <= y < d
    requires b == d * x + y
    ensures b / d == x && b % d == y
  {
    var q := b / d;
    var r := b % d;
    assert d * (x - q) == r - y;
    if x - q >= 1 {
      MulMono(d, x - q);
    } else if x - q <= -1 {
      MulMono(d, q - x);
    }
  }

  /** Dividing twice equals dividing once by the product. */
  lemma DivDiv(b: int, d: int, e: int)
    requires d > 0 && e > 0
    ensures (b / d) / e == b / (d * e)
  {
    var q := b / d;
    var r := b % d;
    var q2 := q / e;
    var r2 := q % e;
    assert b == d * q + r;
    assert q == e * q2 + r2;
    assert d * q == d * (e * q2) + d * r2;
    assert d * (e * q2) == (d * e) * q2;
    assert b == (d * e) * q2 + (d * r2 + r);
    assert d * r2 <= d * (e - 1) by { MulLe(d, r2, e - 1); }
    assert d * (e - 1) == d * e - d;
    MulPositive(d, e);
    DivModUnique(b, d * e, q2, d * r2 + r);
  }

  lemma MulLe(d: int, x: int, y: int)
    requires d > 0 && x <= y
    ensures d * x <= d * y
  {
    if x < y {
      MulMono(d, y - x);
    }
  }

  lemma DivMulBound(n: int, d: int)
    requires d > 0 && n >= 0
    ensures d * (n / d) <= n < d * (n / d) + d
  {
  }

  /** Two values less than m apart, the first below the second, differ modulo m. */
  lemma ModDistinct(e: int, k: int, m: int)
    requires m > 0 && k - m < e < k
    ensures e % m != k % m
  {
    var r := e % m;
    assert e == m * (e / m) + r;
    if r + (k - e) < m {
      DivModUnique(k, m, e / m, r + (k - e));
    } else {
      assert k == m * (e / m + 1) + (r + (k - e) - m);
      DivModUnique(k, m, e / m + 1, r + (k - e) - m);
    }
  }
}
