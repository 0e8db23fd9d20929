/** Quotient and remainder facts shared by the integer-arithmetic drivers. */
module DivMod {

  /** The only multiple of `n` strictly between `-n` and `n` is 0. */
  lemma SmallMultiple(k: int, n: int)
    requires -n < k * n < n
    ensures k == 0
  {
    assert k >= 1 ==> (k - 1) * n >= 0;
    assert k <= -1 ==> (k + 1) * n <= 0;
  }

  /** Quotient and remainder are determined by a == q * n + r. */
  lemma Unique(a: nat, q: nat, r: nat, n: nat)
    requires r < n && a == q * n + r
    ensures a / n == q && a % n == r
  {
    var k := q - a / n;
    Euclid(a, n);
    assert k * n == q * n - (a / n) * n;
    SmallMultiple(k, n);
  }

  lemma Euclid(a: nat, n: nat)
    requires n > 0
    ensures a == (a / n) * n + a % n && a % n < n
  {}

  /** Adding whole multiples of the modulus changes the quotient only. */
  lemma AddMultiple(a: nat, k: nat, n: nat)
    requires n > 0
    ensures (a + k * n) / n == a / n + k && (a + k * n) % n == a % n
  {
    Euclid(a, n);
    assert (a / n) * n + k * n == (a / n + k) * n;
    Unique(a + k * n, a / n + k, a % n, n);
  }

  /** Reducing one summand first does not change a sum modulo `n`. */
  lemma ReduceSummand(a: nat, b: nat, n: nat)
    requires n > 0
    ensures (a % n + b) % n == (a + b) % n
  {
    Euclid(a, n);
    AddMultiple(a % n + b, a / n, n);
  }

  lemma MulMonotone(a: int, b: int, n: int)
    requires a <= b && 0 <= n
    ensures a * n <= b * n
  {
    assert (b - a) * n >= 0;
    assert (b - a) * n == b * n - a * n;
  }

  /** A quotient by `n` is at least `q` exactly when `q` multiples fit. */
  lemma AtLeast(a: nat, q: nat, n: nat)
    requires n > 0
    ensures a / n >= q <==> q * n <= a
  {
    var k := a / n;
    Euclid(a, n);
    if k >= q {
      MulMonotone(q, k, n);
    } else {
      MulMonotone(k + 1, q, n);
      assert (k + 1) * n == k * n + n;
    }
  }

  /** Dividing twice is dividing by the product. */
  lemma Nested(a: nat, m: nat, n: nat)
    requires m > 0 && n > 0
    ensures m * n > 0 && a / m / n == a / (m * n)
  {
    var q, r := a / m, a % m;
    var u, v := q / n, q % n;
    Euclid(a, m);
    Euclid(q, n);
    Regroup(u, v, m, n);
    MulMonotone(v + 1, n, m);
    assert (v + 1) * m == v * m + m;
    assert n * m == m * n;
    assert v * m >= 0;
    Unique(a, u, v * m + r, m * n);
  }

  lemma Regroup(u: nat, v: nat, m: nat, n: nat)
    ensures (u * n + v) * m == u * (m * n) + v * m
  {
    assert (u * n + v) * m == (u * n) * m + v * m;
    assert (u * n) * m == u * (n * m);
  }
}
