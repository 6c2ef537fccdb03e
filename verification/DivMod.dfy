/** Quotients and remainders by a divisor that is not a constant. */
module DivMod {

  lemma MulMono(a: int, b: int, n: int)
    requires n >= 0 && a <= b
    ensures a * n <= b * n
  {
  }

  lemma DivMono(a: int, b: int, n: int)
    requires n > 0 && a <= b
    ensures a / n <= b / n
  {
    var q, p := a / n, b / n;
    assert a == q * n + a % n && b == p * n + b % n;
    if q > p {
      MulMono(p + 1, q, n);
      assert false;
    }
  }

  /** Positions at most d apart are at most d / n + 1 leaves apart. */
  lemma DivSpread(a: int, b: int, d: int, n: int)
    requires n > 0 && d >= 0 && b - a <= d
    ensures b / n - a / n <= d / n + 1
  {
    var p, q, e := a / n, b / n, d / n;
    assert a == p * n + a % n && b == q * n + b % n && d == e * n + d % n;
    if q - p >= e + 2 {
      MulMono(e + 2, q - p, n);
      assert false;
    }
  }

  /** Positions of one leaf are less than n apart. */
  lemma SameQuotient(a: int, b: int, n: int)
    requires n > 0 && a / n == b / n
    ensures b - a < n
  {
    assert a == a / n * n + a % n && b == b / n * n + b % n;
  }

  /** Position n spills into a leaf of its own exactly when n fills whole leaves. */
  lemma DivStep(n: nat, span: nat)
    requires n > 0 && span > 0
    ensures n / span <= (n - 1) / span <==> n % span != 0
  {
    var q, r := (n - 1) / span, (n - 1) % span;
    assert n - 1 == q * span + r;
    if r + 1 < span {
      QuotientOf(n, span, q, r + 1);
    } else {
      assert n == (q + 1) * span + 0;
      QuotientOf(n, span, q + 1, 0);
    }
  }

  lemma QuotientOf(n: int, span: int, q: int, r: int)
    requires 0 <= r < span && n == q * span + r
    ensures n / span == q && n % span == r
  {
    var p := n / span;
    assert n == p * span + n % span;
    if p > q {
      MulMono(q + 1, p, span);
      assert false;
    }
    if p < q {
      MulMono(p + 1, q, span);
      assert false;
    }
  }

  lemma DivFloor(a: int, n: int)
    requires n > 0
    ensures n * (a / n) <= a < n * (a / n) + n
  {
  }

  function Ceiling(d: nat, n: int): nat
    requires n > 0
  {
    d / n + if d % n != 0 then 1 else 0
  }

  /** The rounded-up quotient steps exactly after a multiple. */
  lemma CeilingStep(d: nat, n: int)
    requires n > 0
    ensures Ceiling(d + 1, n) == Ceiling(d, n) + if d % n == 0 then 1 else 0
  {
    var q, r := d / n, d % n;
    assert d == q * n + r;
    if r + 1 < n {
      QuotientOf(d + 1, n, q, r + 1);
    } else {
      assert d + 1 == (q + 1) * n + 0;
      QuotientOf(d + 1, n, q + 1, 0);
    }
  }
}
