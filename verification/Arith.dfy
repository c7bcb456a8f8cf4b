/** Division facts that the solver needs spelled out. */
module Arith {

  lemma MulMono(a: int, b: int, m: int)
    requires a <= b && m >= 0
    ensures a * m <= b * m
  {
    assert (b - a) * m >= 0;
  }

  /** Quotient and remainder are determined by x == q * m + r with 0 <= r < m. */
  lemma DivModUnique(x: int, m: int, q: int, r: int)
    requires m > 0 && 0 <= r < m && x == q * m + r
    ensures x / m == q && x % m == r
  {
    var p, s := x / m, x % m;
    assert x == p * m + s && 0 <= s < m;
    if p < q {
      MulMono(p + 1, q, m);
      assert false;
    } else if q < p {
      MulMono(q + 1, p, m);
      assert false;
    }
  }

  /** Subtracting from a multiple of m keeps divisibility. */
  lemma DifferenceMod(t: int, m: int, d: int)
    requires m > 0
    ensures (t * m - d) % m == 0 <==> d % m == 0
  {
    var x := t * m - d;
    if x % m == 0 {
      assert d == (t - x / m) * m + 0;
      DivModUnique(d, m, t - x / m, 0);
    }
    if d % m == 0 {
      assert x == (t - d / m) * m + 0;
      DivModUnique(x, m, t - d / m, 0);
    }
  }

  /** Subtracting under a modulus, one step at a time. */
  lemma WrapStep(x: int, y: int, m: int)
    requires m > 0
    ensures (x % m - y) % m == (x - y) % m
  {
    var q, r := (x % m - y) / m, (x % m - y) % m;
    assert x - y == (x / m + q) * m + r;
    DivModUnique(x - y, m, x / m + q, r);
  }
}
