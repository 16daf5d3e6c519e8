/** Facts about multiplication and division of reals that the solver does not find on its own. */
module RealFacts {

  lemma MulStrict(a: real, b: real, c: real)
    requires a < b && 0.0 < c
    ensures a * c < b * c
  {
    assert (b - a) * c > 0.0;
  }

  lemma MulMonotone(a: real, b: real, c: real)
    requires a <= b && 0.0 <= c
    ensures a * c <= b * c
  {
    if a < b && 0.0 < c {
      MulStrict(a, b, c);
    }
  }

  /** A step that fills a non-negative span in a positive number of steps is non-negative. */
  lemma NonNegativeStep(c: real, n: real, d: real)
    requires 0.0 < n && c * n == d && 0.0 <= d
    ensures 0.0 <= c
  {
    if c < 0.0 {
      MulStrict(c, 0.0, n);
    }
  }

  /** When d - 1 <= (hi - lo) / c < d, the (d-1)-th step of length c from lo lies at or before hi and the
      d-th lies after it. */
  lemma StepsBracket(lo: real, hi: real, c: real, d: real)
    requires 0.0 < c && lo <= hi && d - 1.0 <= (hi - lo) / c < d
    ensures lo + (d - 1.0) * c <= hi < lo + d * c
  {
    var q := (hi - lo) / c;
    DivNonNegative(hi - lo, c);
    MulStrict(q, d, c);
    MulMonotone(d - 1.0, q, c);
  }

  lemma ZeroFactor(e: real, c: real)
    requires e * c == 0.0 && c != 0.0
    ensures e == 0.0
  {
  }

  lemma DivPlusOne(a: real, c: real)
    requires c != 0.0
    ensures (a + c) / c == a / c + 1.0
  {
    var x, q := (a + c) / c, a / c;
    assert x * c == a + c;
    assert q * c == a;
    ZeroFactor(x - q - 1.0, c);
  }

  lemma DivNonNegative(a: real, c: real)
    requires 0.0 <= a && 0.0 < c
    ensures 0.0 <= a / c && (a / c) * c == a
  {
    var q := a / c;
    assert q * c == a;
    if q < 0.0 {
      MulStrict(q, 0.0, c);
    }
  }
}
