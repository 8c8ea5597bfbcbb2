/** Facts about integer division and products that the bit-field and
    slicing proofs use; Dafny's solver does not find them unaided. */
module Arith {

  lemma DivStep(x: int, d: nat)
    requires x >= 0 && d > 0
    ensures (x + d) / d == x / d + 1
    ensures x < d ==> x / d == 0
  {
    var q, r := x / d, x % d;
    assert x + d == (q + 1) * d + r;
    DivUnique(x + d, d, q + 1, r);
  }

  lemma DivUnique(x: int, d: nat, q: int, r: int)
    requires d > 0 && 0 <= r < d && x == q * d + r
    ensures x / d == q && x % d == r
  {
    var q', r' := x / d, x % d;
    assert x == q' * d + r';
    assert (q - q') * d == q * d - q' * d;
    if q > q' { MulAtLeast(q - q', d); }
    assert (q' - q) * d == q' * d - q * d;
    if q < q' { MulAtLeast(q' - q, d); }
  }

  /** A number below p * d has a quotient by d below p. */
  lemma QuotientBelow(n: int, d: nat, p: int)
    requires n >= 0 && d > 0 && n < p * d
    ensures n / d < p
  {
    var q := n / d;
    assert q * d <= n;
    if q >= p {
      MulMonotone(p, q, d);
      assert false;
    }
  }

  lemma MulMonotone(a: int, b: int, d: nat)
    requires a <= b
    ensures a * d <= b * d
  {
    if a < b {
      MulAtLeast(b - a, d);
      assert (b - a) * d == b * d - a * d;
    }
  }

  lemma {:induction false} MulAtLeast(k: int, d: nat)
    requires k >= 1
    ensures k * d >= d
    decreases k
  {
    if k > 1 {
      MulAtLeast(k - 1, d);
      assert k * d == (k - 1) * d + d;
    }
  }

  lemma MulStep(j: int, d: int)
    ensures (j - 1) * d + d == j * d
  {
  }

  /** Appending a hex digit `r` to a fraction `q / p`. */
  lemma AddDigit(q: real, r: real, p: real)
    requires p > 0.0
    ensures q / p + r / (16.0 * p) == (16.0 * q + r) / (16.0 * p)
  {
    assert q / p == (16.0 * q) / (16.0 * p);
  }

  /** A positive `m` below `p` and at least `p / 16` gives a quotient in [1/16, 1). */
  lemma QuotientBounds(m: real, p: real)
    requires 0.0 < m < p && p <= 16.0 * m
    ensures 0.0625 <= m / p < 1.0
  {
    ProductBounds(m / p, m, p);
  }

  lemma ProductBounds(f: real, m: real, p: real)
    requires 0.0 < m < p && p <= 16.0 * m && f * p == m
    ensures 0.0625 <= f < 1.0
  {
    var fp := f * p;
    assert fp == m;
    assert 0.0625 * p <= fp;
    MulCancel(0.0625, f, p);
    assert fp < 1.0 * p;
    MulCancel(f, 1.0, p);
  }

  /** Dividing both sides of an inequality by a positive `p`. */
  lemma MulCancel(a: real, b: real, p: real)
    requires p > 0.0
    ensures a * p <= b * p ==> a <= b
    ensures a * p < b * p ==> a < b
  {
    if a > b { MulLess(b, a, p); }
    if a == b { assert a * p == b * p; }
  }

  lemma MulLess(a: real, b: real, p: real)
    requires p > 0.0 && a <= b
    ensures a * p <= b * p
    ensures a < b ==> a * p < b * p
  {
    assert a < b ==> (b - a) * p > 0.0;
    assert (b - a) * p >= 0.0;
    assert (b - a) * p == b * p - a * p;
  }

  lemma MulAssoc(a: real, b: real, c: real)
    ensures (a * b) * c == a * (b * c)
  {
  }

  lemma ScaledAtLeast(f: real, p: real)
    requires f >= 0.0625 && p >= 1.0
    ensures f * p >= 0.0625
  {
    MulLess(1.0, p, f);
    assert p * f == f * p;
  }

  /** The same numerator over a smaller denominator is larger. */
  lemma FractionLarger(m: real, p: real, q: real)
    requires m > 0.0 && 0.0 < p < q
    ensures m / p > m / q
  {
    var x, y := m / p, m / q;
    var xp, yq := x * p, y * q;
    assert xp == m && yq == m;
    assert y > 0.0;
    MulLess(p, q, y);
    var yp := y * p;
    assert p * y == yp && q * y == yq;
    assert yp < xp;
    MulCancel(y, x, p);
  }

  /** A fraction below 1 times a scale of at most 1/16 stays below 1/16. */
  lemma SmallScaled(f: real, p: real)
    requires 0.0 <= f < 1.0 && p >= 16.0
    ensures f * (1.0 / p) < 0.0625
  {
    var r := 1.0 / p;
    var rp := r * p;
    assert rp == 1.0;
    assert r <= 0.0625 by {
      if r > 0.0625 { MulLess(0.0625, r, p); }
    }
    assert r > 0.0;
    MulLess(f, 1.0, r);
  }

  /** Multiplying by +1 or -1 keeps values apart. */
  lemma SignCancel(g: real, x: real, y: real)
    requires g == 1.0 || g == -1.0
    ensures g * x == g * y <==> x == y
  {
  }

  lemma MulEqCancel(a: real, b: real, p: real)
    requires p > 0.0
    ensures a * p == b * p <==> a == b
  {
    MulCancel(a, b, p);
    MulCancel(b, a, p);
  }

  lemma EqualByFactor(x: real, y: real, a: real, b: real, p: real)
    requires p > 0.0 && x == a * p && y == b * p
    ensures x == y <==> a == b
  {
    MulEqCancel(a, b, p);
  }

  /** Moving a digit one hex place to the right. */
  lemma ShiftDigit(a: real, d: real, p: real)
    requires p > 0.0
    ensures (a + d / p) / 16.0 == a / 16.0 + d / (16.0 * p)
  {
    assert (d / p) / 16.0 == d / (16.0 * p);
  }

  /** The sign of a product of a non-zero factor, a non-negative one and a positive one. */
  lemma ProductSign(a: real, f: real, p: real)
    requires a != 0.0 && f >= 0.0 && p > 0.0
    ensures a * f * p == 0.0 <==> f == 0.0
    ensures a * f * p < 0.0 <==> a < 0.0 && f > 0.0
  {
    MulAssoc(a, f, p);
    var fp := f * p;
    MulLess(0.0, f, p);
    if f > 0.0 {
      if a > 0.0 { MulLess(0.0, a, fp); } else { MulLess(a, 0.0, fp); }
    }
  }
}
