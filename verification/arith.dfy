/** Small facts of real arithmetic that the solver does not find unaided. */
module Arith {

  lemma MulPos(x: real, y: real)
    requires x > 0.0 && y > 0.0
    ensures x * y > 0.0
  {
  }

  lemma MulNonneg(x: real, y: real)
    requires x >= 0.0 && y >= 0.0
    ensures x * y >= 0.0
  {
  }

  lemma Cancel(a: real, b: real, c: real)
    requires c != 0.0 && a * c == b * c
    ensures a == b
  {
    assert (a - b) * c == 0.0;
  }

  lemma ZeroProduct(x: real, y: real)
    requires x * y == 0.0
    ensures x == 0.0 || y == 0.0
  {
  }

  /** For non-negative reals, comparing squares is comparing the numbers. */
  lemma SquareMonotone(a: real, b: real)
    requires 0.0 <= a && 0.0 <= b
    ensures a * a <= b * b <==> a <= b
  {
    assert a * a - b * b == (a - b) * (a + b);
    if a <= b {
      MulNonneg(b - a, a + b);
    } else {
      MulPos(a - b, a + b);
    }
  }

  /** The cube of `1 / d` is `1 / d^3`. */
  lemma InverseCube(d: real)
    requires d != 0.0
    ensures (1.0 / d) * ((1.0 / d) * (1.0 / d)) == 1.0 / (d * d * d)
  {
    var inv := 1.0 / d;
    var d3 := d * d * d;
    assert inv * d == 1.0;
    assert d * d != 0.0;
    assert d3 != 0.0;
    assert (inv * (inv * inv)) * d3 == (inv * d) * (inv * d) * (inv * d);
    assert (1.0 / d3) * d3 == 1.0;
    Cancel(inv * (inv * inv), 1.0 / d3, d3);
  }

  /** One component of the gravity step: the normalised component, times
      the mass, times the inverse square, is the component scaled by
      `m / d^3`. */
  lemma InverseCubeStep(dx: real, m: real, d: real)
    requires d != 0.0
    ensures ((1.0 / d) * dx) * m * ((1.0 / d) * (1.0 / d)) == (m / (d * d * d)) * dx
  {
    var inv := 1.0 / d;
    InverseCube(d);
    assert (inv * dx) * m * (inv * inv) == (m * (inv * (inv * inv))) * dx;
    assert m * (1.0 / (d * d * d)) == m / (d * d * d);
  }

  /** Dividing twice is dividing by the product. */
  lemma DivDiv(m: real, a: real, b: real)
    requires a != 0.0 && b != 0.0
    ensures (m / a) / b == m / (a * b)
  {
    assert a * b != 0.0;
    assert ((m / a) / b) * (a * b) == ((m / a) / b * b) * a;
    assert (m / (a * b)) * (a * b) == m;
    Cancel((m / a) / b, m / (a * b), a * b);
  }
}
