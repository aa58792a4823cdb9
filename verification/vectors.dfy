/** Two-dimensional vectors over the reals, standing in for raylib's `Vector2`
    (whose `f32` components are modelled as `real`), and raylib's
    circle-circle collision test. */
module Vectors {
  import Arith

  datatype Vec2 = Vec2(x: real, y: real)

  const Zero: Vec2 := Vec2(0.0, 0.0)

  function Add(a: Vec2, b: Vec2): Vec2 {
    Vec2(a.x + b.x, a.y + b.y)
  }

  /** `a - b`, componentwise. */
  function Sub(a: Vec2, b: Vec2): Vec2 {
    Vec2(a.x - b.x, a.y - b.y)
  }

  function Scale(k: real, a: Vec2): Vec2 {
    Vec2(k * a.x, k * a.y)
  }

  /** Squared Euclidean length. */
  function Norm2(a: Vec2): real {
    a.x * a.x + a.y * a.y
  }

  /** raylib's `check_collision_circles`: the circles touch or overlap when
      the distance of the centres is at most the sum of the radii. Stated on
      squares, so that no square root is needed. */
  predicate CirclesCollide(c1: Vec2, r1: real, c2: Vec2, r2: real) {
    Norm2(Sub(c2, c1)) <= (r1 + r2) * (r1 + r2)
  }

  lemma CirclesCollideSymmetric(c1: Vec2, r1: real, c2: Vec2, r2: real)
    ensures CirclesCollide(c1, r1, c2, r2) <==> CirclesCollide(c2, r2, c1, r1)
  {
    assert Norm2(Sub(c2, c1)) == Norm2(Sub(c1, c2));
  }

  /** With `d` the distance of the centres (the square root of the squared
      distance), the circles collide exactly when `d <= r1 + r2`. */
  lemma CirclesCollideIffWithinReach(c1: Vec2, r1: real, c2: Vec2, r2: real, d: real)
    requires 0.0 <= d && d * d == Norm2(Sub(c2, c1))
    requires 0.0 <= r1 + r2
    ensures CirclesCollide(c1, r1, c2, r2) <==> d <= r1 + r2
  {
    Arith.SquareMonotone(d, r1 + r2);
  }
}
