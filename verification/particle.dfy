/** A simulated body and its per-body operations (src/particle.rs).
    The `color` field is left out: it only affects drawing. */
module Particle {
  import opened Vectors
  import opened Consts
  import Arith

  /** A point mass. `alive == false` marks a body as logically deleted;
      `fixed` marks a star that never moves. */
  datatype Body = Body(pos: Vec2, vel: Vec2, radius: real, mass: real, alive: bool, fixed: bool)

  /** `Object::new`: no validation; every new body is alive. */
  function New(pos: Vec2, vel: Vec2, radius: real, mass: real, fixed: bool): (b: Body)
    ensures b.alive
    ensures b.pos == pos && b.vel == vel && b.radius == radius && b.mass == mass && b.fixed == fixed
  {
    Body(pos, vel, radius, mass, true, fixed)
  }

  /** Every live body is what `New` makes of its own fields. */
  lemma NewRoundTrip(b: Body)
    requires b.alive
    ensures New(b.pos, b.vel, b.radius, b.mass, b.fixed) == b
  {
  }

  /** `is_offscreen`: outside the window grown by `OFFSET` on each side.
      Both the x and the y upper bounds use `WIDTH`; `HEIGHT` is not used. */
  function IsOffscreen(b: Body): (r: bool)
    ensures r <==> b.pos.x > 2780.0 || b.pos.x < -1500.0 || b.pos.y > 2780.0 || b.pos.y < -1500.0
  {
    var x := b.pos.x > (WIDTH + OFFSET) as real || b.pos.x < (-OFFSET) as real;
    var y := b.pos.y > (WIDTH + OFFSET) as real || b.pos.y < (-OFFSET) as real;
    x || y
  }

  /** A body inside the visible window is never culled. */
  lemma VisibleBodyIsNotOffscreen(b: Body)
    requires 0.0 <= b.pos.x <= WIDTH as real && 0.0 <= b.pos.y <= HEIGHT as real
    ensures !IsOffscreen(b)
  {
  }

  /** The y test uses `WIDTH`, so a body further than `OFFSET` below the
      bottom edge of the window survives as long as it is within
      `WIDTH + OFFSET`. */
  lemma OffscreenYBoundIsWidth(b: Body)
    requires -1500.0 <= b.pos.x <= 2780.0
    requires (HEIGHT + OFFSET) as real < b.pos.y <= (WIDTH + OFFSET) as real
    ensures !IsOffscreen(b)
  {
  }

  /** `update_pos`: one Euler step of unit length. */
  function UpdatePos(b: Body): (r: Body)
    ensures r.pos == Add(b.pos, b.vel)
    ensures r.(pos := b.pos) == b
  {
    b.(pos := Vec2(b.pos.x + b.vel.x, b.pos.y + b.vel.y))
  }

  /** `n` successive calls of `update_pos`. */
  function Advance(b: Body, n: nat): Body
    decreases n
  {
    if n == 0 then b else Advance(UpdatePos(b), n - 1)
  }

  /** `n` calls of `update_pos` move the body by `n` times its velocity. */
  lemma {:induction false} AdvanceMovesByMultiple(b: Body, n: nat)
    ensures Advance(b, n) == b.(pos := Add(b.pos, Scale(n as real, b.vel)))
    decreases n
  {
    if n > 0 {
      AdvanceMovesByMultiple(UpdatePos(b), n - 1);
    }
  }

  /** `inelastic_collision`: a fixed body ignores the hit; a free one takes
      the velocity of the merged pair and keeps its own mass. */
  function InelasticCollision(b: Body, v: Vec2, m: real): (r: Body)
    requires b.fixed || b.mass + m != 0.0
    ensures b.fixed ==> r == b
    ensures !b.fixed ==> r == b.(vel := r.vel)
    ensures !b.fixed ==> Scale(b.mass + m, r.vel) == Add(Scale(b.mass, b.vel), Scale(m, v))
  {
    if b.fixed then b
    else
      var vx := (b.mass * b.vel.x + m * v.x) / (b.mass + m);
      var vy := (b.mass * b.vel.y + m * v.y) / (b.mass + m);
      b.(vel := Vec2(vx, vy))
  }

  predicate Between(a: real, c: real, x: real) {
    (a <= x <= c) || (c <= x <= a)
  }

  /** With positive masses the merged velocity lies, per component, between
      the two velocities that were merged. */
  lemma MergedVelocityBetween(b: Body, v: Vec2, m: real)
    requires !b.fixed && b.mass > 0.0 && m > 0.0
    ensures Between(b.vel.x, v.x, InelasticCollision(b, v, m).vel.x)
    ensures Between(b.vel.y, v.y, InelasticCollision(b, v, m).vel.y)
  {
    var r := InelasticCollision(b, v, m);
    WeightedMeanBetween(b.mass, b.vel.x, m, v.x, r.vel.x);
    WeightedMeanBetween(b.mass, b.vel.y, m, v.y, r.vel.y);
  }

  lemma WeightedMeanBetween(ma: real, a: real, mc: real, c: real, x: real)
    requires ma > 0.0 && mc > 0.0
    requires (ma + mc) * x == ma * a + mc * c
    ensures Between(a, c, x)
  {
    assert (ma + mc) * (x - a) == mc * (c - a);
    assert (ma + mc) * (c - x) == ma * (c - a);
    if a <= c {
      assert 0.0 <= mc * (c - a);
      assert 0.0 <= ma * (c - a);
    } else {
      assert mc * (c - a) <= 0.0;
      assert ma * (c - a) <= 0.0;
    }
  }

  /** Merging with a body moving at the same velocity changes nothing. */
  lemma MergeSameVelocity(b: Body, m: real)
    requires b.fixed || b.mass + m != 0.0
    ensures InelasticCollision(b, b.vel, m) == b
  {
    if !b.fixed {
      var r := InelasticCollision(b, b.vel, m);
      assert (b.mass + m) * r.vel.x == (b.mass + m) * b.vel.x;
      assert (b.mass + m) * r.vel.y == (b.mass + m) * b.vel.y;
    }
  }

  /** Adds `k` times the vector from the body to `p` to its velocity. */
  function Attract(b: Body, p: Vec2, k: real): Body {
    b.(vel := Add(b.vel, Scale(k, Sub(p, b.pos))))
  }

  /** `update_vel`, with `dist` the value of `f32::sqrt` on the squared
      distance to `p`, which must be positive: the source divides by it.
      The increment is `m / dist^3` times the vector from the body to `p`. */
  function UpdateVel(b: Body, p: Vec2, m: real, dist: real): (r: Body)
    requires dist > 0.0 && dist * dist == Norm2(Sub(p, b.pos))
    ensures r == Attract(b, p, m / (dist * dist * dist))
    ensures r == b.(vel := r.vel)
  {
    var distX := p.x - b.pos.x;
    var distY := p.y - b.pos.y;
    var inverseDist := 1.0 / dist;
    var normalizedX := inverseDist * distX;
    var normalizedY := inverseDist * distY;
    var inverseSquareDropoff := inverseDist * inverseDist;
    var accX := normalizedX * m * inverseSquareDropoff;
    var accY := normalizedY * m * inverseSquareDropoff;
    Arith.InverseCubeStep(distX, m, dist);
    Arith.InverseCubeStep(distY, m, dist);
    b.(vel := Vec2(b.vel.x + accX, b.vel.y + accY))
  }

  /** For a non-negative mass at a positive distance the increment is a
      non-negative multiple of the vector towards `p`. */
  lemma GravityPullsTowardsSource(b: Body, p: Vec2, m: real, dist: real)
    requires dist > 0.0 && dist * dist == Norm2(Sub(p, b.pos)) && m >= 0.0
    ensures exists k: real :: 0.0 <= k && Sub(UpdateVel(b, p, m, dist).vel, b.vel) == Scale(k, Sub(p, b.pos))
  {
    var k := m / (dist * dist * dist);
    assert Sub(UpdateVel(b, p, m, dist).vel, b.vel) == Scale(k, Sub(p, b.pos));
  }

  /** When `dist` is the distance to `p`, the increment has length
      `m / dist^2`, Newton's law with the constant folded into the mass. */
  lemma GravityMagnitude(b: Body, p: Vec2, m: real, dist: real)
    requires dist > 0.0 && dist * dist == Norm2(Sub(p, b.pos))
    ensures Norm2(Sub(UpdateVel(b, p, m, dist).vel, b.vel)) == (m / (dist * dist)) * (m / (dist * dist))
  {
    var q := m / (dist * dist);
    var k := m / (dist * dist * dist);
    var w := Sub(p, b.pos);
    assert dist * dist != 0.0;
    Arith.DivDiv(m, dist * dist, dist);
    assert Sub(UpdateVel(b, p, m, dist).vel, b.vel) == Scale(k, w);
    assert Norm2(Scale(k, w)) == k * k * Norm2(w);
    assert k * k * (dist * dist) == q * q;
  }
}
