/** The mouse gestures of the main loop that create and delete bodies
    (src/main.rs:51-65, 81-96, 99-110). Each release is an explicit call
    carrying the drag's start point and the mouse position; the square
    root of the drag length is supplied by the caller. */
module Gestures {
  import opened Vectors
  import opened Consts
  import opened Particle
  import opened UpdateLoop

  /** Rust's `f as i32`: rounds toward zero and saturates at the bounds of
      `i32` (a NaN cannot arise on reals). */
  function CastToI32(x: real): (r: int)
    ensures I32_MIN <= r <= I32_MAX
    ensures I32_MAX as real <= x ==> r == I32_MAX
    ensures x <= I32_MIN as real ==> r == I32_MIN
    ensures 0.0 <= x < I32_MAX as real ==> r as real <= x < r as real + 1.0
    ensures I32_MIN as real < x < 0.0 ==> r as real - 1.0 < x <= r as real
  {
    if x >= I32_MAX as real then I32_MAX
    else if x <= I32_MIN as real then I32_MIN
    else if x >= 0.0 then x.Floor
    else -((-x).Floor)
  }

  /** Rust's `n >> 9` on an `i32`: an arithmetic shift, which rounds toward
      minus infinity. */
  function ShiftRight9(n: int): (r: int)
    ensures r * 512 <= n < r * 512 + 512
  {
    n / 512
  }

  /** The mass of a star dragged out over a distance `dist`:
      `(STARTMASS * dist) as i32 >> 9`, converted back to a float. It is a
      whole number: `5000 * dist / 512` rounded down, capped by the `i32`
      range. */
  function StarMass(dist: real): (m: real)
    requires dist >= 0.0
    ensures m == m.Floor as real
    ensures 0.0 <= m <= 4194303.0
    ensures STARTMASS * dist < I32_MAX as real ==> m * 512.0 <= STARTMASS * dist < m * 512.0 + 512.0
    ensures I32_MAX as real <= STARTMASS * dist ==> m == 4194303.0
  {
    var c := CastToI32(STARTMASS * dist);
    var s := ShiftRight9(c);
    assert 0 <= c;
    assert s as real * 512.0 == (s * 512) as real;
    s as real
  }

  /** Dragging further never gives a lighter star. */
  lemma StarMassMonotone(d1: real, d2: real)
    requires 0.0 <= d1 <= d2
    ensures StarMass(d1) <= StarMass(d2)
  {
    var c1 := CastToI32(STARTMASS * d1);
    var c2 := CastToI32(STARTMASS * d2);
    assert STARTMASS * d1 <= STARTMASS * d2;
    assert c1 <= c2;
    assert ShiftRight9(c1) <= ShiftRight9(c2);
  }

  /** A click without a drag of at least 512/5000 pixels places a star of
      mass zero. */
  lemma ShortDragGivesMasslessStar(dist: real)
    requires 0.0 <= dist && STARTMASS * dist < 512.0
    ensures StarMass(dist) == 0.0
  {
  }

  /** Left-button release (src/main.rs:51-65): appends one free body at the
      drag's start whose velocity is the drag vector divided by
      `WIDTH >> 2` and `HEIGHT >> 2`, with radius 5 and mass 1. */
  function PlacePlanet(objects: seq<Body>, start: Vec2, end: Vec2): (r: seq<Body>)
    ensures |r| == |objects| + 1 && r[..|objects|] == objects
    ensures var b := r[|objects|];
      && b.alive && !b.fixed && b.pos == start && b.radius == 5.0 && b.mass == 1.0
      && b.vel.x * 320.0 == end.x - start.x && b.vel.y * 225.0 == end.y - start.y
    ensures WellFormed(objects) ==> WellFormed(r)
  {
    assert (WIDTH / 4) as real == 320.0 && (HEIGHT / 4) as real == 225.0;
    var v := Vec2((end.x - start.x) / ((WIDTH / 4) as real), (end.y - start.y) / ((HEIGHT / 4) as real));
    objects + [New(start, v, 5.0, 1.0, false)]
  }

  /** The drag end is recovered from the planet placed: its start point plus
      its velocity scaled back by 320 and 225. */
  lemma PlanetDragRoundTrip(objects: seq<Body>, start: Vec2, end: Vec2)
    ensures var b := PlacePlanet(objects, start, end)[|objects|];
      Vec2(b.pos.x + 320.0 * b.vel.x, b.pos.y + 225.0 * b.vel.y) == end
  {
  }

  /** Right-button release (src/main.rs:81-96): appends one star at the
      drag's start, at rest, with radius 50 and the mass `StarMass` gives
      for the drag length `dist`. */
  function PlaceStar(objects: seq<Body>, start: Vec2, end: Vec2, dist: real): (r: seq<Body>)
    requires dist >= 0.0 && dist * dist == Norm2(Sub(end, start))
    ensures |r| == |objects| + 1 && r[..|objects|] == objects
    ensures var b := r[|objects|];
      && b.alive && b.fixed && b.pos == start && b.vel == Zero && b.radius == 50.0
      && b.mass == StarMass(dist)
    ensures WellFormed(objects) ==> WellFormed(r)
  {
    var m := StarMass(dist);
    objects + [New(start, Zero, 50.0, m, true)]
  }

  /** Radius of the circle around the cursor used to pick bodies. */
  const PICK_RADIUS: real := 15.0

  predicate UnderCursor(cursor: Vec2, b: Body) {
    CirclesCollide(cursor, PICK_RADIUS, b.pos, b.radius)
  }

  /** A body of non-negative radius is picked exactly when its centre lies
      within `PICK_RADIUS` plus its own radius of the cursor. */
  lemma UnderCursorIffWithinReach(cursor: Vec2, b: Body, d: real)
    requires 0.0 <= b.radius
    requires 0.0 <= d && d * d == Norm2(Sub(b.pos, cursor))
    ensures UnderCursor(cursor, b) <==> d <= PICK_RADIUS + b.radius
  {
    CirclesCollideIffWithinReach(cursor, PICK_RADIUS, b.pos, b.radius, d);
  }

  /** Middle-button release (src/main.rs:99-110): every body whose circle
      meets the pick circle is marked dead, not just the nearest; nothing
      else changes and nothing is removed. */
  function Delete(objects: seq<Body>, cursor: Vec2): (r: seq<Body>)
    ensures |r| == |objects|
    ensures forall k :: 0 <= k < |r| ==>
      (r[k].alive <==> objects[k].alive && !UnderCursor(cursor, objects[k]))
    ensures forall k :: 0 <= k < |r| ==> r[k] == objects[k].(alive := r[k].alive)
    ensures WellFormed(objects) ==> WellFormed(r) && Evolves(objects, r)
  {
    seq(|objects|, k requires 0 <= k < |objects| =>
      objects[k].(alive := objects[k].alive && !UnderCursor(cursor, objects[k])))
  }

  /** The same pass as the source runs it, one index at a time over the
      vector mutated in place. */
  method DeleteUnderCursor(objects: seq<Body>, cursor: Vec2) returns (r: seq<Body>)
    ensures r == Delete(objects, cursor)
    ensures forall k :: 0 <= k < |r| ==>
      (r[k].alive <==> objects[k].alive && !UnderCursor(cursor, objects[k]))
    ensures forall k :: 0 <= k < |r| ==> r[k] == objects[k].(alive := r[k].alive)
    ensures WellFormed(objects) ==> WellFormed(r)
  {
    r := objects;
    for i := 0 to |objects|
      invariant |r| == |objects|
      invariant forall k :: 0 <= k < i ==>
        r[k] == objects[k].(alive := objects[k].alive && !UnderCursor(cursor, objects[k]))
      invariant forall k :: i <= k < |objects| ==> r[k] == objects[k]
    {
      if CirclesCollide(cursor, PICK_RADIUS, r[i].pos, r[i].radius) {
        r := r[i := r[i].(alive := false)];
      }
    }
  }
}
