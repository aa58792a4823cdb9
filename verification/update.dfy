/** The per-frame update pass over the vector of bodies (src/main.rs:113-151),
    without the call to `render`.

    Gravity is abstract: `pull(pos, p, m)` is the coefficient by which the
    vector from `pos` to `p` is scaled and added to the velocity of a body at
    `pos` attracted by a mass `m` at `p`. `Particle.UpdateVel` shows that
    `update_vel` is such an increment with coefficient `m / dist^3`. */
module UpdateLoop {
  import opened Vectors
  import opened Particle

  type Pull = (Vec2, Vec2, real) -> real

  /** What every reachable body satisfies: masses are never negative, a free
      body has a positive mass, and a star has zero velocity. */
  predicate BodyOk(b: Body) {
    b.mass >= 0.0 && (!b.fixed ==> b.mass > 0.0) && (b.fixed ==> b.vel == Zero)
  }

  predicate WellFormed(bs: seq<Body>) {
    forall k :: 0 <= k < |bs| ==> BodyOk(bs[k])
  }

  /** How one body may change across the update pass: liveness only falls,
      the mass only grows, the kind and the radius stay, and a star neither
      moves nor changes velocity. */
  predicate MayBecome(a: Body, b: Body) {
    && b.fixed == a.fixed
    && b.radius == a.radius
    && (b.alive ==> a.alive)
    && a.mass <= b.mass
    && (a.fixed ==> b.pos == a.pos && b.vel == a.vel)
  }

  /** `MayBecome`, slot by slot, and the length is kept. */
  predicate Evolves(bs: seq<Body>, rs: seq<Body>) {
    |rs| == |bs| && forall k :: 0 <= k < |bs| ==> MayBecome(bs[k], rs[k])
  }

  lemma EvolvesTransitive(s0: seq<Body>, s1: seq<Body>, s2: seq<Body>)
    requires Evolves(s0, s1) && Evolves(s1, s2)
    ensures Evolves(s0, s2)
  {
    forall k | 0 <= k < |s0|
      ensures MayBecome(s0[k], s2[k])
    {
      assert MayBecome(s0[k], s1[k]) && MayBecome(s1[k], s2[k]);
    }
  }

  /** The collision branch (src/main.rs:134-144) for a free body `i` that
      touches body `j`. The strictly heavier body absorbs the other; on equal
      masses `j` wins. The absorber's mass is bumped BEFORE
      `inelastic_collision` runs, so the merge weighs the absorber with the
      sum of both masses: the result is not the momentum-conserving
      velocity. */
  function Absorb(bs: seq<Body>, i: nat, j: nat): (r: seq<Body>)
    requires i < |bs| && j < |bs| && i != j
    requires !bs[i].fixed && BodyOk(bs[i]) && BodyOk(bs[j])
    ensures |r| == |bs|
    ensures forall k :: 0 <= k < |bs| && k != i && k != j ==> r[k] == bs[k]
    ensures bs[i].mass > bs[j].mass ==>
      && r[j] == bs[j].(alive := false)
      && r[i] == bs[i].(mass := bs[i].mass + bs[j].mass, vel := r[i].vel)
      && Scale(bs[i].mass + 2.0 * bs[j].mass, r[i].vel)
         == Add(Scale(bs[i].mass + bs[j].mass, bs[i].vel), Scale(bs[j].mass, bs[j].vel))
    ensures bs[i].mass <= bs[j].mass ==>
      && r[i] == bs[i].(alive := false)
      && r[j] == bs[j].(mass := bs[j].mass + bs[i].mass, vel := r[j].vel)
      && (bs[j].fixed ==> r[j].vel == bs[j].vel)
      && (!bs[j].fixed ==>
            Scale(bs[j].mass + 2.0 * bs[i].mass, r[j].vel)
            == Add(Scale(bs[j].mass + bs[i].mass, bs[j].vel), Scale(bs[i].mass, bs[i].vel)))
    ensures BodyOk(r[i]) && BodyOk(r[j])
    ensures Evolves(bs, r)
    ensures forall k :: 0 <= k < |bs| ==> r[k].pos == bs[k].pos
  {
    if bs[i].mass > bs[j].mass then
      var otherV := bs[j].vel;
      var otherM := bs[j].mass;
      var s := bs[i := bs[i].(mass := bs[i].mass + bs[j].mass)];
      var s' := s[j := s[j].(alive := false)];
      s'[i := InelasticCollision(s'[i], otherV, otherM)]
    else
      var s := bs[j := bs[j].(mass := bs[j].mass + bs[i].mass)];
      var s' := s[i := s[i].(alive := false)];
      var thisV := s'[i].vel;
      var thisM := s'[i].mass;
      s'[j := InelasticCollision(s'[j], thisV, thisM)]
  }

  /** One pairing of `i` with a live `j != i` (src/main.rs:124-145): the
      gravity of `j` acts on `i`, then a touching pair merges. The liveness
      of `i` is not consulted: a body that died earlier in its own turn keeps
      attracting, colliding and absorbing. */
  function Interact(bs: seq<Body>, i: nat, j: nat, pull: Pull): (r: seq<Body>)
    requires i < |bs| && j < |bs| && i != j
    requires !bs[i].fixed && WellFormed(bs)
    ensures WellFormed(r) && Evolves(bs, r)
    ensures forall k :: 0 <= k < |bs| && k != i && k != j ==> r[k] == bs[k]
    ensures forall k :: 0 <= k < |bs| ==> r[k].pos == bs[k].pos
  {
    var a := Attract(bs[i], bs[j].pos, pull(bs[i].pos, bs[j].pos, bs[j].mass));
    var s := bs[i := a];
    assert BodyOk(s[i]) && Evolves(bs, s);
    if CirclesCollide(a.pos, a.radius, s[j].pos, s[j].radius) then
      var r := Absorb(s, i, j);
      EvolvesTransitive(bs, s, r);
      r
    else
      s
  }

  /** One iteration of the inner loop (src/main.rs:123-147): the pairing
      with `j` when `j` is another live body, then `update_pos` on `i`,
      whatever `j` was. */
  function InnerStep(bs: seq<Body>, i: nat, j: nat, pull: Pull): (r: seq<Body>)
    requires i < |bs| && j < |bs|
    requires !bs[i].fixed && WellFormed(bs)
    ensures WellFormed(r) && Evolves(bs, r)
    ensures forall k :: 0 <= k < |bs| && k != i && k != j ==> r[k] == bs[k]
    ensures forall k :: 0 <= k < |bs| && k != i && !bs[k].alive ==> r[k] == bs[k]
    ensures forall k :: 0 <= k < |bs| && k != i ==> r[k].pos == bs[k].pos
  {
    var s := if i != j && bs[j].alive then Interact(bs, i, j, pull) else bs;
    var r := s[i := UpdatePos(s[i])];
    EvolvesTransitive(bs, s, r);
    r
  }

  /** The inner loop from `j` to the end. */
  function InnerLoop(bs: seq<Body>, i: nat, j: nat, pull: Pull): (r: seq<Body>)
    requires i < |bs| && j <= |bs|
    requires !bs[i].fixed && WellFormed(bs)
    ensures |r| == |bs| && WellFormed(r) && Evolves(bs, r)
    ensures forall k :: 0 <= k < |bs| && k != i ==> r[k].pos == bs[k].pos
    decreases |bs| - j
  {
    if j == |bs| then bs
    else
      var s := InnerStep(bs, i, j, pull);
      var r := InnerLoop(s, i, j + 1, pull);
      EvolvesTransitive(bs, s, r);
      r
  }

  /** Turn `i` of the outer loop (src/main.rs:114-149): a dead body is
      skipped; an off-screen body is marked dead and still processed; a free
      body goes through the inner loop. Only body `i` moves. */
  function Turn(bs: seq<Body>, i: nat, pull: Pull): (r: seq<Body>)
    requires i < |bs| && WellFormed(bs)
    ensures |r| == |bs| && WellFormed(r) && Evolves(bs, r)
    ensures !bs[i].alive ==> r == bs
    ensures IsOffscreen(bs[i]) ==> !r[i].alive
    ensures forall k :: 0 <= k < |bs| && k != i ==> r[k].pos == bs[k].pos
  {
    if !bs[i].alive then bs
    else
      var s := if IsOffscreen(bs[i]) then bs[i := bs[i].(alive := false)] else bs;
      assert Evolves(bs, s);
      if s[i].fixed then s
      else
        var r := InnerLoop(s, i, 0, pull);
        EvolvesTransitive(bs, s, r);
        r
  }

  /** The outer loop from turn `i` to the end. */
  function PassFrom(bs: seq<Body>, i: nat, pull: Pull): (r: seq<Body>)
    requires i <= |bs| && WellFormed(bs)
    ensures |r| == |bs| && WellFormed(r) && Evolves(bs, r)
    decreases |bs| - i
  {
    if i == |bs| then bs
    else
      var t := Turn(bs, i, pull);
      var r := PassFrom(t, i + 1, pull);
      EvolvesTransitive(bs, t, r);
      r
  }

  /** A body off screen when turn `i` starts, with its own turn still to
      come, is dead once the outer loop ends: the turns before its own move
      only their own body, its own turn marks it dead, and nothing revives
      it afterwards. */
  lemma {:induction false} PassFromCullsOffscreen(bs: seq<Body>, i: nat, pull: Pull, k: nat)
    requires i <= k < |bs| && WellFormed(bs) && IsOffscreen(bs[k])
    ensures !PassFrom(bs, i, pull)[k].alive
    decreases |bs| - i
  {
    var t := Turn(bs, i, pull);
    assert PassFrom(bs, i, pull) == PassFrom(t, i + 1, pull);
    if i == k {
      assert !t[k].alive;
      assert MayBecome(t[k], PassFrom(t, i + 1, pull)[k]);
    } else {
      assert t[k].pos == bs[k].pos;
      PassFromCullsOffscreen(t, i + 1, pull, k);
    }
  }

  /** Every body that starts the pass off screen ends it dead. */
  lemma PassCullsOffscreen(bs: seq<Body>, pull: Pull, k: nat)
    requires WellFormed(bs) && k < |bs| && IsOffscreen(bs[k])
    ensures !Pass(bs, pull)[k].alive
  {
    PassFromCullsOffscreen(bs, 0, pull, k);
  }

  /** The whole update pass, as a function. */
  function Pass(bs: seq<Body>, pull: Pull): seq<Body>
    requires WellFormed(bs)
  {
    PassFrom(bs, 0, pull)
  }

  /** The inner loop of turn `i` (src/main.rs:122-148): `update_pos` runs
      once for every index `j`, including `i` itself and dead bodies. */
  method RunInner(bs: seq<Body>, i: nat, pull: Pull) returns (r: seq<Body>)
    requires i < |bs| && !bs[i].fixed && WellFormed(bs)
    ensures r == InnerLoop(bs, i, 0, pull)
    ensures WellFormed(r) && Evolves(bs, r)
    ensures forall k :: 0 <= k < |bs| && k != i && !bs[k].alive ==> r[k] == bs[k]
  {
    r := bs;
    for j := 0 to |bs|
      invariant |r| == |bs| && WellFormed(r) && !r[i].fixed
      invariant InnerLoop(r, i, j, pull) == InnerLoop(bs, i, 0, pull)
      invariant Evolves(bs, r)
      invariant forall k :: 0 <= k < |bs| && k != i && !bs[k].alive ==> r[k] == bs[k]
    {
      ghost var prev := r;
      if i != j && r[j].alive {
        r := Interact(r, i, j, pull);
      }
      r := r[i := UpdatePos(r[i])];
      assert r == InnerStep(prev, i, j, pull);
      EvolvesTransitive(bs, prev, r);
    }
  }

  /** The update pass as the source runs it: a nested loop over one vector
      mutated in place. */
  method UpdateObjects(objects: seq<Body>, pull: Pull) returns (r: seq<Body>)
    requires WellFormed(objects)
    ensures r == Pass(objects, pull)
    ensures WellFormed(r)
    ensures Evolves(objects, r)
    ensures forall k :: 0 <= k < |objects| && !objects[k].alive ==> r[k] == objects[k]
    ensures forall k :: 0 <= k < |objects| && IsOffscreen(objects[k]) ==> !r[k].alive
  {
    r := objects;
    for i := 0 to |objects|
      invariant |r| == |objects| && WellFormed(r)
      invariant PassFrom(r, i, pull) == Pass(objects, pull)
      invariant Evolves(objects, r)
      invariant forall k :: 0 <= k < |objects| && !objects[k].alive ==> r[k] == objects[k]
    {
      ghost var before := r;
      if !r[i].alive {
        continue;
      }
      if IsOffscreen(r[i]) {
        r := r[i := r[i].(alive := false)];
      }
      EvolvesTransitive(objects, before, r);
      if !r[i].fixed {
        ghost var culled := r;
        r := RunInner(r, i, pull);
        EvolvesTransitive(objects, culled, r);
      }
      assert r == Turn(before, i, pull);
    }
    forall k | 0 <= k < |objects| && IsOffscreen(objects[k])
      ensures !r[k].alive
    {
      PassCullsOffscreen(objects, pull, k);
    }
  }
}
