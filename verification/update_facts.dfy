/** Properties of the update pass (src/main.rs:113-151) that relate several
    steps: how the live mass changes under a merge, how far the double
    counting in a merge is from conserving momentum, how often `update_pos`
    runs, and the equal-mass tie-break. */
module UpdateFacts {
  import opened Vectors
  import opened Particle
  import opened UpdateLoop
  import Arith

  /** The mass a body contributes while it is alive. */
  function LiveContribution(b: Body): real {
    if b.alive then b.mass else 0.0
  }

  /** The total mass of the live bodies. */
  function LiveMass(bs: seq<Body>): real
    decreases |bs|
  {
    if |bs| == 0 then 0.0 else LiveContribution(bs[0]) + LiveMass(bs[1..])
  }

  /** Replacing one body changes the live mass by the difference of the two
      contributions. */
  lemma {:induction false} LiveMassUpdate(bs: seq<Body>, k: nat, b: Body)
    requires k < |bs|
    ensures LiveMass(bs[k := b]) == LiveMass(bs) - LiveContribution(bs[k]) + LiveContribution(b)
    decreases k
  {
    if k > 0 {
      assert bs[k := b][1..] == bs[1..][k - 1 := b];
      LiveMassUpdate(bs[1..], k - 1, b);
    }
  }

  /** A merge between two live bodies keeps the live mass. A body that died
      earlier in its own turn still takes part: absorbing the live `j`, it
      carries `j`'s mass out of the live set; absorbed by `j`, it adds its
      mass to the live set a second time. */
  lemma AbsorbLiveMass(bs: seq<Body>, i: nat, j: nat)
    requires i < |bs| && j < |bs| && i != j
    requires !bs[i].fixed && BodyOk(bs[i]) && BodyOk(bs[j])
    requires bs[j].alive
    ensures bs[i].alive ==> LiveMass(Absorb(bs, i, j)) == LiveMass(bs)
    ensures !bs[i].alive && bs[i].mass > bs[j].mass ==>
              LiveMass(Absorb(bs, i, j)) == LiveMass(bs) - bs[j].mass
    ensures !bs[i].alive && bs[i].mass <= bs[j].mass ==>
              LiveMass(Absorb(bs, i, j)) == LiveMass(bs) + bs[i].mass
  {
    var r := Absorb(bs, i, j);
    assert r == bs[i := r[i]][j := r[j]];
    LiveMassUpdate(bs, i, r[i]);
    LiveMassUpdate(bs[i := r[i]], j, r[j]);
  }

  /** A free body that died earlier in its turn (culled, or absorbed by an
      earlier `j`) still absorbs a lighter live body it touches. */
  lemma DeadBodyStillAbsorbs(bs: seq<Body>, i: nat, j: nat, pull: Pull)
    requires i < |bs| && j < |bs| && i != j
    requires !bs[i].fixed && WellFormed(bs)
    requires !bs[i].alive && bs[j].alive && bs[i].mass > bs[j].mass
    requires CirclesCollide(bs[i].pos, bs[i].radius, bs[j].pos, bs[j].radius)
    ensures InnerStep(bs, i, j, pull)[i].mass == bs[i].mass + bs[j].mass
    ensures !InnerStep(bs, i, j, pull)[j].alive
    ensures !InnerStep(bs, i, j, pull)[i].alive
  {
    var a := Attract(bs[i], bs[j].pos, pull(bs[i].pos, bs[j].pos, bs[j].mass));
    assert Interact(bs, i, j, pull) == Absorb(bs[i := a], i, j);
  }

  /** Scalar form of the merge as the pass performs it: the absorber of mass
      `ma` and velocity `va` has already been bumped to `ma + mb` when it is
      merged with the victim (`mb`, `vb`), so its new velocity `v` satisfies
      `(ma + 2 mb) v == (ma + mb) va + mb vb`. That equals the
      momentum-conserving velocity exactly when the victim is massless or
      both velocities agree. */
  lemma BumpedMergeConservesMomentumIff(ma: real, va: real, mb: real, vb: real, v: real)
    requires ma > 0.0 && mb >= 0.0
    requires (ma + 2.0 * mb) * v == (ma + mb) * va + mb * vb
    ensures (ma + mb) * v == ma * va + mb * vb <==> mb == 0.0 || va == vb
  {
    var s := ma + mb;
    var d := ma + 2.0 * mb;
    assert s > 0.0 && d > 0.0;
    // d * (s v) = s (s va + mb vb) and d (ma va + mb vb) differ by mb^2 (va - vb)
    assert d * (s * v) == s * (d * v);
    assert s * (s * va + mb * vb) - d * (ma * va + mb * vb) == mb * mb * (va - vb);
    if s * v == ma * va + mb * vb {
      assert d * (s * v) == d * (ma * va + mb * vb);
      assert mb * mb * (va - vb) == 0.0;
      Arith.ZeroProduct(mb * mb, va - vb);
      if mb * mb == 0.0 {
        Arith.ZeroProduct(mb, mb);
      }
    }
    if mb == 0.0 || va == vb {
      assert mb * mb * (va - vb) == 0.0;
      assert d * (s * v) == d * (ma * va + mb * vb);
      Arith.Cancel(s * v, ma * va + mb * vb, d);
    }
  }

  /** `BumpedMergeConservesMomentumIff` for both components at once. */
  lemma BumpedMergeConservesMomentumIffVec(ma: real, va: Vec2, mb: real, vb: Vec2, v: Vec2)
    requires ma > 0.0 && mb >= 0.0
    requires Scale(ma + 2.0 * mb, v) == Add(Scale(ma + mb, va), Scale(mb, vb))
    ensures Scale(ma + mb, v) == Add(Scale(ma, va), Scale(mb, vb)) <==> mb == 0.0 || va == vb
  {
    BumpedMergeConservesMomentumIff(ma, va.x, mb, vb.x, v.x);
    BumpedMergeConservesMomentumIff(ma, va.y, mb, vb.y, v.y);
  }

  /** The velocity a merge gives the absorber conserves the momentum of the
      pair exactly when the victim is massless or both bodies moved alike. */
  lemma AbsorbMomentumIff(bs: seq<Body>, i: nat, j: nat)
    requires i < |bs| && j < |bs| && i != j
    requires !bs[i].fixed && BodyOk(bs[i]) && BodyOk(bs[j])
    ensures bs[i].mass > bs[j].mass ==>
      (Scale(bs[i].mass + bs[j].mass, Absorb(bs, i, j)[i].vel)
       == Add(Scale(bs[i].mass, bs[i].vel), Scale(bs[j].mass, bs[j].vel))
       <==> bs[j].mass == 0.0 || bs[i].vel == bs[j].vel)
    ensures bs[i].mass <= bs[j].mass && !bs[j].fixed ==>
      (Scale(bs[j].mass + bs[i].mass, Absorb(bs, i, j)[j].vel)
       == Add(Scale(bs[j].mass, bs[j].vel), Scale(bs[i].mass, bs[i].vel))
       <==> bs[i].vel == bs[j].vel)
  {
    var r := Absorb(bs, i, j);
    if bs[i].mass > bs[j].mass {
      BumpedMergeConservesMomentumIffVec(bs[i].mass, bs[i].vel, bs[j].mass, bs[j].vel, r[i].vel);
    } else if !bs[j].fixed {
      BumpedMergeConservesMomentumIffVec(bs[j].mass, bs[j].vel, bs[i].mass, bs[i].vel, r[j].vel);
    }
  }

  /** Bodies `k` with `lo <= k < hi` are all dead. */
  predicate DeadBetween(bs: seq<Body>, lo: int, hi: int) {
    forall k :: 0 <= lo <= k < hi <= |bs| ==> !bs[k].alive
  }

  /** Turns of dead bodies do nothing. */
  lemma {:induction false} PassFromSkipsDead(bs: seq<Body>, lo: nat, hi: nat, pull: Pull)
    requires lo <= hi <= |bs| && WellFormed(bs)
    requires DeadBetween(bs, lo, hi)
    ensures PassFrom(bs, lo, pull) == PassFrom(bs, hi, pull)
    decreases hi - lo
  {
    if lo < hi {
      assert Turn(bs, lo, pull) == bs;
      PassFromSkipsDead(bs, lo + 1, hi, pull);
    }
  }

  /** With every other body dead, the inner loop from `j` only runs
      `update_pos` on `i`, once for each remaining index. */
  lemma {:induction false} InnerLoopAlone(bs: seq<Body>, i: nat, j: nat, pull: Pull)
    requires i < |bs| && j <= |bs| && !bs[i].fixed && WellFormed(bs)
    requires forall k :: 0 <= k < |bs| && k != i ==> !bs[k].alive
    ensures InnerLoop(bs, i, j, pull) == bs[i := Advance(bs[i], |bs| - j)]
    decreases |bs| - j
  {
    if j < |bs| {
      var s := InnerStep(bs, i, j, pull);
      assert s == bs[i := UpdatePos(bs[i])];
      InnerLoopAlone(s, i, j + 1, pull);
      assert s[i := Advance(s[i], |bs| - (j + 1))] == bs[i := Advance(bs[i], |bs| - j)];
    }
  }

  /** A free body alone among dead ones moves `|bs|` times its velocity in
      one pass, not once: `update_pos` sits inside the inner loop. If it was
      off-screen it is marked dead, yet it still moves in that same pass. */
  lemma LoneBodyMovesLenTimes(bs: seq<Body>, i: nat, pull: Pull)
    requires i < |bs| && WellFormed(bs)
    requires bs[i].alive && !bs[i].fixed
    requires forall k :: 0 <= k < |bs| && k != i ==> !bs[k].alive
    ensures Pass(bs, pull)[i].pos == Add(bs[i].pos, Scale(|bs| as real, bs[i].vel))
    ensures Pass(bs, pull)[i].vel == bs[i].vel
    ensures Pass(bs, pull)[i].alive <==> !IsOffscreen(bs[i])
    ensures forall k :: 0 <= k < |bs| && k != i ==> Pass(bs, pull)[k] == bs[k]
  {
    PassFromSkipsDead(bs, 0, i, pull);
    var s := if IsOffscreen(bs[i]) then bs[i := bs[i].(alive := false)] else bs;
    InnerLoopAlone(s, i, 0, pull);
    var t := Turn(bs, i, pull);
    assert t == s[i := Advance(s[i], |bs|)];
    AdvanceMovesByMultiple(s[i], |bs|);
    PassFromSkipsDead(t, i + 1, |bs|, pull);
    assert PassFrom(t, |bs|, pull) == t;
  }

  /** Two free on-screen bodies of equal mass that touch once the first has
      taken its first step: the second survives with both masses, the first
      dies. Touching at the start is not enough, since that first step may
      carry the first body out of reach. */
  lemma EqualMassPairSecondSurvives(bs: seq<Body>, pull: Pull)
    requires |bs| == 2 && WellFormed(bs)
    requires bs[0].alive && bs[1].alive && !bs[0].fixed && !bs[1].fixed
    requires !IsOffscreen(bs[0]) && !IsOffscreen(bs[1])
    requires bs[0].mass == bs[1].mass
    requires CirclesCollide(Add(bs[0].pos, bs[0].vel), bs[0].radius, bs[1].pos, bs[1].radius)
    ensures !Pass(bs, pull)[0].alive && Pass(bs, pull)[0].mass == bs[0].mass
    ensures Pass(bs, pull)[1].alive && Pass(bs, pull)[1].mass == 2.0 * bs[1].mass
  {
    // turn 0: update_pos for j == 0, then the pairing with body 1
    var s1 := InnerStep(bs, 0, 0, pull);
    assert s1 == bs[0 := UpdatePos(bs[0])];
    var s2 := InnerStep(s1, 0, 1, pull);
    var a := Attract(s1[0], s1[1].pos, pull(s1[0].pos, s1[1].pos, s1[1].mass));
    var m := Absorb(s1[0 := a], 0, 1);
    assert Interact(s1, 0, 1, pull) == m;
    assert !m[0].alive && m[0].mass == bs[0].mass;
    assert m[1].alive && m[1].mass == 2.0 * bs[1].mass && m[1].pos == bs[1].pos;
    assert s2 == m[0 := UpdatePos(m[0])];
    assert InnerLoop(s2, 0, 2, pull) == s2;
    assert InnerLoop(s1, 0, 1, pull) == s2;
    var t0 := Turn(bs, 0, pull);
    assert t0 == s2;
    // turn 1: body 1 is on-screen and alive; body 0 is dead and skipped
    var u1 := InnerStep(s2, 1, 0, pull);
    assert u1 == s2[1 := UpdatePos(s2[1])];
    var u2 := InnerStep(u1, 1, 1, pull);
    assert u2 == u1[1 := UpdatePos(u1[1])];
    assert InnerLoop(u2, 1, 2, pull) == u2;
    assert InnerLoop(u1, 1, 1, pull) == u2;
    var t1 := Turn(s2, 1, pull);
    assert t1 == u2;
    assert PassFrom(t1, 2, pull) == t1;
    assert PassFrom(t0, 1, pull) == t1;
  }
}
