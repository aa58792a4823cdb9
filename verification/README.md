# Gravity sandbox: body bookkeeping

A Dafny model of the core of a small interactive 2D gravity simulator written
in Rust on top of raylib. Bodies ("objects") are point masses with a
position, velocity, radius, mass, an `alive` flag and a `fixed` flag (a fixed
body is a "star" that never moves; a free one is a "planet"). The user places
planets with a left-button drag, stars with a right-button drag, and deletes
bodies with a middle-button click; every frame an update pass lets each live
free body feel the gravity of every other live body, merges touching pairs
(the heavier absorbs the lighter) and culls bodies far off screen.

The model keeps the discrete rules exactly as the code performs them and
abstracts the floating-point parts:

- `f32` becomes `real`; raylib's `Vector2` becomes `Vectors.Vec2`, and
  `check_collision_circles` becomes `Vectors.CirclesCollide`
  (squared centre distance at most the squared radius sum).
- `f32::sqrt` is never computed: where the code takes a square root, the
  result is a parameter with its defining property
  (`dist >= 0 && dist * dist == squared length`).
- Inside the update pass, gravity is an abstract coefficient function
  `pull(pos, p, m)`; the increment is `pull(...)` times the vector from the
  body to `p`. `Particle.UpdateVel` models `update_vel` step by step and is
  shown to be such an increment with coefficient `m / dist^3`.
- Rust's `as i32` (round toward zero, saturate) and `>> 9` (arithmetic shift)
  are written out in `Gestures.CastToI32` and `Gestures.ShiftRight9`.

Modules: `Vectors` (vector arithmetic, circle test), `Consts` (constants of
src/main.rs:9-12), `Particle` (src/particle.rs), `UpdateLoop` (the update
pass, as functions and as the nested loop the source runs), `UpdateFacts`
(lemmas that relate several steps of the pass), `Gestures` (placement and
deletion), `MainLoop` (one frame: gestures, then the pass), and `Arith` (a
few facts of real arithmetic).

Every reachable state satisfies `UpdateLoop.WellFormed`: masses are never
negative, free bodies have positive mass, and stars have zero velocity. Every
gesture establishes it and the pass preserves it. The pass requires it,
because it keeps the merge denominators in `inelastic_collision` positive.

Some consequences of the code are easy to miss when reading it; the model
states each of them:

- `inelastic_collision` (src/particle.rs:54-55) computes the
  momentum-conserving velocity of its two arguments, but its caller bumps the
  absorber's mass first (src/main.rs:135, 139). The absorber's velocity
  therefore becomes `((ma+mb) va + mb vb) / (ma + 2 mb)`.
  `UpdateFacts.AbsorbMomentumIff` proves that this keeps the pair's momentum
  only when the victim is massless or both velocities agree.
- `update_pos` (src/main.rs:147) sits inside the `j` loop but outside the
  `i != j && objects[j].alive` test (src/main.rs:123). It runs once for every
  index, including the body itself and dead bodies, so `update_pos` runs
  `len` times per turn. A lone body therefore moves `len` times its velocity
  (`UpdateFacts.LoneBodyMovesLenTimes`).
- `is_offscreen` (src/particle.rs:39) tests `y` against `WIDTH + OFFSET`,
  although the window is `HEIGHT` pixels tall (src/main.rs:10).
- The star mass (src/main.rs:86) is truncated to `i32` and shifted right by
  9, so it is a whole number and a click without a drag gives a massless
  star.
- The inner loop never reads `objects[i].alive` again (src/main.rs:123). A
  body marked dead during its own turn, by culling (src/main.rs:119) or by
  being absorbed (src/main.rs:140), keeps moving and interacting until the
  turn ends. It can then absorb a live body or be absorbed a second time, and
  the live mass is not conserved (`UpdateFacts.AbsorbLiveMass`).

## Model

| member | source | states |
|---|---|---|
| `Particle.New` | src/particle.rs:17-34 | a new body is alive and stores pos, vel, radius, mass and fixed exactly as given |
| `Particle.NewRoundTrip` | src/particle.rs:17-34 | every live body is rebuilt exactly by `new` applied to its own fields |
| `Particle.IsOffscreen` | src/particle.rs:37-41 | offscreen iff x > 2780, x < -1500, y > 2780 or y < -1500; the y upper bound is WIDTH + OFFSET |
| `Particle.VisibleBodyIsNotOffscreen` | src/particle.rs:37-41 | a body inside the 1280x900 window is never culled |
| `Particle.OffscreenYBoundIsWidth` | src/particle.rs:39 | a body below HEIGHT + OFFSET but within WIDTH + OFFSET in y is not culled |
| `Particle.UpdatePos` | src/particle.rs:44-47 | position becomes position plus velocity; every other field is unchanged |
| `Particle.AdvanceMovesByMultiple` | src/particle.rs:44-47 | n calls of `update_pos` move the body by n times its velocity and change nothing else |
| `Particle.InelasticCollision` | src/particle.rs:50-59 | a fixed body is unchanged; a free body keeps everything but its velocity, whose momentum form satisfies (M + m) v' = M v + m w |
| `Particle.MergedVelocityBetween` | src/particle.rs:54-58 | with positive masses each merged component lies between the two merged velocities |
| `Particle.MergeSameVelocity` | src/particle.rs:54-58 | merging with an equal velocity leaves the body unchanged |
| `Particle.UpdateVel` | src/particle.rs:61-77 | for `dist` the positive distance to p, only the velocity changes, by m / dist^3 times the vector from the body to p |
| `Particle.GravityPullsTowardsSource` | src/particle.rs:61-77 | for a non-negative mass the increment is a non-negative multiple of the vector to p |
| `Particle.GravityMagnitude` | src/particle.rs:63-77 | when dist is the distance to p, the squared length of the increment is (m / dist^2)^2 |
| `Vectors.CirclesCollideSymmetric` | src/main.rs:128-133 | the collision test does not depend on the order of the two circles |
| `Vectors.CirclesCollideIffWithinReach` | src/main.rs:128-133 | with d the centre distance, the circles collide iff d <= r1 + r2 |
| `UpdateLoop.Absorb` | src/main.rs:134-144 | strictly heavier i absorbs j (mass sum, j dead); otherwise, ties included, j absorbs i; the absorber's velocity satisfies (ma + 2 mb) v' = (ma + mb) va + mb vb; a fixed absorber keeps its velocity; no position changes; nothing else changes |
| `UpdateLoop.Interact` | src/main.rs:123-146 | pairing i with j keeps the bodies well formed, moves no body, changes only i and j, and only as `MayBecome` allows |
| `UpdateLoop.InnerStep` | src/main.rs:122-148 | one inner iteration changes only i and j, moves no body but i, leaves dead bodies other than i untouched and keeps well-formedness |
| `UpdateLoop.InnerLoop` | src/main.rs:122-148 | the inner loop keeps the length and well-formedness, moves no body but i, and lets bodies change only as `MayBecome` allows |
| `UpdateLoop.Turn` | src/main.rs:114-149 | one outer turn skips a dead body, leaves an off-screen body dead, moves no other body, keeps well-formedness and lets bodies change only as `MayBecome` allows |
| `UpdateLoop.PassFromCullsOffscreen` | src/main.rs:113-149 | a body off screen when turn i starts, whose own turn is still to come, is dead when the outer loop ends |
| `UpdateLoop.PassCullsOffscreen` | src/main.rs:113-149 | every body off screen before the pass is dead after it |
| `UpdateLoop.PassFrom` | src/main.rs:113-151 | the rest of the outer loop keeps the length and well-formedness and lets bodies change only as `MayBecome` allows |
| `UpdateLoop.RunInner` | src/main.rs:122-148 | the in-place inner loop computes `InnerLoop`, keeps well-formedness and only lets bodies change as `MayBecome` allows |
| `UpdateLoop.UpdateObjects` | src/main.rs:113-151 | the in-place pass computes `Pass`; length kept; liveness only falls; mass only grows; a fixed body keeps pos and vel; a body dead before the pass is untouched; a body off screen before the pass is dead after it |
| `UpdateFacts.DeadBodyStillAbsorbs` | src/main.rs:123-137 | a free body already dead in its turn still absorbs a lighter live body it touches |
| `UpdateFacts.AbsorbLiveMass` | src/main.rs:134-144 | a merge of two live bodies keeps the live mass; a dead absorber removes the victim's mass from it; a dead victim adds its mass to it again |
| `UpdateFacts.BumpedMergeConservesMomentumIff` | src/main.rs:135-143 | the bumped-mass merge equals the momentum-conserving velocity iff the victim's mass is 0 or the velocities agree |
| `UpdateFacts.BumpedMergeConservesMomentumIffVec` | src/main.rs:135-143 | the same, for both components at once |
| `UpdateFacts.AbsorbMomentumIff` | src/main.rs:134-144 | the absorber's new momentum is the pair's momentum iff the victim is massless or both velocities agree |
| `UpdateFacts.PassFromSkipsDead` | src/main.rs:114-117 | turns of bodies that are dead at their turn change nothing |
| `UpdateFacts.InnerLoopAlone` | src/main.rs:122-148 | with every other body dead, the inner loop only runs `update_pos` on i, once per remaining index |
| `UpdateFacts.LoneBodyMovesLenTimes` | src/main.rs:118-148 | a lone free body moves len times its velocity in one pass; it ends alive iff it was on screen, since an off-screen body is marked dead and still moved |
| `UpdateFacts.EqualMassPairSecondSurvives` | src/main.rs:122-147 | of two free bodies of equal mass, both on screen, that touch once the first has taken its first step (the `j == 0` `update_pos`), the second survives with twice the mass and the first dies |
| `Gestures.CastToI32` | src/main.rs:86 | Rust's float-to-i32 cast: stays in the i32 range, saturates, and rounds toward zero |
| `Gestures.ShiftRight9` | src/main.rs:86 | the arithmetic shift rounds toward minus infinity: r * 512 <= n < r * 512 + 512 |
| `Gestures.StarMass` | src/main.rs:83-86 | the star mass is a whole number in [0, 4194303]; below saturation it is 5000 * dist / 512 rounded down, and at saturation it is exactly 4194303 |
| `Gestures.StarMassMonotone` | src/main.rs:83-86 | a longer drag never gives a lighter star |
| `Gestures.ShortDragGivesMasslessStar` | src/main.rs:86 | a drag shorter than 512/5000 pixels gives a star of mass 0 |
| `Gestures.PlacePlanet` | src/main.rs:51-65 | appends exactly one alive free body at start with radius 5 and mass 1, whose velocity times (320, 225) is the drag vector; well-formedness is kept |
| `Gestures.PlanetDragRoundTrip` | src/main.rs:53-56 | the drag end is recovered from the placed planet's position and velocity |
| `Gestures.PlaceStar` | src/main.rs:81-96 | appends exactly one alive fixed body at start with zero velocity, radius 50 and mass `StarMass(dist)`; well-formedness is kept |
| `Gestures.UnderCursorIffWithinReach` | src/main.rs:101-106 | a body is picked iff its centre is within 15 plus its radius of the cursor |
| `Gestures.Delete` | src/main.rs:99-110 | a body ends alive iff it was alive and not under the cursor circle; nothing else changes and the length is kept |
| `Gestures.DeleteUnderCursor` | src/main.rs:99-110 | the in-place loop computes `Delete`: a body ends alive iff it was alive and not under the cursor circle, nothing else changes |
| `MainLoop.AfterGestures` | src/main.rs:51-110 | the gestures append one body per release and change earlier bodies only in liveness: alive after iff alive before and not picked by a middle release; well-formedness is kept |
| `MainLoop.Frame` | src/main.rs:40-151 | one frame's bodies are exactly `Pass` applied to the bodies after the gestures; it appends one body per release, keeps well-formedness, sets the shared drag start, and lets earlier bodies change only as `MayBecome` allows |

## Left out

- Drawing: window setup, the frame loop's timing, `render`, the drag-time readouts and every `draw_*` call are side effects with no state change.
- `draw()`, the background generator: it uses randomness and writes `bg.png`.
- The `color` field: it has no effect on behaviour.
- `f32` rounding, infinities and NaN: the model computes on exact reals.
- `Particle.UpdateVel` requires `dist` to be the positive distance to `p`: when two positions coincide the source divides by zero and produces a non-finite velocity, which reals cannot represent.
- `Particle.InelasticCollision` requires a fixed body or a non-zero mass sum, for the same reason.
- `UpdateLoop.UpdateObjects` requires `WellFormed`, which the source never checks. All gestures establish it and the pass preserves it, so only states the program cannot reach are excluded.
- Gravity inside the pass is an arbitrary coefficient function, so no lemma about the pass depends on the value of the gravitational pull. `Particle.UpdateVel` states that value for one call.
- `f32::sqrt` is an input (`dist`, `FrameInput.dist`) with its defining property, not a computation.
- `Gestures.CastToI32`: NaN inputs, which Rust casts to 0, cannot arise on reals.
