/** One iteration of the main loop without drawing (src/main.rs:37-151):
    the gestures in the order the source polls them, then the update pass.
    Input polling becomes an explicit record of this frame's mouse events. */
module MainLoop {
  import opened Vectors
  import opened Particle
  import opened UpdateLoop
  import opened Gestures

  /** The state kept across frames: the last drag start and the bodies. */
  datatype World = World(start: Vec2, objects: seq<Body>)

  /** The mouse events of one frame. `dist` is the value of `f32::sqrt` on
      the squared length of the right-button drag. */
  datatype FrameInput = FrameInput(
    mouse: Vec2,
    leftPressed: bool, leftReleased: bool,
    rightPressed: bool, rightReleased: bool,
    middleReleased: bool,
    dist: real)

  /** The drag start seen by a left release: a left press in the same frame
      has just moved it to the cursor. */
  function LeftStart(w: World, f: FrameInput): Vec2 {
    if f.leftPressed then f.mouse else w.start
  }

  /** The drag start seen by a right release: both buttons share one start
      variable, and a right press comes after the left-button handling. */
  function RightStart(w: World, f: FrameInput): Vec2 {
    if f.rightPressed then f.mouse else LeftStart(w, f)
  }

  predicate ValidInput(w: World, f: FrameInput) {
    f.rightReleased ==> 0.0 <= f.dist && f.dist * f.dist == Norm2(Sub(f.mouse, RightStart(w, f)))
  }

  function Count(b: bool): nat {
    if b then 1 else 0
  }

  /** The bodies after this frame's gestures, in the order the source polls
      them: a left release appends a planet, a right release a star, and a
      middle release then marks dead every body under the cursor, including
      one placed in the same frame. Earlier bodies change only in liveness. */
  function AfterGestures(w: World, f: FrameInput): (r: seq<Body>)
    requires ValidInput(w, f)
    ensures |r| == |w.objects| + Count(f.leftReleased) + Count(f.rightReleased)
    ensures WellFormed(w.objects) ==> WellFormed(r)
    ensures forall k :: 0 <= k < |w.objects| ==>
      && r[k] == w.objects[k].(alive := r[k].alive)
      && (r[k].alive <==> w.objects[k].alive && !(f.middleReleased && UnderCursor(f.mouse, w.objects[k])))
  {
    var planted := if f.leftReleased then PlacePlanet(w.objects, LeftStart(w, f), f.mouse) else w.objects;
    assert planted[..|w.objects|] == w.objects;
    var placed := if f.rightReleased then PlaceStar(planted, RightStart(w, f), f.mouse, f.dist) else planted;
    assert placed[..|w.objects|] == w.objects;
    assert forall k :: 0 <= k < |w.objects| ==> placed[k] == w.objects[k];
    if f.middleReleased then Delete(placed, f.mouse) else placed
  }

  /** One frame. Every gesture keeps the bodies well formed, so the update
      pass may run; the bodies that existed before the frame change only as
      the pass lets them (a dead body stays dead, a star stays put), and the
      new ones are appended. */
  method Frame(w: World, f: FrameInput, pull: Pull) returns (w': World)
    requires WellFormed(w.objects) && ValidInput(w, f)
    ensures WellFormed(w'.objects)
    ensures w'.start == RightStart(w, f)
    ensures |w'.objects| == |w.objects| + Count(f.leftReleased) + Count(f.rightReleased)
    ensures forall k :: 0 <= k < |w.objects| ==> MayBecome(w.objects[k], w'.objects[k])
    ensures w'.objects == Pass(AfterGestures(w, f), pull)
  {
    var objects := w.objects;
    if f.leftReleased {
      objects := PlacePlanet(objects, LeftStart(w, f), f.mouse);
    }
    if f.rightReleased {
      objects := PlaceStar(objects, RightStart(w, f), f.mouse, f.dist);
    }
    assert objects[..|w.objects|] == w.objects;
    if f.middleReleased {
      ghost var placed := objects;
      objects := DeleteUnderCursor(objects, f.mouse);
      assert Evolves(placed, objects);
    }
    assert objects == AfterGestures(w, f);
    var updated := UpdateObjects(objects, pull);
    w' := World(RightStart(w, f), updated);
  }
}
