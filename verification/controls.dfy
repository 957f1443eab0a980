/** The mesh viewers' input callbacks: dragging with the left mouse button
    turns the model (yaw and pitch, pitch kept within 89 degrees of level),
    and the scroll wheel zooms (field of view kept within 1 to 60 degrees).
    Window coordinates and angles are reals here. */
module Controls {

  /** The callbacks' globals: whether the left button is down, whether the
      next drag event is the first since the press, the last cursor
      position, and the model's yaw and pitch in degrees. */
  datatype Mouse = Mouse(pressed: bool, first: bool, lastX: real, lastY: real, yaw: real, pitch: real)

  /** Degrees of rotation per pixel of drag. */
  const Sensitivity: real := 0.2

  const MaxPitch: real := 89.0
  const MinFov: real := 1.0
  const MaxFov: real := 60.0

  /** The globals at start-up: the cursor assumed at the centre of an
      800 by 600 window, no rotation, a 45-degree field of view. */
  const InitialMouse: Mouse := Mouse(false, true, 400.0, 300.0, 0.0, 0.0)
  const InitialFov: real := 45.0

  predicate PitchOk(p: real) { -MaxPitch <= p <= MaxPitch }

  predicate FovOk(f: real) { MinFov <= f <= MaxFov }

  /** The two pitch tests of mouse_callback, upper bound first. */
  function ClampPitch(p: real): (r: real)
    ensures PitchOk(r)
  {
    var q := if p > MaxPitch then MaxPitch else p;
    if q < -MaxPitch then -MaxPitch else q
  }

  /** The two fov tests of scroll_callback, lower bound first. */
  function ClampFov(f: real): (r: real)
    ensures FovOk(r)
  {
    var g := if f < MinFov then MinFov else f;
    if g > MaxFov then MaxFov else g
  }

  /** Distance on the real line. */
  function Dist(a: real, b: real): real { if a <= b then b - a else a - b }

  /** Clamping the pitch moves it to the nearest allowed angle: no allowed
      angle is closer, and an allowed pitch is kept. */
  lemma ClampPitchIsNearest(p: real, q: real)
    requires PitchOk(q)
    ensures Dist(ClampPitch(p), p) <= Dist(q, p)
    ensures PitchOk(p) ==> ClampPitch(p) == p
  {
  }

  /** The same for the field of view. */
  lemma ClampFovIsNearest(f: real, g: real)
    requires FovOk(g)
    ensures Dist(ClampFov(f), f) <= Dist(g, f)
    ensures FovOk(f) ==> ClampFov(f) == f
  {
  }

  /** mouse_button_callback: only the left button counts; a press starts a
      drag whose first move only records the cursor, a release ends it. */
  datatype Action = Press | Release | Repeat

  function Button(m: Mouse, left: bool, action: Action): (r: Mouse)
    ensures r.lastX == m.lastX && r.lastY == m.lastY && r.yaw == m.yaw && r.pitch == m.pitch
    ensures left && action.Press? ==> r.pressed && r.first
    ensures left && action.Release? ==> !r.pressed
    ensures !left || action.Repeat? ==> r == m
  {
    if !left then m
    else match action
      case Press => m.(pressed := true, first := true)
      case Release => m.(pressed := false)
      case Repeat => m
  }

  /** mouse_callback: without the button only the cursor is recorded; with
      it, the model turns by the cursor's displacement since the last event
      (none on the first event of a drag), up-drag raising the pitch, and
      the pitch is clamped. */
  function Move(m: Mouse, x: real, y: real): (r: Mouse)
    ensures r.lastX == x && r.lastY == y && r.pressed == m.pressed
    ensures r.first == !m.pressed
    ensures !m.pressed ==> r.yaw == m.yaw && r.pitch == m.pitch
    ensures m.pressed ==> PitchOk(r.pitch)
    ensures PitchOk(m.pitch) ==> PitchOk(r.pitch)
  {
    if !m.pressed then m.(lastX := x, lastY := y, first := true)
    else
      var lx := if m.first then x else m.lastX;
      var ly := if m.first then y else m.lastY;
      var dx := (x - lx) * Sensitivity;
      var dy := (ly - y) * Sensitivity;
      m.(lastX := x, lastY := y, first := false, yaw := m.yaw + dx, pitch := ClampPitch(m.pitch + dy))
  }

  /** scroll_callback: scrolling up narrows the field of view. */
  function Scroll(fov: real, yoffset: real): (r: real)
    ensures FovOk(r)
  {
    ClampFov(fov - yoffset)
  }

  /** Scrolling further up never widens the view. */
  lemma ScrollIsMonotone(fov: real, y1: real, y2: real)
    requires y1 <= y2
    ensures Scroll(fov, y2) <= Scroll(fov, y1)
  {
  }

  /** The first move of a drag turns nothing: it only records the cursor. */
  lemma PressDoesNotJump(m: Mouse, x: real, y: real)
    requires PitchOk(m.pitch)
    ensures var r := Move(Button(m, true, Press), x, y); r.yaw == m.yaw && r.pitch == m.pitch
  {
  }

  /** The cursor positions of a drag, applied in order. */
  function Drag(m: Mouse, ps: seq<(real, real)>): Mouse
    decreases |ps|
  {
    if |ps| == 0 then m else Drag(Move(m, ps[0].0, ps[0].1), ps[1..])
  }

  /** Yaw is path independent: over a drag it changes by the sensitivity
      times the cursor's net horizontal travel, measured from the press
      point (the first position of a fresh drag) or else the last recorded
      position. */
  lemma {:induction false} DragYawTelescopes(m: Mouse, ps: seq<(real, real)>)
    requires m.pressed && |ps| > 0
    ensures Drag(m, ps).yaw == m.yaw + (ps[|ps| - 1].0 - (if m.first then ps[0].0 else m.lastX)) * Sensitivity
    decreases |ps|
  {
    var m1 := Move(m, ps[0].0, ps[0].1);
    if |ps| > 1 {
      DragYawTelescopes(m1, ps[1..]);
      assert ps[1..][|ps[1..]| - 1] == ps[|ps| - 1];
    }
  }

  /** Everything the viewer's input can do. */
  datatype Event = ButtonEvent(left: bool, action: Action) | CursorEvent(x: real, y: real) | ScrollEvent(dy: real)

  datatype View = View(mouse: Mouse, fov: real)

  const InitialView: View := View(InitialMouse, InitialFov)

  function Step(v: View, e: Event): View {
    match e
    case ButtonEvent(left, action) => v.(mouse := Button(v.mouse, left, action))
    case CursorEvent(x, y) => v.(mouse := Move(v.mouse, x, y))
    case ScrollEvent(dy) => v.(fov := Scroll(v.fov, dy))
  }

  function Run(v: View, es: seq<Event>): View
    decreases |es|
  {
    if |es| == 0 then v else Run(Step(v, es[0]), es[1..])
  }

  predicate Bounded(v: View) { PitchOk(v.mouse.pitch) && FovOk(v.fov) }

  /** Whatever the user does, the pitch stays within 89 degrees of level and
      the field of view within 1 to 60 degrees. */
  lemma {:induction false} RunStaysBounded(es: seq<Event>)
    ensures Bounded(Run(InitialView, es))
  {
    RunKeepsBounds(InitialView, es);
  }

  lemma {:induction false} RunKeepsBounds(v: View, es: seq<Event>)
    requires Bounded(v)
    ensures Bounded(Run(v, es))
    decreases |es|
  {
    if |es| > 0 {
      RunKeepsBounds(Step(v, es[0]), es[1..]);
    }
  }
}
