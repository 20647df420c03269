/**
  Keyboard control of the look-at camera, as `handleEvent` does it in the
  `planettour` and `viewer4` windows (the two handlers are the same text).

  Pressing Up/W or Down/S sets the dolly speed to 1 or -1, pressing Left/A
  or Right/D sets the pan speed to -1 or 1. Releasing a key stops its axis
  only if the axis is still moving in that key's direction, so releasing
  one key while the opposite one is held keeps the camera moving. The
  speeds are floats in the source but only ever hold -1, 0 and 1, so they
  are integers here; the truck speed and the zoom are carried along and
  never touched.
 */
module CameraKeys {

  datatype Key = Up | Down | Left | Right | KeyW | KeyA | KeyS | KeyD | OtherKey(code: int)

  datatype Event = KeyDown(key: Key) | KeyUp(key: Key) | OtherEvent

  /** `m_dollySpeed`, `m_truckSpeed`, `m_panSpeed` and `m_zoom`. */
  datatype Camera = Camera(dolly: int, truck: int, pan: int, zoom: real)

  /** The window's initial values: every speed 0. */
  const Initial: Camera := Camera(0, 0, 0, 0.0)

  predicate IsForward(k: Key) { k == Up || k == KeyW }
  predicate IsBackward(k: Key) { k == Down || k == KeyS }
  predicate IsLeft(k: Key) { k == Left || k == KeyA }
  predicate IsRight(k: Key) { k == Right || k == KeyD }

  predicate IsUnit(x: int) { -1 <= x <= 1 }

  /** The four key-down tests and the four key-up tests of the source, run
      one after the other on the running values. */
  function HandleEvent(c: Camera, e: Event): (r: Camera)
    ensures r.truck == c.truck && r.zoom == c.zoom
    ensures e.OtherEvent? ==> r == c
    ensures IsUnit(c.dolly) && IsUnit(c.pan) ==> IsUnit(r.dolly) && IsUnit(r.pan)
  {
    match e
    case KeyDown(k) =>
      var dolly1 := if IsForward(k) then 1 else c.dolly;
      var dolly2 := if IsBackward(k) then -1 else dolly1;
      var pan1 := if IsLeft(k) then -1 else c.pan;
      var pan2 := if IsRight(k) then 1 else pan1;
      c.(dolly := dolly2, pan := pan2)
    case KeyUp(k) =>
      var dolly1 := if IsForward(k) && c.dolly > 0 then 0 else c.dolly;
      var dolly2 := if IsBackward(k) && dolly1 < 0 then 0 else dolly1;
      var pan1 := if IsLeft(k) && c.pan < 0 then 0 else c.pan;
      var pan2 := if IsRight(k) && pan1 > 0 then 0 else pan1;
      c.(dolly := dolly2, pan := pan2)
    case OtherEvent => c
  }

  // ---------------------------------------------------------------------------
  // A reference definition by key binding
  // ---------------------------------------------------------------------------

  datatype Axis = DollyAxis | PanAxis

  /** What a key is bound to: an axis and the direction it drives. */
  datatype Binding = Unbound | Bound(axis: Axis, direction: int)

  function BindingOf(k: Key): Binding {
    match k
    case Up => Bound(DollyAxis, 1)
    case KeyW => Bound(DollyAxis, 1)
    case Down => Bound(DollyAxis, -1)
    case KeyS => Bound(DollyAxis, -1)
    case Left => Bound(PanAxis, -1)
    case KeyA => Bound(PanAxis, -1)
    case Right => Bound(PanAxis, 1)
    case KeyD => Bound(PanAxis, 1)
    case OtherKey(_) => Unbound
  }

  function Speed(c: Camera, a: Axis): int {
    match a
    case DollyAxis => c.dolly
    case PanAxis => c.pan
  }

  function SetSpeed(c: Camera, a: Axis, v: int): Camera {
    match a
    case DollyAxis => c.(dolly := v)
    case PanAxis => c.(pan := v)
  }

  /** Press: the bound axis takes the key's direction. Release: the bound
      axis stops when it was moving in the key's direction. Nothing else
      changes. */
  function ByBinding(c: Camera, e: Event): Camera {
    match e
    case OtherEvent => c
    case KeyDown(k) =>
      (match BindingOf(k)
       case Unbound => c
       case Bound(a, d) => SetSpeed(c, a, d))
    case KeyUp(k) =>
      (match BindingOf(k)
       case Unbound => c
       case Bound(a, d) => if Speed(c, a) * d > 0 then SetSpeed(c, a, 0) else c)
  }

  /** The handler of the source is the binding-table behaviour, for every
      state and every event. */
  lemma HandleEventIsByBinding(c: Camera, e: Event)
    ensures HandleEvent(c, e) == ByBinding(c, e)
  {
    match e
    case OtherEvent =>
    case KeyDown(k) =>
    case KeyUp(k) =>
  }

  /** Key-down sets the bound axis to the key's direction and leaves the
      other axis alone. */
  lemma KeyDownSetsBoundAxis(c: Camera, k: Key)
    requires BindingOf(k).Bound?
    ensures Speed(HandleEvent(c, KeyDown(k)), BindingOf(k).axis) == BindingOf(k).direction
    ensures forall a :: a != BindingOf(k).axis ==> Speed(HandleEvent(c, KeyDown(k)), a) == Speed(c, a)
  {
    HandleEventIsByBinding(c, KeyDown(k));
  }

  /** Key-up stops the bound axis exactly when it was moving in the key's
      direction; otherwise (the opposite key is held, or the axis is at
      rest) the axis keeps its speed. The other axis never changes. */
  lemma KeyUpStopsOnlyMatchingDirection(c: Camera, k: Key)
    requires BindingOf(k).Bound?
    ensures
      var a := BindingOf(k).axis;
      var d := BindingOf(k).direction;
      Speed(HandleEvent(c, KeyUp(k)), a) == (if Speed(c, a) * d > 0 then 0 else Speed(c, a))
    ensures forall a :: a != BindingOf(k).axis ==> Speed(HandleEvent(c, KeyUp(k)), a) == Speed(c, a)
  {
    HandleEventIsByBinding(c, KeyUp(k));
  }

  /** Keys that are bound to nothing change nothing. */
  lemma UnboundKeysIgnored(c: Camera, k: Key)
    requires BindingOf(k).Unbound?
    ensures HandleEvent(c, KeyDown(k)) == c && HandleEvent(c, KeyUp(k)) == c
  {
    HandleEventIsByBinding(c, KeyDown(k));
    HandleEventIsByBinding(c, KeyUp(k));
  }

  /** Pressing and releasing a bound key brings its axis back to rest and
      leaves everything else as it was before the press. */
  lemma PressReleaseStops(c: Camera, k: Key)
    requires BindingOf(k).Bound?
    ensures
      var after := HandleEvent(HandleEvent(c, KeyDown(k)), KeyUp(k));
      after == SetSpeed(c, BindingOf(k).axis, 0)
  {
    HandleEventIsByBinding(c, KeyDown(k));
    HandleEventIsByBinding(HandleEvent(c, KeyDown(k)), KeyUp(k));
  }

  /** A whole stream of events, handled in order. */
  function Run(c: Camera, events: seq<Event>): Camera
    decreases |events|
  {
    if events == [] then c else Run(HandleEvent(c, events[0]), events[1..])
  }

  /** From the initial state, any stream of events keeps both speeds in
      {-1, 0, 1} and never changes the truck speed or the zoom. */
  lemma {:induction false} RunKeepsUnitSpeeds(c: Camera, events: seq<Event>)
    requires IsUnit(c.dolly) && IsUnit(c.pan)
    ensures IsUnit(Run(c, events).dolly) && IsUnit(Run(c, events).pan)
    ensures Run(c, events).truck == c.truck && Run(c, events).zoom == c.zoom
    decreases |events|
  {
    if events != [] {
      RunKeepsUnitSpeeds(HandleEvent(c, events[0]), events[1..]);
    }
  }

  lemma InitialRunsStayUnit(events: seq<Event>)
    ensures IsUnit(Run(Initial, events).dolly) && IsUnit(Run(Initial, events).pan)
    ensures Run(Initial, events).truck == 0 && Run(Initial, events).zoom == 0.0
  {
    RunKeepsUnitSpeeds(Initial, events);
  }
}
