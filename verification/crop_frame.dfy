/**
 The crop-frame resize state machine of the image crop component.

 The component keeps four pieces of state: the frame's width and height
 (both 300 at mount) and two "adjusting" flags, one per drag grip. Three
 mouse handlers change that state. The DOM readings a move handler takes
 from the container element (pointer position, bounding-box top/left,
 offset width/height) are carried by the move event itself, so every
 handler is a pure function from state to state. Numbers are exact reals.
 */
module CropFrame {

  /** Size of both frame dimensions when the component mounts. */
  const InitialSize: real := 300.0

  /** Direction code passed by the width grip. */
  const HorizontalGrip: real := 0.0

  /** Direction code passed by the height grip. */
  const VerticalGrip: real := 1.0

  /** The component's state: frame size and the two adjusting flags. */
  datatype State = State(
    width: real,
    height: real,
    verticalAdjustment: bool,
    horizontalAdjustment: bool)

  /** What one mouse-move event observes: the pointer position and the
      container's bounding box and offset size at that moment. */
  datatype Pointer = Pointer(
    clientX: real,
    clientY: real,
    top: real,
    left: real,
    offsetWidth: real,
    offsetHeight: real)

  /** The inputs the component reacts to. */
  datatype Event =
    | MouseDown(direction: real)
    | MouseUp
    | MouseMove(pointer: Pointer)

  /** Neither grip is being dragged. */
  predicate IsIdle(s: State) {
    !s.verticalAdjustment && !s.horizontalAdjustment
  }

  /** The state a freshly mounted component starts in. */
  function Init(): (s: State)
    ensures IsIdle(s)
    ensures s.width == s.height == InitialSize
  {
    State(InitialSize, InitialSize, false, false)
  }

  /** Pressing a grip: the width grip turns on horizontal adjustment, the
      height grip turns on vertical adjustment, any other code does nothing. */
  function HandleMouseDown(s: State, direction: real): (r: State)
    ensures r.width == s.width && r.height == s.height
    ensures r.horizontalAdjustment <==> s.horizontalAdjustment || direction == HorizontalGrip
    ensures r.verticalAdjustment <==> s.verticalAdjustment || direction == VerticalGrip
  {
    var h := if direction == HorizontalGrip then s.(horizontalAdjustment := true) else s;
    if direction == VerticalGrip then h.(verticalAdjustment := true) else h
  }

  /** Releasing the mouse ends both adjustments and keeps the frame size. */
  function HandleMouseUp(s: State): (r: State)
    ensures IsIdle(r)
    ensures r.width == s.width && r.height == s.height
  {
    s.(verticalAdjustment := false, horizontalAdjustment := false)
  }

  /** The height a vertical drag proposes: the pointer's distance below the
      container's top edge. */
  function ProposedHeight(p: Pointer): (h: real) {
    p.clientY - p.top
  }

  /** The width a horizontal drag proposes: twice the pointer's distance to
      the right of the container's horizontal centre, so that the centred
      frame's right edge follows the pointer. */
  function ProposedWidth(p: Pointer): (w: real) {
    (p.clientX - (p.left + p.offsetWidth / 2.0)) * 2.0
  }

  /** The guard on a new height: it must be below the container's offset
      height, and that height must be positive. Nothing bounds it below. */
  predicate HeightAccepted(p: Pointer) {
    ProposedHeight(p) < p.offsetHeight && 0.0 < p.offsetHeight
  }

  /** The guard on a new width, shaped like the height guard. */
  predicate WidthAccepted(p: Pointer) {
    ProposedWidth(p) < p.offsetWidth && 0.0 < p.offsetWidth
  }

  /** Moving the mouse: each active adjustment writes its proposed size when
      its guard accepts it. The flags are never changed by a move. */
  function HandleMouseMove(s: State, p: Pointer): (r: State)
    ensures r.verticalAdjustment == s.verticalAdjustment
    ensures r.horizontalAdjustment == s.horizontalAdjustment
    ensures IsIdle(s) ==> r == s
    ensures r.height != s.height ==>
              s.verticalAdjustment && r.height == ProposedHeight(p) && r.height < p.offsetHeight
    ensures r.width != s.width ==>
              s.horizontalAdjustment && r.width == ProposedWidth(p) && r.width < p.offsetWidth
  {
    var v := if s.verticalAdjustment && HeightAccepted(p)
             then s.(height := ProposedHeight(p)) else s;
    if s.horizontalAdjustment && WidthAccepted(p)
    then v.(width := ProposedWidth(p)) else v
  }

  /** One event applied to the state: the container's move and release
      bindings, and the two grips' presses with their direction codes. */
  function Step(s: State, e: Event): (r: State)
    ensures e.MouseDown? ==> r.width == s.width && r.height == s.height
    ensures e.MouseDown? ==>
              (r.horizontalAdjustment <==> s.horizontalAdjustment || e.direction == HorizontalGrip) &&
              (r.verticalAdjustment <==> s.verticalAdjustment || e.direction == VerticalGrip)
    ensures e.MouseUp? ==> IsIdle(r) && r.width == s.width && r.height == s.height
    ensures e.MouseMove? ==>
              r.horizontalAdjustment == s.horizontalAdjustment &&
              r.verticalAdjustment == s.verticalAdjustment
    ensures e.MouseMove? && IsIdle(s) ==> r == s
    ensures e.MouseMove? && r.height != s.height ==>
              s.verticalAdjustment && r.height == ProposedHeight(e.pointer) &&
              r.height < e.pointer.offsetHeight
    ensures e.MouseMove? && r.width != s.width ==>
              s.horizontalAdjustment && r.width == ProposedWidth(e.pointer) &&
              r.width < e.pointer.offsetWidth
  {
    match e
    case MouseDown(d) => HandleMouseDown(s, d)
    case MouseUp => HandleMouseUp(s)
    case MouseMove(p) => HandleMouseMove(s, p)
  }
}
