/**
 Properties of single events of the crop-frame state machine: what a grip
 press, a release and a move each change, the guards restated in terms of
 where the pointer is, and the absence of any lower bound on a written size.
 */
module CropFrameFacts {
  import opened CropFrame

  /** The pointer that, in the same container, makes a horizontal drag
      propose width `w`: the frame is centred, so its right edge sits at
      the centre plus half the width. */
  function PointerForWidth(p: Pointer, w: real): (q: Pointer)
    ensures q.offsetWidth == p.offsetWidth && q.offsetHeight == p.offsetHeight
    ensures q.left == p.left && q.top == p.top
  {
    p.(clientX := p.left + p.offsetWidth / 2.0 + w / 2.0)
  }

  /** The pointer that, in the same container, makes a vertical drag
      propose height `h`: the frame's bottom edge sits `h` below the top. */
  function PointerForHeight(p: Pointer, h: real): (q: Pointer)
    ensures q.offsetWidth == p.offsetWidth && q.offsetHeight == p.offsetHeight
    ensures q.left == p.left && q.top == p.top
  {
    p.(clientY := p.top + h)
  }

  /** A grip press followed by a release is the same as the release alone:
      a press only ever sets a flag, and the release clears both. */
  lemma MouseDownThenUp(s: State, direction: real)
    ensures HandleMouseUp(HandleMouseDown(s, direction)) == HandleMouseUp(s)
  {
  }

  /** Pressing the width grip sets only the horizontal flag, pressing the
      height grip sets only the vertical flag, and any other direction code
      leaves the state as it was. */
  lemma MouseDownTouchesOnlyItsFlag(s: State, direction: real)
    ensures direction == HorizontalGrip ==>
              HandleMouseDown(s, direction) == s.(horizontalAdjustment := true)
    ensures direction == VerticalGrip ==>
              HandleMouseDown(s, direction) == s.(verticalAdjustment := true)
    ensures direction != HorizontalGrip && direction != VerticalGrip ==>
              HandleMouseDown(s, direction) == s
  {
  }

  /** Releasing twice is the same as releasing once. */
  lemma MouseUpIdempotent(s: State)
    ensures HandleMouseUp(HandleMouseUp(s)) == HandleMouseUp(s)
  {
  }

  /** The height guard accepts exactly when the pointer is above the
      container's bottom edge and the container has positive height; then
      the new height is the pointer's distance below the top edge, and
      otherwise the height is kept. The vertical branch never touches the
      width. */
  lemma VerticalMove(s: State, p: Pointer)
    requires s.verticalAdjustment
    ensures p.clientY < p.top + p.offsetHeight && 0.0 < p.offsetHeight ==>
              HandleMouseMove(s, p).height == p.clientY - p.top
    ensures !(p.clientY < p.top + p.offsetHeight && 0.0 < p.offsetHeight) ==>
              HandleMouseMove(s, p).height == s.height
    ensures !s.horizontalAdjustment ==> HandleMouseMove(s, p).width == s.width
  {
  }

  /** The width guard accepts exactly when the pointer is left of the
      container's right edge and the container has positive width; then
      the new width is twice the pointer's distance right of the centre,
      and otherwise the width is kept. The horizontal branch never touches
      the height. */
  lemma HorizontalMove(s: State, p: Pointer)
    requires s.horizontalAdjustment
    ensures p.clientX < p.left + p.offsetWidth && 0.0 < p.offsetWidth ==>
              HandleMouseMove(s, p).width == 2.0 * (p.clientX - p.left) - p.offsetWidth
    ensures !(p.clientX < p.left + p.offsetWidth && 0.0 < p.offsetWidth) ==>
              HandleMouseMove(s, p).width == s.width
    ensures !s.verticalAdjustment ==> HandleMouseMove(s, p).height == s.height
  {
  }

  /** With both grips held, one move updates each dimension exactly as a
      move with only that grip held would: the two guards are independent. */
  lemma BothGripsIndependent(s: State, p: Pointer)
    requires s.verticalAdjustment && s.horizontalAdjustment
    ensures HandleMouseMove(s, p).height
            == HandleMouseMove(s.(horizontalAdjustment := false), p).height
    ensures HandleMouseMove(s, p).width
            == HandleMouseMove(s.(verticalAdjustment := false), p).width
  {
  }

  /** A pointer above the container's top edge, during a vertical drag in a
      container of positive height, is accepted and writes a negative
      height: the guard has no lower bound. */
  lemma NegativeHeightAccepted(s: State, p: Pointer)
    requires s.verticalAdjustment && 0.0 < p.offsetHeight && p.clientY < p.top
    ensures HandleMouseMove(s, p).height < 0.0
    ensures HandleMouseMove(s, p).height == p.clientY - p.top
  {
  }

  /** A pointer left of the container's centre, during a horizontal drag in
      a container of positive width, is accepted and writes a negative
      width. */
  lemma NegativeWidthAccepted(s: State, p: Pointer)
    requires s.horizontalAdjustment && 0.0 < p.offsetWidth
    requires p.clientX < p.left + p.offsetWidth / 2.0
    ensures HandleMouseMove(s, p).width < 0.0
    ensures HandleMouseMove(s, p).width == ProposedWidth(p)
  {
  }

  /** The pointer that proposes a width, and the width a pointer proposes,
      are inverse to each other. */
  lemma WidthPointerRoundTrip(p: Pointer, w: real)
    ensures ProposedWidth(PointerForWidth(p, w)) == w
    ensures PointerForWidth(p, ProposedWidth(p)) == p
  {
  }

  /** The pointer that proposes a height, and the height a pointer proposes,
      are inverse to each other. */
  lemma HeightPointerRoundTrip(p: Pointer, h: real)
    ensures ProposedHeight(PointerForHeight(p, h)) == h
    ensures PointerForHeight(p, ProposedHeight(p)) == p
  {
  }

  /** In a container of positive width, a horizontal drag can write a width
      exactly when it is below the container's offset width: every such
      width, however negative, is written by some pointer, and no other
      width is. */
  lemma WritableWidths(s: State, p: Pointer, w: real)
    requires s.horizontalAdjustment && 0.0 < p.offsetWidth && w != s.width
    ensures w < p.offsetWidth ==> HandleMouseMove(s, PointerForWidth(p, w)).width == w
    ensures HandleMouseMove(s, p).width == w ==> w < p.offsetWidth
  {
    WidthPointerRoundTrip(p, w);
  }

  /** In a container of positive height, a vertical drag can write a height
      exactly when it is below the container's offset height. */
  lemma WritableHeights(s: State, p: Pointer, h: real)
    requires s.verticalAdjustment && 0.0 < p.offsetHeight && h != s.height
    ensures h < p.offsetHeight ==> HandleMouseMove(s, PointerForHeight(p, h)).height == h
    ensures HandleMouseMove(s, p).height == h ==> h < p.offsetHeight
  {
    HeightPointerRoundTrip(p, h);
  }
}
