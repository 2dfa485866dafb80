# Image crop frame: resize state machine

A Dafny model of the crop-frame resize logic of `ImageCropComponent`
(`src/blocks/utils/ImageCropComponent.tsx`). The component keeps the frame's
`width` and `height` (both 300 when it mounts) and two adjusting flags, one
for the width grip and one for the height grip. Three mouse handlers drive
it:

- a press on a grip (`handleMouseDown` with direction 0 or 1) turns on that
  grip's flag;
- a release (`handleMouseUp`) turns both flags off;
- a move (`handleMouseMove`) writes, for each flag that is on, a new size
  computed from the pointer and the container element's bounding box, if
  that size passes a guard against the container's offset size.

The model is a pure state machine: `CropFrame.State` holds the four pieces
of state, `CropFrame.Event` is a press (with its direction code), a release
or a move, and `CropFrame.Step` applies one event. A move event carries the
DOM readings the handler makes (`clientX`, `clientY`, the bounding box's
`top` and `left`, `offsetWidth`, `offsetHeight`) as fields of
`CropFrame.Pointer`. Numbers are exact `real`s.

Modules:

- `CropFrame` (`crop_frame.dfy`): state, events, the three handlers and `Step`.
- `CropFrameFacts` (`crop_frame_facts.dfy`): single-event properties, the
  guards restated as pointer positions, the pointer/size inverses, and the
  missing lower bound.
- `CropSession` (`crop_session.dfy`): `Run` folds `Step` over an event
  sequence; properties of whole drag sessions.

The guards compare the new size with the container's offset size and
check that offset size is positive, but never bound the new size from below.
A written size is therefore strictly below the container's size, with no
lower bound. A pointer above the container's top edge writes a negative
height. A pointer left of the container's centre writes a negative width.
The model keeps this behaviour and states it
(`CropFrameFacts.NegativeHeightAccepted`, `CropFrameFacts.NegativeWidthAccepted`,
`CropSession.DragAboveTopFromInit`).

## Model

| member | source | states |
|---|---|---|
| CropFrame.Init | src/blocks/utils/ImageCropComponent.tsx:17-20 | the mounted component has width and height 300 and neither grip held |
| CropFrame.HandleMouseDown | src/blocks/utils/ImageCropComponent.tsx:24-32 | a press never changes the size; afterwards the horizontal flag is on iff it was on or the direction is 0, and the vertical flag is on iff it was on or the direction is 1 |
| CropFrame.HandleMouseUp | src/blocks/utils/ImageCropComponent.tsx:34-37 | a release leaves both grips released and the size unchanged |
| CropFrame.HandleMouseMove | src/blocks/utils/ImageCropComponent.tsx:39-62 | a move never changes the flags; with no grip held it changes nothing; a height that changes was written under vertical adjustment, equals the pointer's distance below the top edge and is below the offset height; likewise for width under horizontal adjustment, below the offset width |
| CropFrame.Step | src/blocks/utils/ImageCropComponent.tsx:65-129 | the container's mouse-move and mouse-up bindings and the grips' presses with codes 0 and 1 dispatch to the handlers: a press never changes the size, and afterwards the horizontal flag is on iff it was on or the code is 0, the vertical flag iff it was on or the code is 1; a release leaves both grips released and keeps the size; a move never changes the flags, changes nothing with no grip held, and a size it changes was written under that size's grip, equals the pointer's proposed size and is below the container's offset size |
| CropFrameFacts.MouseDownThenUp | src/blocks/utils/ImageCropComponent.tsx:24-37 | a press followed by a release has the same effect as the release alone |
| CropFrameFacts.MouseDownTouchesOnlyItsFlag | src/blocks/utils/ImageCropComponent.tsx:24-32 | direction 0 sets only the horizontal flag, direction 1 only the vertical flag, any other code leaves the state unchanged |
| CropFrameFacts.MouseUpIdempotent | src/blocks/utils/ImageCropComponent.tsx:34-37 | releasing twice equals releasing once |
| CropFrameFacts.VerticalMove | src/blocks/utils/ImageCropComponent.tsx:44-51 | under vertical adjustment the height becomes `clientY - top` exactly when the pointer is above the container's bottom edge and the offset height is positive, and is kept otherwise; this branch leaves the width alone |
| CropFrameFacts.HorizontalMove | src/blocks/utils/ImageCropComponent.tsx:53-60 | under horizontal adjustment the width becomes `2 * (clientX - left) - offsetWidth` exactly when the pointer is left of the container's right edge and the offset width is positive, and is kept otherwise; this branch leaves the height alone |
| CropFrameFacts.BothGripsIndependent | src/blocks/utils/ImageCropComponent.tsx:44-60 | with both grips held, one move updates each dimension exactly as a move with only that grip held |
| CropFrameFacts.NegativeHeightAccepted | src/blocks/utils/ImageCropComponent.tsx:46-50 | a pointer above the top edge, in a container of positive height, is accepted and writes a negative height |
| CropFrameFacts.NegativeWidthAccepted | src/blocks/utils/ImageCropComponent.tsx:55-59 | a pointer left of the centre, in a container of positive width, is accepted and writes a negative width |
| CropFrameFacts.WidthPointerRoundTrip | src/blocks/utils/ImageCropComponent.tsx:55 | the width a pointer proposes and the pointer position that proposes a width are inverse maps |
| CropFrameFacts.HeightPointerRoundTrip | src/blocks/utils/ImageCropComponent.tsx:46 | the height a pointer proposes and the pointer position that proposes a height are inverse maps |
| CropFrameFacts.WritableWidths | src/blocks/utils/ImageCropComponent.tsx:53-60 | in a container of positive width, a horizontal drag can write a new width iff it is below the offset width |
| CropFrameFacts.WritableHeights | src/blocks/utils/ImageCropComponent.tsx:44-51 | in a container of positive height, a vertical drag can write a new height iff it is below the offset height |
| CropSession.Run | src/blocks/utils/ImageCropComponent.tsx:34-37 | a session whose last event is a release ends with both grips released |
| CropSession.RunAppend | src/blocks/utils/ImageCropComponent.tsx:24-62 | events are handled one at a time in order: running two sequences in turn equals running their concatenation |
| CropSession.RunMouseUpIdempotent | src/blocks/utils/ImageCropComponent.tsx:34-37 | ending any session with two releases equals ending it with one |
| CropSession.IdleWithoutGrabIsStable | src/blocks/utils/ImageCropComponent.tsx:24-62 | with no grip held, a sequence that never presses a grip changes nothing |
| CropSession.HeightNeedsVerticalGrip | src/blocks/utils/ImageCropComponent.tsx:28-51 | without vertical adjustment and without a press of the height grip, the height never changes and the vertical flag stays off |
| CropSession.RunStaysBelowContainer | src/blocks/utils/ImageCropComponent.tsx:44-60 | if the frame starts below a bound and no move sees a larger container, the frame is strictly below that bound at the end of every such session |
| CropSession.HeightProvenance | src/blocks/utils/ImageCropComponent.tsx:44-51 | the height after a session is the starting height or the proposed height of a move in the session that passed the guard |
| CropSession.WidthProvenance | src/blocks/utils/ImageCropComponent.tsx:53-60 | the width after a session is the starting width or the proposed width of a move in the session that passed the guard |
| CropSession.DragAboveTopFromInit | src/blocks/utils/ImageCropComponent.tsx:17-51 | from the mounted state, pressing the height grip and moving above the top edge gives a negative height and keeps width 300 |

## Left out

- JSX layout and inline styles (`ImageCropComponent.tsx:65-152`): presentation only. The handler bindings in that block are modelled, not left out: `onMouseMove` and `onMouseUp` on the container (:68-69) and the grips' direction codes 0 and 1 (:108, :129) are `CropFrame.Step` with the constants `HorizontalGrip` and `VerticalGrip`.
- React hooks, the `dragGrip` ref, `getBoundingClientRect` and `e.preventDefault()`. The DOM readings become fields of the move event. The `rect!`/`target!` assertions are taken to succeed: the handlers run only while the container is mounted.
- React's asynchronous state batching and stale closures. Each handler is one atomic step that sees the state left by the previous one.
- JavaScript floating point: numbers are exact reals. The division `offsetWidth / 2` is exact, and there is no NaN or infinity. The direction code is a real, so `=== 0` and `=== 1` are real equality.
- Props that are declared but unused (`image`, `isFixedAspectRatio`, `AspectRatio`, `fillCropArea`, `maximumRatio`, `minimumRatio`, `onUpdate`) and the unused `Height` import: they do not affect behaviour.
- Aspect-ratio presets and minimum/maximum ratio limits, which the unused props `AspectRatio`, `minimumRatio` and `maximumRatio` suggest: no code in the component acts on them.
