/**
 Event sequences for the crop-frame state machine. The component handles
 events one at a time, in arrival order, each to completion; `Run` folds
 `Step` over a sequence and the lemmas here state what holds across a
 whole drag session.
 */
module CropSession {
  import opened CropFrame

  /** An event that turns on an adjusting flag. */
  predicate Grabs(e: Event) {
    e.MouseDown? && (e.direction == HorizontalGrip || e.direction == VerticalGrip)
  }

  /** No event of the sequence presses a grip. */
  predicate NoGrab(evs: seq<Event>) {
    forall i :: 0 <= i < |evs| ==> !Grabs(evs[i])
  }

  /** No event of the sequence presses the height grip. */
  predicate NoVerticalGrab(evs: seq<Event>) {
    forall i :: 0 <= i < |evs| ==> evs[i] != MouseDown(VerticalGrip)
  }

  /** Every move of the sequence sees a container no wider than `w` and no
      taller than `h`. */
  predicate ContainerWithin(evs: seq<Event>, w: real, h: real) {
    forall i :: 0 <= i < |evs| && evs[i].MouseMove? ==>
      evs[i].pointer.offsetWidth <= w && evs[i].pointer.offsetHeight <= h
  }

  /** The state after handling the events in order. A sequence that ends
      with a release leaves both grips released. */
  function Run(s: State, evs: seq<Event>): (r: State)
    ensures |evs| > 0 && evs[|evs| - 1] == MouseUp ==> IsIdle(r)
    decreases |evs|
  {
    if |evs| == 0 then s else Run(Step(s, evs[0]), evs[1..])
  }

  /** Handling two sequences one after the other is handling their
      concatenation. */
  lemma {:induction false} RunAppend(s: State, a: seq<Event>, b: seq<Event>)
    ensures Run(s, a + b) == Run(Run(s, a), b)
    decreases |a|
  {
    if |a| == 0 {
      assert a + b == b;
    } else {
      assert (a + b)[1..] == a[1..] + b;
      RunAppend(Step(s, a[0]), a[1..], b);
    }
  }

  /** Releasing the mouse at the end of a session twice has the same effect
      as releasing it once. */
  lemma RunMouseUpIdempotent(s: State, evs: seq<Event>)
    ensures Run(s, evs + [MouseUp, MouseUp]) == Run(s, evs + [MouseUp])
  {
    RunAppend(s, evs, [MouseUp, MouseUp]);
    RunAppend(s, evs, [MouseUp]);
  }

  /** With both grips released, no sequence of moves, releases and presses
      of unknown direction codes changes anything. */
  lemma {:induction false} IdleWithoutGrabIsStable(s: State, evs: seq<Event>)
    requires IsIdle(s) && NoGrab(evs)
    ensures Run(s, evs) == s
    decreases |evs|
  {
    if |evs| > 0 {
      assert !Grabs(evs[0]);
      assert Step(s, evs[0]) == s;
      IdleWithoutGrabIsStable(s, evs[1..]);
    }
  }

  /** The height changes only while the height grip is held: from a state
      without vertical adjustment, a sequence that never presses the height
      grip keeps the height. */
  lemma {:induction false} HeightNeedsVerticalGrip(s: State, evs: seq<Event>)
    requires !s.verticalAdjustment && NoVerticalGrab(evs)
    ensures Run(s, evs).height == s.height
    ensures !Run(s, evs).verticalAdjustment
    decreases |evs|
  {
    if |evs| > 0 {
      assert evs[0] != MouseDown(VerticalGrip);
      HeightNeedsVerticalGrip(Step(s, evs[0]), evs[1..]);
    }
  }

  /** If the frame starts strictly inside a bound and the container never
      grows past it, the frame stays strictly inside it: every written size
      is below the container's offset size at its event. */
  lemma {:induction false} RunStaysBelowContainer(s: State, evs: seq<Event>, w: real, h: real)
    requires s.width < w && s.height < h
    requires ContainerWithin(evs, w, h)
    ensures Run(s, evs).width < w && Run(s, evs).height < h
    decreases |evs|
  {
    if |evs| > 0 {
      var t := Step(s, evs[0]);
      assert t.width < w && t.height < h by {
        if evs[0].MouseMove? {
          assert evs[0].pointer.offsetWidth <= w && evs[0].pointer.offsetHeight <= h;
        }
      }
      assert ContainerWithin(evs[1..], w, h) by {
        forall i | 0 <= i < |evs[1..]| && evs[1..][i].MouseMove?
          ensures evs[1..][i].pointer.offsetWidth <= w && evs[1..][i].pointer.offsetHeight <= h
        {
          assert evs[1..][i] == evs[i + 1];
        }
      }
      RunStaysBelowContainer(t, evs[1..], w, h);
    }
  }

  /** Every height after a session is either the starting height or the
      height proposed by a move of the session whose guard accepted it. */
  lemma {:induction false} HeightProvenance(s: State, evs: seq<Event>)
    ensures Run(s, evs).height == s.height ||
            exists i :: 0 <= i < |evs| && evs[i].MouseMove? &&
              HeightAccepted(evs[i].pointer) &&
              Run(s, evs).height == ProposedHeight(evs[i].pointer)
    decreases |evs|
  {
    if |evs| > 0 {
      var t := Step(s, evs[0]);
      HeightProvenance(t, evs[1..]);
      if Run(s, evs).height != t.height {
        var j :| 0 <= j < |evs[1..]| && evs[1..][j].MouseMove? &&
          HeightAccepted(evs[1..][j].pointer) &&
          Run(t, evs[1..]).height == ProposedHeight(evs[1..][j].pointer);
        assert evs[1..][j] == evs[j + 1];
      } else if t.height != s.height {
        assert evs[0].MouseMove? && HeightAccepted(evs[0].pointer);
      }
    }
  }

  /** Every width after a session is either the starting width or the
      width proposed by a move of the session whose guard accepted it. */
  lemma {:induction false} WidthProvenance(s: State, evs: seq<Event>)
    ensures Run(s, evs).width == s.width ||
            exists i :: 0 <= i < |evs| && evs[i].MouseMove? &&
              WidthAccepted(evs[i].pointer) &&
              Run(s, evs).width == ProposedWidth(evs[i].pointer)
    decreases |evs|
  {
    if |evs| > 0 {
      var t := Step(s, evs[0]);
      WidthProvenance(t, evs[1..]);
      if Run(s, evs).width != t.width {
        var j :| 0 <= j < |evs[1..]| && evs[1..][j].MouseMove? &&
          WidthAccepted(evs[1..][j].pointer) &&
          Run(t, evs[1..]).width == ProposedWidth(evs[1..][j].pointer);
        assert evs[1..][j] == evs[j + 1];
      } else if t.width != s.width {
        assert evs[0].MouseMove? && WidthAccepted(evs[0].pointer);
      }
    }
  }

  /** From the mounted state, pressing the height grip and moving the
      pointer above the container's top edge yields a negative height. */
  lemma DragAboveTopFromInit(p: Pointer)
    requires 0.0 < p.offsetHeight && p.clientY < p.top
    ensures Run(Init(), [MouseDown(VerticalGrip), MouseMove(p)]).height < 0.0
    ensures Run(Init(), [MouseDown(VerticalGrip), MouseMove(p)]).width == InitialSize
  {
    var evs := [MouseDown(VerticalGrip), MouseMove(p)];
    var grabbed := HandleMouseDown(Init(), VerticalGrip);
    assert evs[1..] == [MouseMove(p)];
    assert [MouseMove(p)][1..] == [];
    assert Run(Init(), evs) == Run(grabbed, [MouseMove(p)]);
    assert Run(grabbed, [MouseMove(p)]) == HandleMouseMove(grabbed, p);
  }
}
