/**
 * The UI wiring: each `Session` event calls the handler the layout
 * attaches to it, on the objects of canvas.dfy. The handlers are proved to
 * change the objects exactly as `Session.Step` changes a value, so the
 * trace lemmas of session.dfy hold for the objects too.
 */
module Dispatch {
  import opened Segments
  import opened Canvas
  import Session

  /** The objects' state, with the drag detector's phase beside it. */
  function Snapshot<P>(st: State<P>, strokeNumber: int32, dragging: bool): Session.AppState<P>
    reads st
  {
    Session.AppState(st.strokes, st.redoStrokes, st.currentColor, st.currentWidth, st.isEraser, strokeNumber, dragging)
  }

  /**
   * One event: the palette, slider and buttons call the `State` setters
   * and the Undo and Redo handlers, the drag detector calls the canvas's
   * drag callbacks. A cancelled drag calls nothing.
   */
  method Handle<P>(st: State<P>, cv: MyCanvas<P>, e: Session.Event<P>, ghost dragging: bool) returns (ghost dragging': bool)
    requires cv.state == st
    modifies st, cv
    ensures Snapshot(st, cv.strokeNumber, dragging') ==
            Session.Step(old(Snapshot(st, cv.strokeNumber, dragging)), e)
  {
    dragging' := dragging;
    match e
    case DragStart =>
      cv.OnDragStart();
      dragging' := true;
    case Drag(a, b) =>
      ghost var before := st.strokes;
      cv.OnDrag(a, b);
      assert st.strokes == before + [Last(st.strokes)];
    case DragEnd =>
      cv.OnDragEnd();
      dragging' := false;
    case DragCancel =>
      dragging' := false;
    case UndoClick =>
      st.Undo();
    case RedoClick =>
      st.Redo();
    case ColorPicked(c) =>
      st.SelectColor(c);
    case EraserClick =>
      st.SelectEraser();
    case SizePicked(w) =>
      st.SelectWidth(w);
  }

  /**
   * A sequence of events handled one after another leaves the objects in
   * `Session.Run` of the old state. From a good state, along an order the
   * UI can produce whose drag ends do not overflow the counter, the stroke
   * ids of the objects' history therefore stay ordered.
   */
  method HandleAll<P>(st: State<P>, cv: MyCanvas<P>, es: seq<Session.Event<P>>, ghost dragging: bool)
    returns (ghost dragging': bool)
    requires cv.state == st
    modifies st, cv
    ensures Snapshot(st, cv.strokeNumber, dragging') ==
            Session.Run(old(Snapshot(st, cv.strokeNumber, dragging)), es)
    ensures var s0 := old(Snapshot(st, cv.strokeNumber, dragging));
            Session.Good(s0) && Session.AdmissibleRun(s0, es) && s0.strokeNumber as int + Session.DragEnds(es) <= INT32_MAX as int ==>
            Session.Good(Snapshot(st, cv.strokeNumber, dragging'))
  {
    ghost var s0 := Snapshot(st, cv.strokeNumber, dragging);
    dragging' := dragging;
    var i := 0;
    while i < |es|
      invariant 0 <= i <= |es|
      invariant Snapshot(st, cv.strokeNumber, dragging') == Session.Run(s0, es[..i])
    {
      dragging' := Handle(st, cv, es[i], dragging');
      Session.RunSplit(s0, es[..i], [es[i]]);
      Session.RunOne(Session.Run(s0, es[..i]), es[i]);
      assert es[..i] + [es[i]] == es[..i + 1];
      i := i + 1;
    }
    assert es[..i] == es;
    if Session.Good(s0) && Session.AdmissibleRun(s0, es) && s0.strokeNumber as int + Session.DragEnds(es) <= INT32_MAX as int {
      Session.RunKeepsGood(s0, es);
    }
  }
}
