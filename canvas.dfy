/**
 * The mutable state of the app and the handlers that change it: the global
 * `State` object (tool settings and the two segment lists, with the Undo
 * and Redo click handlers over them) and the canvas's drag callbacks,
 * which own the gesture counter `strokeNumber`.
 */
module Canvas {
  import opened Segments
  import opened Ledger

  class State<P> {
    var currentColor: Color
    var currentWidth: real
    var isEraser: bool
    var strokes: seq<BrushStroke<P>>
    var redoStrokes: seq<BrushStroke<P>>

    constructor ()
      ensures currentColor == Black && currentWidth == 7.5 && !isEraser
      ensures strokes == [] && redoStrokes == []
    {
      currentColor := Black;
      currentWidth := 7.5;
      isEraser := false;
      strokes := [];
      redoStrokes := [];
    }

    /** A palette colour is picked: it becomes the brush colour and the eraser is off. */
    method SelectColor(color: Color)
      modifies this
      ensures currentColor == color && !isEraser && currentWidth == old(currentWidth)
      ensures strokes == old(strokes) && redoStrokes == old(redoStrokes)
    {
      currentColor := color;
      isEraser := false;
    }

    /** The Eraser button: later segments are painted white; the brush colour is kept. */
    method SelectEraser()
      modifies this
      ensures isEraser && currentColor == old(currentColor) && currentWidth == old(currentWidth)
      ensures strokes == old(strokes) && redoStrokes == old(redoStrokes)
    {
      isEraser := true;
    }

    /** The size slider moved. */
    method SelectWidth(width: real)
      modifies this
      ensures currentWidth == width && currentColor == old(currentColor) && isEraser == old(isEraser)
      ensures strokes == old(strokes) && redoStrokes == old(redoStrokes)
    {
      currentWidth := width;
    }

    /**
     * The Undo button: when anything is drawn, pop the last segment onto
     * `redoStrokes`, then keep popping while the new last segment carries
     * the same stroke id.
     */
    method Undo()
      modifies this`strokes, this`redoStrokes
      ensures (strokes, redoStrokes) == Undone(old(strokes), old(redoStrokes))
      ensures currentColor == old(currentColor) && currentWidth == old(currentWidth)
      ensures isEraser == old(isEraser)
    {
      if |strokes| > 0 {
        var id := Last(strokes).strokeID;
        ghost var s0, r0 := strokes, redoStrokes;
        ghost var k := RunStart(s0[..|s0| - 1], id);
        RunStartIsMaximal(s0[..|s0| - 1], id);
        MoveNone(s0, r0);
        MoveStep(s0, r0, |s0|);
        redoStrokes := redoStrokes + [Last(strokes)];
        strokes := strokes[..|strokes| - 1];
        while |strokes| > 0 && Last(strokes).strokeID == id
          invariant k <= |strokes| < |s0|
          invariant (strokes, redoStrokes) == Move(s0, r0, |strokes|)
          decreases |strokes|
        {
          MoveStep(s0, r0, |strokes|);
          redoStrokes := redoStrokes + [Last(strokes)];
          strokes := strokes[..|strokes| - 1];
        }
        assert k == |strokes|;
      }
    }

    /**
     * The Redo button: when anything is undone, read the id of the FIRST
     * undone segment, pop the last undone segment onto `strokes`, then keep
     * popping while the new last undone segment carries that id.
     */
    method Redo()
      modifies this`strokes, this`redoStrokes
      ensures (strokes, redoStrokes) == Redone(old(strokes), old(redoStrokes))
      ensures currentColor == old(currentColor) && currentWidth == old(currentWidth)
      ensures isEraser == old(isEraser)
    {
      if |redoStrokes| > 0 {
        var id := redoStrokes[0].strokeID;
        ghost var s0, r0 := strokes, redoStrokes;
        ghost var j := RunStart(r0[..|r0| - 1], id);
        RunStartIsMaximal(r0[..|r0| - 1], id);
        MoveNone(r0, s0);
        MoveStep(r0, s0, |r0|);
        strokes := strokes + [Last(redoStrokes)];
        redoStrokes := redoStrokes[..|redoStrokes| - 1];
        while |redoStrokes| > 0 && Last(redoStrokes).strokeID == id
          invariant j <= |redoStrokes| < |r0|
          invariant (redoStrokes, strokes) == Move(r0, s0, |redoStrokes|)
          decreases |redoStrokes|
        {
          MoveStep(r0, s0, |redoStrokes|);
          strokes := strokes + [Last(redoStrokes)];
          redoStrokes := redoStrokes[..|redoStrokes| - 1];
        }
        assert j == |redoStrokes|;
      }
    }
  }

  /** The canvas's pointer-input handlers and the gesture counter they share. */
  class MyCanvas<P> {
    const state: State<P>
    var strokeNumber: int32

    constructor (state: State<P>)
      ensures this.state == state && strokeNumber == 0
    {
      this.state := state;
      strokeNumber := 0;
    }

    /** `onDragStart`: a new gesture discards everything that was undone. */
    method OnDragStart()
      modifies state
      ensures state.redoStrokes == [] && state.strokes == old(state.strokes)
      ensures state.currentColor == old(state.currentColor) && state.currentWidth == old(state.currentWidth)
      ensures state.isEraser == old(state.isEraser)
    {
      state.redoStrokes := [];
    }

    /**
     * `onDrag`: one segment from the previous to the current pointer
     * position, in the current tool settings, tagged with the current
     * gesture number, is appended to the drawn list.
     */
    method OnDrag(start: P, end: P)
      modifies state
      ensures |state.strokes| == |old(state.strokes)| + 1
      ensures state.strokes[..|old(state.strokes)|] == old(state.strokes)
      ensures Last(state.strokes) ==
        BrushStroke(start, end, PaintColor(old(state.currentColor), old(state.isEraser)),
                    old(state.currentWidth), strokeNumber)
      ensures state.redoStrokes == old(state.redoStrokes)
      ensures state.currentColor == old(state.currentColor) && state.currentWidth == old(state.currentWidth)
      ensures state.isEraser == old(state.isEraser)
    {
      var stroke := BrushStroke(start, end,
                                if state.isEraser then White else state.currentColor,
                                state.currentWidth, strokeNumber);
      state.strokes := state.strokes + [stroke];
    }

    /** `onDragEnd`: the next gesture gets the next number (Kotlin `Int` wrap-around included). */
    method OnDragEnd()
      modifies this
      ensures strokeNumber == Increment(old(strokeNumber))
      ensures old(strokeNumber) < INT32_MAX ==> strokeNumber == old(strokeNumber) + 1
    {
      if strokeNumber == INT32_MAX {
        strokeNumber := INT32_MIN;
      } else {
        strokeNumber := strokeNumber + 1;
      }
    }
  }
}
