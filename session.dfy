/**
 * The app as a whole, seen as a sequence of UI events: every button press,
 * slider move and drag callback, applied one at a time on the UI thread.
 * Each event does to an `AppState` value what the corresponding handler in
 * canvas.dfy does to the objects; `Dispatch.Handle` proves it.
 */
module Session {
  import opened Segments
  import opened Ledger

  datatype Event<P> =
    | DragStart
    | Drag(start: P, end: P)
    | DragEnd
    | DragCancel
    | UndoClick
    | RedoClick
    | ColorPicked(color: Color)
    | EraserClick
    | SizePicked(width: real)

  /**
   * Everything the handlers read or write. `dragging` is not a variable of
   * the app: it is the phase of the framework's drag detector, needed only
   * to say which event orders can occur.
   */
  datatype AppState<P> = AppState(
    strokes: seq<BrushStroke<P>>,
    redoStrokes: seq<BrushStroke<P>>,
    currentColor: Color,
    currentWidth: real,
    isEraser: bool,
    strokeNumber: int32,
    dragging: bool)

  /** State at launch: black brush of width 7.5, nothing drawn, gesture number 0. */
  function Initial<P>(): AppState<P>
  {
    AppState([], [], Black, 7.5, false, 0, false)
  }

  /**
   * One event. There is no drag-cancel handler, so a cancelled drag ends
   * the gesture without advancing `strokeNumber`.
   */
  function Step<P>(s: AppState<P>, e: Event<P>): (r: AppState<P>)
    ensures r.strokeNumber != s.strokeNumber ==> e.DragEnd?
    ensures |r.strokes| + |r.redoStrokes| > |s.strokes| + |s.redoStrokes| ==> e.Drag?
  {
    match e
    case DragStart => s.(redoStrokes := [], dragging := true)
    case Drag(a, b) =>
      s.(strokes := s.strokes + [BrushStroke(a, b, PaintColor(s.currentColor, s.isEraser), s.currentWidth, s.strokeNumber)])
    case DragEnd => s.(strokeNumber := Increment(s.strokeNumber), dragging := false)
    case DragCancel => s.(dragging := false)
    case UndoClick => var u := Undone(s.strokes, s.redoStrokes); s.(strokes := u.0, redoStrokes := u.1)
    case RedoClick => var r := Redone(s.strokes, s.redoStrokes); s.(strokes := r.0, redoStrokes := r.1)
    case ColorPicked(c) => s.(currentColor := c, isEraser := false)
    case EraserClick => s.(isEraser := true)
    case SizePicked(w) => s.(currentWidth := w)
  }

  function Run<P>(s: AppState<P>, es: seq<Event<P>>): AppState<P>
    decreases |es|
  {
    if |es| == 0 then s else Run(Step(s, es[0]), es[1..])
  }

  /**
   * The orders the UI can produce: the drag detector calls start, then
   * moves, then end or cancel; the buttons are pressed between gestures.
   */
  predicate Admissible<P>(s: AppState<P>, e: Event<P>)
  {
    match e
    case DragStart => !s.dragging
    case Drag(_, _) => s.dragging
    case DragEnd => s.dragging
    case DragCancel => s.dragging
    case UndoClick => !s.dragging
    case RedoClick => !s.dragging
    case _ => true
  }

  predicate AdmissibleRun<P>(s: AppState<P>, es: seq<Event<P>>)
    decreases |es|
  {
    |es| == 0 || (Admissible(s, es[0]) && AdmissibleRun(Step(s, es[0]), es[1..]))
  }

  /** Stroke ids along `t` never decrease and never exceed `n`. */
  ghost predicate IdsOrdered<P>(t: seq<BrushStroke<P>>, n: int32)
  {
    (forall i, j | 0 <= i <= j < |t| :: t[i].strokeID <= t[j].strokeID) &&
    (forall i | 0 <= i < |t| :: t[i].strokeID <= n)
  }

  /**
   * What every reachable session satisfies: ids are ordered along the
   * whole history, and during a gesture nothing is waiting to be redone.
   */
  ghost predicate Good<P>(s: AppState<P>)
  {
    IdsOrdered(Timeline(s.strokes, s.redoStrokes), s.strokeNumber) &&
    (s.dragging ==> s.redoStrokes == [])
  }

  lemma InitialIsGood<P>()
    ensures Good(Initial<P>())
  {
    assert Timeline<P>([], []) == [];
  }

  lemma {:induction false} StepKeepsGood<P>(s: AppState<P>, e: Event<P>)
    requires Good(s) && Admissible(s, e)
    requires e.DragEnd? ==> s.strokeNumber < INT32_MAX
    ensures Good(Step(s, e))
    ensures Step(s, e).strokeNumber as int == s.strokeNumber as int + if e.DragEnd? then 1 else 0
  {
    var t := Timeline(s.strokes, s.redoStrokes);
    match e
    case DragStart =>
      assert s.strokes == t[..|s.strokes|];
      assert Timeline(s.strokes, []) == s.strokes;
    case Drag(a, b) =>
      var x := BrushStroke(a, b, PaintColor(s.currentColor, s.isEraser), s.currentWidth, s.strokeNumber);
      assert t == s.strokes;
      assert Timeline(s.strokes + [x], []) == s.strokes + [x];
    case DragEnd =>
    case DragCancel =>
    case UndoClick =>
      UndonePreservesTimeline(s.strokes, s.redoStrokes);
    case RedoClick =>
      RedonePreservesTimeline(s.strokes, s.redoStrokes);
    case ColorPicked(_) =>
    case EraserClick =>
    case SizePicked(_) =>
  }

  /** The number of drag ends in `es`: how far the gesture counter advances. */
  function DragEnds<P>(es: seq<Event<P>>): nat
    decreases |es|
  {
    if |es| == 0 then 0 else (if es[0].DragEnd? then 1 else 0) + DragEnds(es[1..])
  }

  /**
   * Across any admissible sequence of events whose drag ends do not overflow
   * the gesture counter, the ids along drawn-then-undone segments stay
   * ordered and bounded by `strokeNumber`, which advances once per drag end.
   */
  lemma {:induction false} RunKeepsGood<P>(s: AppState<P>, es: seq<Event<P>>)
    requires Good(s) && AdmissibleRun(s, es)
    requires s.strokeNumber as int + DragEnds(es) <= INT32_MAX as int
    ensures Good(Run(s, es))
    ensures Run(s, es).strokeNumber as int == s.strokeNumber as int + DragEnds(es)
    decreases |es|
  {
    if |es| > 0 {
      StepKeepsGood(s, es[0]);
      RunKeepsGood(Step(s, es[0]), es[1..]);
    }
  }

  /** Undo and Redo move segments between the lists; none appears or disappears. */
  lemma {:induction false} UndoRedoKeepTimeline<P>(s: AppState<P>, es: seq<Event<P>>)
    requires forall i | 0 <= i < |es| :: es[i].UndoClick? || es[i].RedoClick?
    ensures Timeline(Run(s, es).strokes, Run(s, es).redoStrokes) == Timeline(s.strokes, s.redoStrokes)
    ensures Run(s, es).strokeNumber == s.strokeNumber
    decreases |es|
  {
    if |es| > 0 {
      if es[0].UndoClick? {
        UndonePreservesTimeline(s.strokes, s.redoStrokes);
      } else {
        RedonePreservesTimeline(s.strokes, s.redoStrokes);
      }
      UndoRedoKeepTimeline(Step(s, es[0]), es[1..]);
    }
  }

  /** Two one-segment gestures, the first cancelled: both segments carry id 0. */
  lemma CancelledThenEnded<P>(a: P, b: P, c: P, d: P)
    ensures Run(Initial(), [DragStart, Drag(a, b), DragCancel, DragStart, Drag(c, d), DragEnd])
            == Initial().(strokes := [BrushStroke(a, b, Black, 7.5, 0), BrushStroke(c, d, Black, 7.5, 0)], strokeNumber := 1)
  {
    var s0: AppState<P> := Initial();
    RunSix(s0, [DragStart, Drag(a, b), DragCancel, DragStart, Drag(c, d), DragEnd]);
    var s3 := s0.(strokes := [BrushStroke(a, b, Black, 7.5, 0)]);
    assert Step(Step(Step(s0, DragStart), Drag(a, b)), DragCancel) == s3;
  }

  /** Two one-segment gestures, both ended: the segments carry ids 0 and 1. */
  lemma EndedThenEnded<P>(a: P, b: P, c: P, d: P)
    ensures Run(Initial(), [DragStart, Drag(a, b), DragEnd, DragStart, Drag(c, d), DragEnd])
            == Initial().(strokes := [BrushStroke(a, b, Black, 7.5, 0), BrushStroke(c, d, Black, 7.5, 1)], strokeNumber := 2)
  {
    var s0: AppState<P> := Initial();
    RunSix(s0, [DragStart, Drag(a, b), DragEnd, DragStart, Drag(c, d), DragEnd]);
    var s3 := s0.(strokes := [BrushStroke(a, b, Black, 7.5, 0)], strokeNumber := 1);
    assert Step(Step(Step(s0, DragStart), Drag(a, b)), DragEnd) == s3;
  }

  /**
   * A cancelled drag keeps its number, so its segments join the next
   * gesture's group: one Undo then removes both.
   */
  lemma CancelledDragJoinsNextGesture<P>(a: P, b: P, c: P, d: P)
    ensures Run(Initial(), [DragStart, Drag(a, b), DragCancel, DragStart, Drag(c, d), DragEnd, UndoClick]).strokes == []
  {
    var x := BrushStroke(a, b, Black, 7.5, 0);
    var y := BrushStroke(c, d, Black, 7.5, 0);
    var es := [DragStart, Drag(a, b), DragCancel, DragStart, Drag(c, d), DragEnd];
    var p: AppState<P> := Initial().(strokes := [x, y], strokeNumber := 1);
    CancelledThenEnded(a, b, c, d);
    assert Step(p, UndoClick).strokes == [] by {
      assert [x, y] == [] + Reverse([y, x]) by {
        assert [y, x][1..] == [x] && [x][1..] == [];
      }
      TransferReturnsRun([], [y, x], [], 0);
    }
    RunSplit(Initial(), es, [UndoClick]);
    assert es + [UndoClick] == [DragStart, Drag(a, b), DragCancel, DragStart, Drag(c, d), DragEnd, UndoClick];
    assert Run(p, [UndoClick]) == Step(p, UndoClick);
  }

  /** When the first drag ends normally, Undo removes only the second gesture. */
  lemma EndedDragsStaySeparate<P>(a: P, b: P, c: P, d: P)
    ensures Run(Initial(), [DragStart, Drag(a, b), DragEnd, DragStart, Drag(c, d), DragEnd, UndoClick]).strokes
            == [BrushStroke(a, b, Black, 7.5, 0)]
  {
    var x := BrushStroke(a, b, Black, 7.5, 0);
    var y := BrushStroke(c, d, Black, 7.5, 1);
    var es := [DragStart, Drag(a, b), DragEnd, DragStart, Drag(c, d), DragEnd];
    var q: AppState<P> := Initial().(strokes := [x, y], strokeNumber := 2);
    EndedThenEnded(a, b, c, d);
    assert Step(q, UndoClick).strokes == [x] by {
      assert [x, y] == [x] + Reverse([y]) by {
        assert [y][1..] == [];
      }
      TransferReturnsRun([x], [y], [], 1);
    }
    RunSplit(Initial(), es, [UndoClick]);
    assert es + [UndoClick] == [DragStart, Drag(a, b), DragEnd, DragStart, Drag(c, d), DragEnd, UndoClick];
    assert Run(q, [UndoClick]) == Step(q, UndoClick);
  }

  lemma {:induction false} RunSplit<P>(s: AppState<P>, xs: seq<Event<P>>, ys: seq<Event<P>>)
    ensures Run(s, xs + ys) == Run(Run(s, xs), ys)
    decreases |xs|
  {
    if |xs| == 0 {
      assert xs + ys == ys;
    } else {
      assert (xs + ys)[1..] == xs[1..] + ys;
      RunSplit(Step(s, xs[0]), xs[1..], ys);
    }
  }

  /** Unfolds `Run` over six events. */
  lemma RunSix<P>(s: AppState<P>, es: seq<Event<P>>)
    requires |es| == 6
    ensures Run(s, es) ==
      Step(Step(Step(Step(Step(Step(s, es[0]), es[1]), es[2]), es[3]), es[4]), es[5])
  {
    var s1 := Step(s, es[0]);
    var s2 := Step(s1, es[1]);
    var s3 := Step(s2, es[2]);
    var s4 := Step(s3, es[3]);
    var s5 := Step(s4, es[4]);
    assert es[1..][1..] == es[2..];
    assert es[2..][1..] == es[3..];
    assert es[3..][1..] == es[4..];
    assert es[4..][1..] == es[5..];
    assert es[5..][1..] == [];
    assert Run(s5, es[5..]) == Step(s5, es[5]);
    assert Run(s4, es[4..]) == Run(s5, es[5..]);
    assert Run(s3, es[3..]) == Run(s4, es[4..]);
    assert Run(s2, es[2..]) == Run(s3, es[3..]);
    assert Run(s1, es[1..]) == Run(s2, es[2..]);
  }

  /** The drag-move callbacks of one gesture, one per pointer move. */
  function Drags<P>(moves: seq<(P, P)>): seq<Event<P>>
    decreases |moves|
  {
    if |moves| == 0 then [] else [Drag(moves[0].0, moves[0].1)] + Drags(moves[1..])
  }

  /** A gesture the drag detector reports as ended. */
  function Gesture<P>(moves: seq<(P, P)>): seq<Event<P>>
  {
    [DragStart] + Drags(moves) + [DragEnd]
  }

  /** The segments the moves paint with one colour, width and id. */
  function Painted<P>(moves: seq<(P, P)>, color: Color, width: real, id: int32): seq<BrushStroke<P>>
    decreases |moves|
  {
    if |moves| == 0 then []
    else [BrushStroke(moves[0].0, moves[0].1, color, width, id)] + Painted(moves[1..], color, width, id)
  }

  lemma {:induction false} PaintedShape<P>(moves: seq<(P, P)>, color: Color, width: real, id: int32)
    ensures |Painted(moves, color, width, id)| == |moves|
    ensures forall i | 0 <= i < |moves| ::
      Painted(moves, color, width, id)[i] == BrushStroke(moves[i].0, moves[i].1, color, width, id)
    decreases |moves|
  {
    if |moves| > 0 {
      PaintedShape(moves[1..], color, width, id);
    }
  }

  lemma RunOne<P>(s: AppState<P>, e: Event<P>)
    ensures Run(s, [e]) == Step(s, e)
  {
    assert [e][1..] == [];
  }

  /** Drag moves append one segment each, numbered `strokeNumber`, and change nothing else. */
  lemma {:induction false} RunDrags<P>(s: AppState<P>, moves: seq<(P, P)>)
    ensures Run(s, Drags(moves)) ==
      s.(strokes := s.strokes + Painted(moves, PaintColor(s.currentColor, s.isEraser), s.currentWidth, s.strokeNumber))
    decreases |moves|
  {
    var c, w, n := PaintColor(s.currentColor, s.isEraser), s.currentWidth, s.strokeNumber;
    if |moves| == 0 {
      assert s.strokes + [] == s.strokes;
    } else {
      var x := BrushStroke(moves[0].0, moves[0].1, c, w, n);
      var ds := Drags(moves);
      assert ds[0] == Drag(moves[0].0, moves[0].1) && ds[1..] == Drags(moves[1..]);
      RunDrags(Step(s, ds[0]), moves[1..]);
      AppendAssoc(s.strokes, [x], Painted(moves[1..], c, w, n));
    }
  }

  /**
   * An ended gesture discards the undone segments, appends the painted
   * ones and advances the counter.
   */
  lemma RunGesture<P>(s: AppState<P>, moves: seq<(P, P)>)
    ensures Run(s, Gesture(moves)) ==
      s.(strokes := s.strokes + Painted(moves, PaintColor(s.currentColor, s.isEraser), s.currentWidth, s.strokeNumber),
         redoStrokes := [], strokeNumber := Increment(s.strokeNumber), dragging := false)
  {
    var s0 := Step(s, DragStart);
    RunSplit(s, [DragStart] + Drags(moves), [DragEnd]);
    RunSplit(s, [DragStart], Drags(moves));
    RunOne(s, DragStart);
    RunDrags(s0, moves);
    RunOne(Run(s0, Drags(moves)), DragEnd);
  }

  /** In a good session every drawn segment's id is at most `strokeNumber`. */
  lemma GoodBoundsDrawn<P>(s: AppState<P>)
    requires Good(s)
    ensures forall i | 0 <= i < |s.strokes| :: s.strokes[i].strokeID <= s.strokeNumber
  {
    var t := Timeline(s.strokes, s.redoStrokes);
    forall i | 0 <= i < |s.strokes| ensures s.strokes[i].strokeID <= s.strokeNumber {
      assert t[i] == s.strokes[i];
    }
  }

  /**
   * A gesture numbered differently from the last drawn segment is undone
   * whole: Undo gives back the drawn list as it was before the gesture and
   * puts all the gesture's segments, and nothing else, on the undone list.
   */
  lemma GestureThenUndo<P>(t: AppState<P>, moves: seq<(P, P)>)
    requires |moves| > 0 && (|t.strokes| == 0 || Last(t.strokes).strokeID != t.strokeNumber)
    ensures var t2 := Run(t, Gesture(moves));
            var p := Painted(moves, PaintColor(t.currentColor, t.isEraser), t.currentWidth, t.strokeNumber);
            t2.strokes == t.strokes + p && t2.redoStrokes == [] &&
            Step(t2, UndoClick).strokes == t.strokes &&
            Step(t2, UndoClick).redoStrokes == Reverse(p)
  {
    var p := Painted(moves, PaintColor(t.currentColor, t.isEraser), t.currentWidth, t.strokeNumber);
    RunGesture(t, moves);
    PaintedShape(moves, PaintColor(t.currentColor, t.isEraser), t.currentWidth, t.strokeNumber);
    UndoneTakesGroup(t.strokes, p, [], t.strokeNumber);
    assert [] + Reverse(p) == Reverse(p);
  }

  /**
   * One Undo removes exactly the last gesture when the gesture before it
   * ended: the drawn list comes back as after the first gesture, and all
   * of the second gesture's segments wait to be redone. (Without the first
   * gesture this can fail: segments of a cancelled drag share the next
   * gesture's number, `CancelledDragJoinsNextGesture`.)
   */
  lemma GestureUndoneWhole<P>(s: AppState<P>, first: seq<(P, P)>, second: seq<(P, P)>)
    requires Good(s) && s.strokeNumber < INT32_MAX && |second| > 0
    ensures var s1 := Run(s, Gesture(first));
            var s2 := Run(s1, Gesture(second));
            var p := Painted(second, PaintColor(s.currentColor, s.isEraser), s.currentWidth, s.strokeNumber + 1);
            s2.strokes == s1.strokes + p &&
            Step(s2, UndoClick).strokes == s1.strokes &&
            Step(s2, UndoClick).redoStrokes == Reverse(p)
  {
    var c, n := PaintColor(s.currentColor, s.isEraser), s.strokeNumber;
    var s1 := Run(s, Gesture(first));
    var p1 := Painted(first, c, s.currentWidth, n);
    RunGesture(s, first);
    assert s1.strokes == s.strokes + p1 && s1.strokeNumber == n + 1;
    assert |s1.strokes| == 0 || Last(s1.strokes).strokeID <= n by {
      PaintedShape(first, c, s.currentWidth, n);
      if |p1| == 0 {
        GoodBoundsDrawn(s);
        assert s1.strokes == s.strokes;
      } else {
        assert Last(s1.strokes) == p1[|p1| - 1];
      }
    }
    GestureThenUndo(s1, second);
  }

  /** The events of several ended gestures, one after another. */
  function Gestures<P>(gs: seq<seq<(P, P)>>): seq<Event<P>>
    decreases |gs|
  {
    if |gs| == 0 then [] else Gesture(gs[0]) + Gestures(gs[1..])
  }

  function TotalMoves<P>(gs: seq<seq<(P, P)>>): nat
    decreases |gs|
  {
    if |gs| == 0 then 0 else |gs[0]| + TotalMoves(gs[1..])
  }

  /**
   * After ended gestures of k1, k2, ... moves, the drawn list has grown by
   * k1 + k2 + ... segments behind the old ones, nothing waits to be redone,
   * the tools are unchanged and the counter has advanced once per gesture.
   */
  lemma {:induction false} RunGestures<P>(s: AppState<P>, gs: seq<seq<(P, P)>>)
    ensures var t := Run(s, Gestures(gs));
            |t.strokes| == |s.strokes| + TotalMoves(gs) && t.strokes[..|s.strokes|] == s.strokes &&
            t.currentColor == s.currentColor && t.currentWidth == s.currentWidth && t.isEraser == s.isEraser
    ensures |gs| > 0 ==> Run(s, Gestures(gs)).redoStrokes == [] && !Run(s, Gestures(gs)).dragging
    ensures s.strokeNumber as int + |gs| <= INT32_MAX as int ==>
      Run(s, Gestures(gs)).strokeNumber as int == s.strokeNumber as int + |gs|
    decreases |gs|
  {
    if |gs| > 0 {
      var s1 := Run(s, Gesture(gs[0]));
      RunSplit(s, Gesture(gs[0]), Gestures(gs[1..]));
      RunGesture(s, gs[0]);
      PaintedShape(gs[0], PaintColor(s.currentColor, s.isEraser), s.currentWidth, s.strokeNumber);
      RunGestures(s1, gs[1..]);
      var t := Run(s1, Gestures(gs[1..]));
      assert t.strokes[..|s.strokes|] == t.strokes[..|s1.strokes|][..|s.strokes|];
    }
  }

  /**
   * Whether the two lists are cut between groups. A drag start cuts them,
   * since it empties `redoStrokes`; during a gesture they stay cut; Undo
   * always leaves them cut; the other events keep the cut. Redo as written
   * is the exception: `Ledger.RedoneAsWrittenSplitsGroup` shows it can
   * leave the last drawn and the last undone segment in one group.
   */
  lemma StepKeepsBoundary<P>(s: AppState<P>, e: Event<P>)
    requires Good(s) && Admissible(s, e) && !e.RedoClick?
    ensures s.dragging ==> GroupBoundary(s.strokes, s.redoStrokes)
    ensures GroupBoundary(s.strokes, s.redoStrokes) || e.DragStart? || e.UndoClick? ==>
      GroupBoundary(Step(s, e).strokes, Step(s, e).redoStrokes)
  {
    if e.UndoClick? {
      UndonePreservesBoundary(s.strokes, s.redoStrokes);
    }
  }

  /**
   * Undo during a drag, which a second finger can cause, breaks the id
   * order: the segment drawn after it carries id 1 but precedes the undone
   * segment of id 0 in the history.
   */
  lemma UndoMidDragBreaksOrder<P>(a: BrushStroke<P>, x: P, y: P)
    requires a.strokeID == 0
    ensures var s := AppState([a], [], Black, 7.5, false, 1, true);
            Good(s) && !IdsOrdered(Timeline(Step(Step(s, UndoClick), Drag(x, y)).strokes,
                                            Step(Step(s, UndoClick), Drag(x, y)).redoStrokes), 1)
  {
    var s := AppState([a], [], Black, 7.5, false, 1, true);
    ReverseRepeated(a);
    assert Timeline(s.strokes, s.redoStrokes) == [a];
    assert [] + [a] == [a];
    UndoneTakesGroup([], [a], [], 0);
    var u := Step(s, UndoClick);
    assert u.strokes == [] && u.redoStrokes == [a];
    var c := BrushStroke(x, y, Black, 7.5, 1);
    var d := Step(u, Drag(x, y));
    assert d.strokes == [c] by {
      assert [] + [c] == [c];
    }
    var t := Timeline(d.strokes, d.redoStrokes);
    assert t == [c, a];
    assert t[0].strokeID > t[1].strokeID;
  }
}
