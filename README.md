# mycanvas: stroke ledger and gestures, in Dafny

This project models the part of the mycanvas drawing app that is not user-interface code. That part is:

- the global `State` object: the current colour, the width, the eraser flag, the drawn list `strokes` and the undone list `redoStrokes`;
- the `BrushStroke` segment record;
- the Undo and Redo click handlers;
- the canvas's drag callbacks and their gesture counter `strokeNumber`;
- the setters behind the palette, size slider and eraser button.

The model has five modules:

- `Segments` (segments.dfy) has the segment record `BrushStroke<P>`, with points of an abstract type `P`. It also has the colours, Kotlin's 32-bit `Int` as `int32`, and sequence helpers. `RunStart` finds the longest trailing run of segments with one stroke id.
- `Ledger` (ledger.dfy) states what the two buttons do to the pair of lists, as pure functions. `Transfer` is the shared "pop, then keep popping while the id matches" loop, and `Undone` and `Redone` are built from it. The lemmas are about these functions. They cover the history `strokes ++ reverse(redoStrokes)`, what one call moves, and when a Redo undoes an Undo.
- `Canvas` (canvas.dfy) is the imperative part:
  - class `State` has the same fields as the Kotlin object.
  - `Undo` and `Redo` are `while` loops that mirror the Kotlin `do … while` loops: the body runs once, then the loop runs.
  - Each loop is proved to leave the lists equal to `Undone`/`Redone` of the old lists.
  - class `MyCanvas` holds `strokeNumber` and the three drag callbacks.
- `Session` (session.dfy) treats the app as a sequence of UI events. `Step` does to an `AppState` value what each handler does to the objects. The lemmas prove a trace invariant: along the history, stroke ids never decrease and never exceed `strokeNumber`. Other lemmas follow whole gestures: what an ended gesture appends, and when one Undo removes exactly the last gesture.
- `Dispatch` (dispatch.dfy) connects the two views. `Handle` calls, for each event, the class method the layout wires to it, and is proved to change the objects exactly as `Session.Step` changes the value. `HandleAll` does this over a whole event sequence, so the trace invariant holds for the objects too.

Redo is modelled as the code is written, in the class and in `Step`. The code reads the id from the first element of `redoStrokes` but pops from its end (see Findings). The corrected version, `Ledger.RedoneIntended`, stands beside it with its own proofs.

`detectDragGestures` is given no `onDragCancel` handler (MainActivity.kt:172-174), so a cancelled drag keeps its number. The model follows the code: `Event.DragCancel` only ends the gesture. `Session.CancelledDragJoinsNextGesture` shows the effect: the cancelled segments and the next gesture's segments then share an id and are undone together.

## Model

| member | source | states |
|---|---|---|
| Segments.RunStartIsMaximal | app/src/main/java/com/example/mycanvas/MainActivity.kt:144 | the run found is the longest suffix in which every segment has the given id: the segment before it, if any, has another id |
| Ledger.TransferMovesRun | app/src/main/java/com/example/mycanvas/MainActivity.kt:142-144 | the do-while shared by both buttons always moves at least one segment. It takes a suffix of the source list and appends it, reversed, to the destination. Every moved segment except the first popped has the given id. What remains is empty or ends with another id |
| Ledger.Undone | app/src/main/java/com/example/mycanvas/MainActivity.kt:139-145 | Undo keeps the total segment count, and when anything is drawn it moves at least one segment |
| Ledger.UndoneMovesGroup | app/src/main/java/com/example/mycanvas/MainActivity.kt:139-145 | nothing drawn: both lists are unchanged. Otherwise the maximal trailing run sharing the last segment's id is moved, and it has at least one segment. The drawn list keeps the prefix, which is empty or ends with another id. The run goes onto `redoStrokes` in reverse order |
| Ledger.Redone | app/src/main/java/com/example/mycanvas/MainActivity.kt:153-158 | Redo as written keeps the total segment count, and when anything is undone it moves at least one segment |
| Ledger.RedoneMovesRun | app/src/main/java/com/example/mycanvas/MainActivity.kt:153-158 | nothing undone: both lists are unchanged. Otherwise at least one segment moves from the end of `redoStrokes` to the end of `strokes`. Every segment moved after the first has the id of `redoStrokes.first()`. Moving stops at an empty list or at a last segment with another id |
| Ledger.RedoneIntended | app/src/main/java/com/example/mycanvas/MainActivity.kt:153-158 | the corrected Redo keeps the total segment count, and when anything is undone it moves at least one segment |
| Ledger.RedoneIntendedMovesGroup | app/src/main/java/com/example/mycanvas/MainActivity.kt:153-158 | the corrected Redo, which compares against the id of the last undone segment, moves exactly the maximal trailing run of that id back onto `strokes` |
| Ledger.MoveStep | app/src/main/java/com/example/mycanvas/MainActivity.kt:143 | one more pop: the last remaining source segment joins the end of the destination, and the source loses it |
| Ledger.MoveKeepsOrder | app/src/main/java/com/example/mycanvas/MainActivity.kt:143 | moving a suffix onto the undone list keeps `strokes ++ reverse(redoStrokes)` |
| Ledger.MoveKeepsReversedOrder | app/src/main/java/com/example/mycanvas/MainActivity.kt:156 | moving a suffix of the undone list onto `strokes` keeps the same history |
| Ledger.UndonePreservesTimeline | app/src/main/java/com/example/mycanvas/MainActivity.kt:143 | Undo keeps `strokes ++ reverse(redoStrokes)` and the total segment count. No segment is lost, duplicated or reordered |
| Ledger.RedonePreservesTimeline | app/src/main/java/com/example/mycanvas/MainActivity.kt:156 | Redo as written keeps `strokes ++ reverse(redoStrokes)` and the total segment count |
| Ledger.RedoneIntendedPreservesTimeline | app/src/main/java/com/example/mycanvas/MainActivity.kt:156 | the corrected Redo keeps the history and the count too |
| Ledger.RedoneUniformEmpties | app/src/main/java/com/example/mycanvas/MainActivity.kt:154-157 | if every undone segment has one id, Redo moves all of them back: `strokes` becomes `strokes ++ reverse(redoStrokes)` and `redoStrokes` becomes empty |
| Ledger.UndoThenRedoRestores | app/src/main/java/com/example/mycanvas/MainActivity.kt:138-158 | starting with nothing undone, Undo then Redo restores both lists exactly |
| Ledger.RedoneMovesOneSegment | app/src/main/java/com/example/mycanvas/MainActivity.kt:154-157 | if the second-to-last undone segment's id differs from the first one's, Redo moves exactly the last segment. Whole-group redo does not hold here |
| Ledger.UndonePreservesBoundary | app/src/main/java/com/example/mycanvas/MainActivity.kt:141-144 | after Undo, the last drawn segment and the last undone segment belong to different groups |
| Ledger.RedoneIntendedPreservesBoundary | app/src/main/java/com/example/mycanvas/MainActivity.kt:154-157 | after the corrected Redo, the two lists are again cut between groups |
| Ledger.TransferReturnsRun | app/src/main/java/com/example/mycanvas/MainActivity.kt:142-144 | take a run of one id, reversed onto a list that does not end in that id. The loop then moves that run back whole, in its original order, and nothing else |
| Ledger.RedoneIntendedUndoesUndo | app/src/main/java/com/example/mycanvas/MainActivity.kt:138-158 | suppose something is drawn and the lists are cut between groups. Then the corrected Redo after Undo restores both lists, whatever was undone before |
| Ledger.UndoneUndoesRedoneIntended | app/src/main/java/com/example/mycanvas/MainActivity.kt:138-158 | suppose something is undone and the lists are cut between groups. Then Undo after the corrected Redo restores both lists |
| Ledger.UndoneTwiceSeparatesGroups | app/src/main/java/com/example/mycanvas/MainActivity.kt:139-145 | with ids 0 0 0 then 1 1, the first Undo moves the two 1s and the second moves the three 0s |
| Ledger.RedoneAsWrittenSplitsGroup | app/src/main/java/com/example/mycanvas/MainActivity.kt:154-157 | start from ids 0 0 0 1 1 and press Undo twice. Each Undo moves one group. Redo as written then returns one segment, leaving `[1,1,0,0]` undone, and the lists, cut between groups before, are no longer cut. The corrected Redo returns all three |
| Ledger.RedoneAsWrittenMergesGroups | app/src/main/java/com/example/mycanvas/MainActivity.kt:154-157 | start from ids 0 0 1 1 and press Undo twice, then Redo twice. The first Redo returns one 0. The second reads id 1 from the first undone segment and returns the other 0 together with both 1s, emptying the undone list: one press restores parts of two groups |
| Ledger.UndoneTwiceTwoGroups | app/src/main/java/com/example/mycanvas/MainActivity.kt:139-145 | with ids 0 0 then 1 1, the first Undo moves the two 1s and the second moves the two 0s |
| Ledger.RedoneTakesTwoGroups | app/src/main/java/com/example/mycanvas/MainActivity.kt:154-157 | with one 0 drawn and 1 1 0 undone, Redo as written reads id 1 from the first undone segment and so returns the 0 and then both 1s, leaving nothing undone |
| Canvas.State.constructor | app/src/main/java/com/example/mycanvas/MainActivity.kt:38-44 | at launch: black, width 7.5, eraser off, both lists empty |
| Canvas.State.SelectColor | app/src/main/java/com/example/mycanvas/MainActivity.kt:71-72 | picking a palette colour sets it and turns the eraser off. Width and lists are unchanged |
| Canvas.State.SelectEraser | app/src/main/java/com/example/mycanvas/MainActivity.kt:119 | the eraser flag is set. Colour, width and lists are unchanged |
| Canvas.State.SelectWidth | app/src/main/java/com/example/mycanvas/MainActivity.kt:76 | the slider value becomes the width. Nothing else changes |
| Canvas.State.Undo | app/src/main/java/com/example/mycanvas/MainActivity.kt:138-145 | the do-while leaves the two lists equal to `Undone` of the old lists. Tool settings are untouched |
| Canvas.State.Redo | app/src/main/java/com/example/mycanvas/MainActivity.kt:152-158 | the do-while leaves the two lists equal to `Redone` of the old lists. Tool settings are untouched |
| Canvas.MyCanvas.constructor | app/src/main/java/com/example/mycanvas/MainActivity.kt:166 | the gesture counter starts at 0 |
| Canvas.MyCanvas.OnDragStart | app/src/main/java/com/example/mycanvas/MainActivity.kt:173 | `redoStrokes` becomes empty. `strokes`, tool settings and `strokeNumber` are unchanged |
| Canvas.MyCanvas.OnDrag | app/src/main/java/com/example/mycanvas/MainActivity.kt:175-185 | exactly one segment is appended to `strokes`, and all earlier segments are unchanged. Its points are the given ones, its id is `strokeNumber` and its width is the current width. Its colour is White under the eraser, the current colour otherwise. `redoStrokes` and the tool settings are unchanged |
| Canvas.MyCanvas.OnDragEnd | app/src/main/java/com/example/mycanvas/MainActivity.kt:174 | `strokeNumber` goes up by exactly one below the 32-bit maximum and wraps at it. Nothing else changes |
| Session.Step | app/src/main/java/com/example/mycanvas/MainActivity.kt:71-185 | only a drag end changes `strokeNumber`, and only a drag move adds to the total number of segments held in the two lists |
| Dispatch.Handle | app/src/main/java/com/example/mycanvas/MainActivity.kt:71-185 | each event calls its handler on the objects: a palette colour, the slider, the eraser button, Undo, Redo, or a drag callback. A cancelled drag calls nothing. Afterwards the objects hold exactly `Session.Step` of their old state |
| Dispatch.HandleAll | app/src/main/java/com/example/mycanvas/MainActivity.kt:71-185 | handling a sequence of events one by one leaves the objects at `Session.Run` of their old state. From a good state, along an admissible order whose drag ends do not overflow, the objects end in a good state |
| Session.InitialIsGood | app/src/main/java/com/example/mycanvas/MainActivity.kt:38-44 | the launch state satisfies the trace invariant |
| Session.StepKeepsGood | app/src/main/java/com/example/mycanvas/MainActivity.kt:138-185 | every admissible event keeps the history's ids non-decreasing and at most `strokeNumber`. A drag end raises `strokeNumber` by one and every other event leaves it. A drag end must not overflow. During a gesture nothing is waiting to be redone |
| Session.RunKeepsGood | app/src/main/java/com/example/mycanvas/MainActivity.kt:166-184 | the same holds across any admissible event sequence whose drag ends do not overflow the counter, and `strokeNumber` ends raised by the number of drag ends |
| Session.UndoRedoKeepTimeline | app/src/main/java/com/example/mycanvas/MainActivity.kt:143 | any sequence of Undo and Redo presses keeps the history and `strokeNumber` |
| Session.CancelledDragJoinsNextGesture | app/src/main/java/com/example/mycanvas/MainActivity.kt:172-174 | a cancelled drag does not advance the id. Its segment and the next gesture's segment are removed by one Undo |
| Session.EndedDragsStaySeparate | app/src/main/java/com/example/mycanvas/MainActivity.kt:172-174 | when the first drag ends normally, one Undo removes only the second gesture |
| Session.PaintedShape | app/src/main/java/com/example/mycanvas/MainActivity.kt:175-185 | the segments painted by k moves number k, and the i-th joins the i-th move's points with the gesture's colour, width and id |
| Session.RunDrags | app/src/main/java/com/example/mycanvas/MainActivity.kt:175-185 | drag moves append one segment each, numbered `strokeNumber`, in order, and change nothing else |
| Session.RunGesture | app/src/main/java/com/example/mycanvas/MainActivity.kt:172-185 | an ended gesture empties `redoStrokes`, appends its painted segments behind the drawn ones, and advances `strokeNumber` by one, with the 32-bit wrap |
| Session.RunGestures | app/src/main/java/com/example/mycanvas/MainActivity.kt:172-185 | after ended gestures of k1, k2, ... moves, the drawn list keeps its old segments as a prefix and has grown by k1 + k2 + ... segments. Nothing is left to redo, the tools are unchanged, and without overflow the counter has advanced once per gesture |
| Session.GoodBoundsDrawn | app/src/main/java/com/example/mycanvas/MainActivity.kt:166-174 | in a good session no drawn segment's id exceeds `strokeNumber` |
| Ledger.UndoneTakesGroup | app/src/main/java/com/example/mycanvas/MainActivity.kt:139-145 | Undo of a one-id group drawn behind a list ending in another id moves that whole group, and nothing else, onto the undone list, last segment first |
| Session.GestureThenUndo | app/src/main/java/com/example/mycanvas/MainActivity.kt:138-185 | a gesture numbered differently from the last drawn segment is undone whole by one Undo: the drawn list returns to its state before the gesture, and the gesture's segments, reversed, are all that wait to be redone |
| Session.GestureUndoneWhole | app/src/main/java/com/example/mycanvas/MainActivity.kt:138-185 | from any good session below the counter's maximum, after two ended gestures one Undo removes exactly the second gesture's segments and leaves the list as after the first |
| Session.UndoMidDragBreaksOrder | app/src/main/java/com/example/mycanvas/MainActivity.kt:138-145 | a good session in mid-drag, with one segment of id 0 drawn and `strokeNumber` 1: an Undo press followed by a drag move leaves the history with id 1 before id 0, so the order invariant does not hold |
| Session.StepKeepsBoundary | app/src/main/java/com/example/mycanvas/MainActivity.kt:138-185 | during a gesture the lists are cut between groups. A drag start and an Undo always leave them cut, and every other event except Redo keeps the cut |

## Findings

| source | as written | input that shows it | evidently intended | confidence | as-written member | corrected member |
|---|---|---|---|---|---|---|
| app/src/main/java/com/example/mycanvas/MainActivity.kt:154 | Redo takes its id from `redoStrokes.first()` but pops from the end of `redoStrokes` | draw ids 0 0 0 then 1 1, press Undo twice, press Redo: one segment comes back instead of the three-segment group. It can also bring back too much: with ids 0 0 then 1 1, press Undo twice and Redo twice, and the second Redo brings back the remaining 0 together with both 1s | take the id from `redoStrokes.last()`, so each Redo restores the most recently undone group | not executed; high | Ledger.RedoneAsWrittenSplitsGroup | Ledger.RedoneIntended |

The `Canvas` classes and `Session.Step` keep the as-written Redo, and the trace lemmas are proved for it. The corrected Redo, `Ledger.RedoneIntended`, has its own lemmas. Undo and the corrected Redo undo each other whenever the lists are cut between groups and the list the first operation takes from is not empty (`RedoneIntendedUndoesUndo`, `UndoneUndoesRedoneIntended`). Both operations keep that cut (`UndonePreservesBoundary`, `RedoneIntendedPreservesBoundary`).

## Left out

- Compose UI is not modelled: layout, buttons, the palette's map, the slider widget, theming, edge-to-edge and the activity lifecycle. These are framework plumbing. The setters they call are modelled.
- Rendering is not modelled. The `drawLine` loop only reads `strokes`.
- `Offset` arithmetic is not modelled. `OnDrag` receives the segment's start and end points, so `change.position - dragAmount` is computed by the caller. Points are an abstract type.
- Width is a `real`, accepted as given. The Kotlin `Float` is never computed with in the core. The slider's 1 to 32.5 range belongs to the widget.
- Colours are the six palette colours plus White. The Kotlin `Color` can hold any ARGB value, but the core only ever receives these.
- Compose snapshot state, `remember` and recomposition are not modelled, and neither is `change.consume()`. The lists are plain sequences.
- Concurrency is not modelled: all handlers run one at a time on the UI thread.
- Session.RunKeepsGood: assumes the event order the drag detector and a single pointer produce. That means drag moves only between drag start and end or cancel, and no Undo or Redo during a drag. The source does not stop a second finger from pressing Undo mid-drag. If it does, a later segment can be drawn before older undone ones and the id order breaks, as `Session.UndoMidDragBreaksOrder` shows.
- Session.RunKeepsGood: requires that the run's drag ends do not carry `strokeNumber` past the 32-bit maximum, which takes 2^31 completed gestures. At the wrap the id order breaks. `OnDragEnd` models the wrap itself.
- Session.RunKeepsGood: treats `strokeNumber` and the lists as living equally long. In the source the lists sit in a process-wide object (MainActivity.kt:38-44), but `strokeNumber` is `remember`ed in the composition (MainActivity.kt:166). If the activity is recreated, for example on rotation, and the process survives, the counter restarts at 0 while the drawn segments keep their ids. New segments can then carry lower ids than older ones, and the order invariant does not hold. This is inferred from the framework's usual behaviour and not confirmed.
- Session.StepKeepsBoundary: excludes Redo, since Redo as written can break the cut between groups (see Findings).
- `BrushStroke` is modelled without the Kotlin data class's default arguments (`color = Color.Black`, `strokeWidth = 15f`, MainActivity.kt:204-205). The only construction site (MainActivity.kt:176-182) passes all five arguments, so the defaults are never used.
