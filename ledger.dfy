/**
 * The stroke ledger as values: the drawn list `strokes`, the undone list
 * `redoStrokes`, and what the Undo and Redo buttons do to the pair. The
 * classes in canvas.dfy are proved to follow these functions.
 */
module Ledger {
  import opened Segments

  type Strokes<P> = seq<BrushStroke<P>>

  /**
   * The common shape of both button handlers: move the last segment of
   * `src` to the end of `dst`, then keep doing so while `src` is not empty
   * and its last segment carries `id`. The moved segments arrive in `dst`
   * in reverse order.
   */
  function Transfer<P>(src: Strokes<P>, dst: Strokes<P>, id: int32): (Strokes<P>, Strokes<P>)
    requires |src| > 0
  {
    Move(src, dst, RunStart(src[..|src| - 1], id))
  }

  /** The segments of `src` from index `k` on, moved onto `dst` last-first. */
  function Move<P>(src: Strokes<P>, dst: Strokes<P>, k: nat): (Strokes<P>, Strokes<P>)
    requires k <= |src|
  {
    (src[..k], dst + Reverse(src[k..]))
  }

  /**
   * Undo: nothing happens when nothing is drawn; otherwise the trailing
   * group moves, and it has at least one segment.
   */
  function Undone<P>(strokes: Strokes<P>, redo: Strokes<P>): (r: (Strokes<P>, Strokes<P>))
    ensures |r.0| + |r.1| == |strokes| + |redo|
    ensures |strokes| > 0 ==> |r.0| < |strokes|
  {
    if |strokes| == 0 then (strokes, redo) else Transfer(strokes, redo, Last(strokes).strokeID)
  }

  /**
   * Redo as the code has it: the id is read from the FIRST undone segment,
   * but segments are taken from the END.
   */
  function Redone<P>(strokes: Strokes<P>, redo: Strokes<P>): (r: (Strokes<P>, Strokes<P>))
    ensures |r.0| + |r.1| == |strokes| + |redo|
    ensures |redo| > 0 ==> |r.1| < |redo|
  {
    if |redo| == 0 then (strokes, redo)
    else var t := Transfer(redo, strokes, redo[0].strokeID); (t.1, t.0)
  }

  /**
   * Redo as evidently intended: the id is read from the last undone
   * segment, the one that is moved first.
   */
  function RedoneIntended<P>(strokes: Strokes<P>, redo: Strokes<P>): (r: (Strokes<P>, Strokes<P>))
    ensures |r.0| + |r.1| == |strokes| + |redo|
    ensures |redo| > 0 ==> |r.1| < |redo|
  {
    if |redo| == 0 then (strokes, redo)
    else var t := Transfer(redo, strokes, Last(redo).strokeID); (t.1, t.0)
  }

  /**
   * The whole history in drawing order: the drawn segments followed by the
   * undone ones, most recently undone last-drawn first.
   */
  function Timeline<P>(strokes: Strokes<P>, redo: Strokes<P>): Strokes<P>
  {
    strokes + Reverse(redo)
  }

  /** Moving nothing leaves both lists as they are. */
  lemma MoveNone<P>(src: Strokes<P>, dst: Strokes<P>)
    ensures Move(src, dst, |src|) == (src, dst)
  {
    assert src[..|src|] == src && src[|src|..] == [] && Reverse<BrushStroke<P>>([]) == [];
    assert dst + [] == dst;
  }

  /** One more pop: the segment before the moved suffix joins it, at the end of `dst`. */
  lemma MoveStep<P>(src: Strokes<P>, dst: Strokes<P>, m: nat)
    requires 0 < m <= |src|
    ensures Move(src, dst, m - 1) == (Move(src, dst, m).0[..m - 1], Move(src, dst, m).1 + [src[m - 1]])
  {
    ReverseSuffixOnto(dst, src, m);
    assert src[..m][..m - 1] == src[..m - 1];
  }

  /** Moving a reversed suffix moves it back in its original order. */
  lemma MoveReversed<P>(dst: Strokes<P>, run: Strokes<P>, x: Strokes<P>)
    ensures Move(dst + Reverse(run), x, |dst|) == (dst, x + run)
  {
    var src := dst + Reverse(run);
    assert src[..|dst|] == dst && src[|dst|..] == Reverse(run);
    ReverseReverse(run);
  }

  /**
   * A move loses, duplicates and reorders nothing: read drawn-then-undone,
   * the two lists spell the same history before and after.
   */
  lemma MoveKeepsOrder<P>(src: Strokes<P>, dst: Strokes<P>, k: nat)
    requires k <= |src|
    ensures Move(src, dst, k).0 + Reverse(Move(src, dst, k).1) == src + Reverse(dst)
  {
    var a, c := src[..k], src[k..];
    ReverseAppend(dst, Reverse(c));
    ReverseReverse(c);
    AppendAssoc(a, c, Reverse(dst));
    TakeDropAppend(src, k);
  }

  /** The same, read with the roles of the lists exchanged, as Redo uses them. */
  lemma MoveKeepsReversedOrder<P>(src: Strokes<P>, dst: Strokes<P>, k: nat)
    requires k <= |src|
    ensures Move(src, dst, k).1 + Reverse(Move(src, dst, k).0) == dst + Reverse(src)
  {
    var a, c := src[..k], src[k..];
    TakeDropAppend(src, k);
    ReverseAppend(a, c);
    AppendAssoc(dst, Reverse(c), Reverse(a));
  }

  /**
   * What the shared loop does: it always moves at least one segment; it
   * takes a suffix of `src` and appends it, reversed, to `dst`; every
   * moved segment except the first one popped carries `id`; and what
   * remains is empty or ends with another id.
   */
  lemma TransferMovesRun<P>(src: Strokes<P>, dst: Strokes<P>, id: int32)
    requires |src| > 0
    ensures var r := Transfer(src, dst, id);
      |r.0| < |src| && r.0 == src[..|r.0|] && r.1 == dst + Reverse(src[|r.0|..]) &&
      (forall i | |r.0| <= i < |src| - 1 :: src[i].strokeID == id) &&
      (|r.0| == 0 || Last(r.0).strokeID != id)
  {
    var t := src[..|src| - 1];
    RunStartIsMaximal(t, id);
    assert forall i | 0 <= i < |t| :: t[i] == src[i];
  }

  /**
   * Undo: when nothing is drawn, both lists are unchanged. Otherwise the
   * maximal trailing run of `strokes` that shares the last segment's id
   * (at least that one segment) moves onto `redoStrokes` in reverse order,
   * and what remains is empty or ends with another id.
   */
  lemma UndoneMovesGroup<P>(strokes: Strokes<P>, redo: Strokes<P>)
    ensures var r := Undone(strokes, redo);
      (|strokes| == 0 ==> r == (strokes, redo)) &&
      (|strokes| > 0 ==>
        |r.0| < |strokes| && r.0 == strokes[..|r.0|] &&
        r.1 == redo + Reverse(strokes[|r.0|..]) &&
        (forall i | |r.0| <= i < |strokes| :: strokes[i].strokeID == Last(strokes).strokeID) &&
        (|r.0| == 0 || Last(r.0).strokeID != Last(strokes).strokeID))
  {
    if |strokes| > 0 {
      TransferMovesRun(strokes, redo, Last(strokes).strokeID);
    }
  }

  /**
   * Redo as written: when nothing is undone, both lists are unchanged.
   * Otherwise at least one segment moves from the end of `redoStrokes` to
   * the end of `strokes`; every further one carries the id of the FIRST
   * undone segment; moving stops at an empty list or at a last segment
   * with another id.
   */
  lemma RedoneMovesRun<P>(strokes: Strokes<P>, redo: Strokes<P>)
    ensures var r := Redone(strokes, redo);
      (|redo| == 0 ==> r == (strokes, redo)) &&
      (|redo| > 0 ==>
        |r.1| < |redo| && r.1 == redo[..|r.1|] &&
        r.0 == strokes + Reverse(redo[|r.1|..]) &&
        (forall i | |r.1| <= i < |redo| - 1 :: redo[i].strokeID == redo[0].strokeID) &&
        (|r.1| == 0 || Last(r.1).strokeID != redo[0].strokeID))
  {
    if |redo| > 0 {
      TransferMovesRun(redo, strokes, redo[0].strokeID);
    }
  }

  /**
   * The intended Redo moves exactly the maximal trailing run of the last
   * undone segment's id back onto `strokes`.
   */
  lemma RedoneIntendedMovesGroup<P>(strokes: Strokes<P>, redo: Strokes<P>)
    ensures var r := RedoneIntended(strokes, redo);
      (|redo| == 0 ==> r == (strokes, redo)) &&
      (|redo| > 0 ==>
        |r.1| < |redo| && r.1 == redo[..|r.1|] &&
        r.0 == strokes + Reverse(redo[|r.1|..]) &&
        (forall i | |r.1| <= i < |redo| :: redo[i].strokeID == Last(redo).strokeID) &&
        (|r.1| == 0 || Last(r.1).strokeID != Last(redo).strokeID))
  {
    if |redo| > 0 {
      TransferMovesRun(redo, strokes, Last(redo).strokeID);
    }
  }

  lemma UndonePreservesTimeline<P>(strokes: Strokes<P>, redo: Strokes<P>)
    ensures var r := Undone(strokes, redo);
      Timeline(r.0, r.1) == Timeline(strokes, redo) && |r.0| + |r.1| == |strokes| + |redo|
  {
    if |strokes| > 0 {
      MoveKeepsOrder(strokes, redo, RunStart(strokes[..|strokes| - 1], Last(strokes).strokeID));
    }
  }

  lemma RedonePreservesTimeline<P>(strokes: Strokes<P>, redo: Strokes<P>)
    ensures var r := Redone(strokes, redo);
      Timeline(r.0, r.1) == Timeline(strokes, redo) && |r.0| + |r.1| == |strokes| + |redo|
  {
    if |redo| > 0 {
      MoveKeepsReversedOrder(redo, strokes, RunStart(redo[..|redo| - 1], redo[0].strokeID));
    }
  }

  lemma RedoneIntendedPreservesTimeline<P>(strokes: Strokes<P>, redo: Strokes<P>)
    ensures var r := RedoneIntended(strokes, redo);
      Timeline(r.0, r.1) == Timeline(strokes, redo) && |r.0| + |r.1| == |strokes| + |redo|
  {
    if |redo| > 0 {
      MoveKeepsReversedOrder(redo, strokes, RunStart(redo[..|redo| - 1], Last(redo).strokeID));
    }
  }

  /** When every undone segment carries one id, Redo moves all of them back. */
  lemma RedoneUniformEmpties<P>(strokes: Strokes<P>, redo: Strokes<P>)
    requires forall i | 0 <= i < |redo| :: redo[i].strokeID == Last(redo).strokeID
    ensures Redone(strokes, redo) == (strokes + Reverse(redo), [])
  {
    if |redo| == 0 {
      assert redo == [] && Reverse(redo) == [];
      assert strokes + [] == strokes;
    } else {
      var t := redo[..|redo| - 1];
      assert [] + t == t;
      assert redo[0].strokeID == Last(redo).strokeID;
      RunStartOfRun([], t, redo[0].strokeID);
      assert redo[..0] == [] && redo[0..] == redo;
    }
  }

  /** Undo followed by Redo, with nothing undone beforehand, restores both lists. */
  lemma UndoThenRedoRestores<P>(strokes: Strokes<P>)
    ensures var u := Undone(strokes, []); Redone(u.0, u.1) == (strokes, [])
  {
    if |strokes| > 0 {
      var u := Undone(strokes, []);
      var id := Last(strokes).strokeID;
      var run := strokes[|u.0|..];
      assert u.0 + run == strokes && u.1 == [] + Reverse(run) && |run| > 0 &&
             forall i | 0 <= i < |run| :: run[i].strokeID == id by {
        UndoneMovesGroup(strokes, []);
        TakeDropAppend(strokes, |u.0|);
      }
      assert u.1[0].strokeID == id by {
        ReverseAt(run, 0);
      }
      TransferReturnsRun([], run, u.0, id);
    }
  }

  /**
   * With two or more ids undone, Redo can move a single segment: when the
   * last two undone segments carry an id other than the first one's, only
   * the last segment comes back.
   */
  lemma RedoneMovesOneSegment<P>(strokes: Strokes<P>, redo: Strokes<P>)
    requires |redo| >= 2 && redo[|redo| - 2].strokeID != redo[0].strokeID
    ensures Redone(strokes, redo) == (strokes + [Last(redo)], redo[..|redo| - 1])
  {
    var n := |redo|;
    assert RunStart(redo[..n - 1], redo[0].strokeID) == n - 1;
    assert redo[n - 1..] == [Last(redo)];
    assert Reverse([Last(redo)]) == [Last(redo)] by {
      assert [Last(redo)][1..] == [];
    }
  }

  /**
   * Between the two lists the stroke groups are cut cleanly: the last drawn
   * and the last undone segment belong to different groups.
   */
  predicate GroupBoundary<P>(strokes: Strokes<P>, redo: Strokes<P>)
  {
    |strokes| == 0 || |redo| == 0 || Last(strokes).strokeID != Last(redo).strokeID
  }

  lemma UndonePreservesBoundary<P>(strokes: Strokes<P>, redo: Strokes<P>)
    ensures var r := Undone(strokes, redo); GroupBoundary(r.0, r.1)
  {
    UndoneMovesGroup(strokes, redo);
    var r := Undone(strokes, redo);
    if |strokes| > 0 && |r.0| > 0 {
      var k := |r.0|;
      ReverseAt(strokes[k..], |strokes| - k - 1);
      assert Last(r.1) == Reverse(strokes[k..])[|strokes| - k - 1];
    }
  }

  lemma RedoneIntendedPreservesBoundary<P>(strokes: Strokes<P>, redo: Strokes<P>)
    ensures var r := RedoneIntended(strokes, redo); GroupBoundary(r.0, r.1)
  {
    RedoneIntendedMovesGroup(strokes, redo);
    var r := RedoneIntended(strokes, redo);
    if |redo| > 0 && |r.1| > 0 {
      var j := |r.1|;
      ReverseAt(redo[j..], |redo| - j - 1);
      assert Last(r.0) == Reverse(redo[j..])[|redo| - j - 1];
    }
  }

  /** Where the run found by Transfer starts, when the source is a prefix followed by a reversed run. */
  lemma RunStartAfterReversedRun<P>(dst: Strokes<P>, run: Strokes<P>, id: int32)
    requires |run| > 0 && forall i | 0 <= i < |run| :: run[i].strokeID == id
    requires |dst| == 0 || Last(dst).strokeID != id
    ensures RunStart((dst + Reverse(run))[..|dst + Reverse(run)| - 1], id) == |dst|
  {
    var pre := Reverse(run)[..|run| - 1];
    DropLastAppend(dst, Reverse(run));
    forall i | 0 <= i < |pre|
      ensures pre[i].strokeID == id
    {
      ReverseAt(run, i);
    }
    RunStartOfRun(dst, pre, id);
  }

  /**
   * Transfer undoes itself: a run of one id, reversed onto a list that does
   * not end in that id, is moved back whole and in its original order.
   */
  lemma TransferReturnsRun<P>(dst: Strokes<P>, run: Strokes<P>, x: Strokes<P>, id: int32)
    requires |run| > 0 && forall i | 0 <= i < |run| :: run[i].strokeID == id
    requires |dst| == 0 || Last(dst).strokeID != id
    ensures Transfer(dst + Reverse(run), x, id) == (dst, x + run)
  {
    RunStartAfterReversedRun(dst, run, id);
    MoveReversed(dst, run, x);
  }

  /**
   * Undo of a group drawn behind a list that ends in another group: the
   * whole group, and nothing else, moves onto `redo`, last segment first.
   */
  lemma UndoneTakesGroup<P>(dst: Strokes<P>, group: Strokes<P>, redo: Strokes<P>, id: int32)
    requires |group| > 0 && forall i | 0 <= i < |group| :: group[i].strokeID == id
    requires |dst| == 0 || Last(dst).strokeID != id
    ensures Undone(dst + group, redo) == (dst, redo + Reverse(group))
  {
    var run := Reverse(group);
    ReverseReverse(group);
    forall i | 0 <= i < |run| ensures run[i].strokeID == id {
      ReverseAt(group, i);
    }
    assert Last(dst + group) == group[|group| - 1];
    TransferReturnsRun(dst, run, redo, id);
  }

  /** At a clean cut, the intended Redo takes back exactly what Undo moved. */
  lemma RedoneIntendedUndoesUndo<P>(strokes: Strokes<P>, redo: Strokes<P>)
    requires |strokes| > 0 && GroupBoundary(strokes, redo)
    ensures var u := Undone(strokes, redo); RedoneIntended(u.0, u.1) == (strokes, redo)
  {
    UndoneMovesGroup(strokes, redo);
    var u := Undone(strokes, redo);
    var run := strokes[|u.0|..];
    ReverseAt(run, |run| - 1);
    assert Last(u.1) == strokes[|u.0|];
    TransferReturnsRun(redo, run, u.0, Last(strokes).strokeID);
    TakeDropAppend(strokes, |u.0|);
  }

  /** At a clean cut, Undo takes back exactly what the intended Redo moved. */
  lemma UndoneUndoesRedoneIntended<P>(strokes: Strokes<P>, redo: Strokes<P>)
    requires |redo| > 0 && GroupBoundary(strokes, redo)
    ensures var r := RedoneIntended(strokes, redo); Undone(r.0, r.1) == (strokes, redo)
  {
    RedoneIntendedMovesGroup(strokes, redo);
    var r := RedoneIntended(strokes, redo);
    var run := redo[|r.1|..];
    ReverseAt(run, |run| - 1);
    assert Last(r.0) == redo[|r.1|];
    TransferReturnsRun(strokes, run, r.1, Last(redo).strokeID);
    TakeDropAppend(redo, |r.1|);
  }

  /** Reversing one, two or three copies of the same segment changes nothing. */
  lemma ReverseRepeated<P>(x: BrushStroke<P>)
    ensures Reverse([x]) == [x] && Reverse([x, x]) == [x, x] && Reverse([x, x, x]) == [x, x, x]
  {
    assert [x][1..] == [];
    assert [x, x][1..] == [x];
    assert [x, x, x][1..] == [x, x];
  }

  /** Ids 0 0 0 and 1 1, Undo twice: each Undo moves one whole group. */
  lemma UndoneTwiceSeparatesGroups<P>(a: BrushStroke<P>, b: BrushStroke<P>)
    requires a.strokeID == 0 && b.strokeID == 1
    ensures Undone([a, a, a, b, b], []) == ([a, a, a], [b, b])
    ensures Undone([a, a, a], [b, b]) == ([], [b, b, a, a, a])
  {
    ReverseRepeated(a);
    ReverseRepeated(b);
    assert [a, a, a, b, b] == [a, a, a] + Reverse([b, b]);
    TransferReturnsRun([a, a, a], [b, b], [], 1);
    assert [] + [b, b] == [b, b];
    assert [a, a, a] == [] + Reverse([a, a, a]);
    TransferReturnsRun([], [a, a, a], [b, b], 0);
    assert [b, b] + [a, a, a] == [b, b, a, a, a];
  }

  /**
   * Two gestures, ids 0 0 0 and 1 1, then Undo twice: Redo with the code's
   * first-element id returns one segment, not the group of three that the
   * second Undo removed; the intended Redo returns all three.
   */
  lemma RedoneAsWrittenSplitsGroup<P>(a: BrushStroke<P>, b: BrushStroke<P>)
    requires a.strokeID == 0 && b.strokeID == 1
    ensures Undone([a, a, a, b, b], []) == ([a, a, a], [b, b])
    ensures Undone([a, a, a], [b, b]) == ([], [b, b, a, a, a])
    ensures Redone([], [b, b, a, a, a]) == ([a], [b, b, a, a])
    ensures GroupBoundary([], [b, b, a, a, a]) && !GroupBoundary([a], [b, b, a, a])
    ensures RedoneIntended([], [b, b, a, a, a]) == ([a, a, a], [b, b])
  {
    UndoneTwiceSeparatesGroups(a, b);
    var w := [b, b, a, a, a];
    RedoneMovesOneSegment([], w);
    assert w[..4] == [b, b, a, a];
    ReverseRepeated(a);
    assert w == [b, b] + Reverse([a, a, a]);
    TransferReturnsRun([b, b], [a, a, a], [], 0);
    assert [] + [a] == [a] && [] + [a, a, a] == [a, a, a];
  }

  /**
   * The same mismatch can also make one Redo return too much. With ids
   * 0 0 and 1 1 undone, the first Redo returns one 0 and stops; the next
   * reads id 1 from the first undone segment, so it returns the other 0
   * together with, and then, the whole group of 1s.
   */
  lemma RedoneAsWrittenMergesGroups<P>(a: BrushStroke<P>, b: BrushStroke<P>)
    requires a.strokeID == 0 && b.strokeID == 1
    ensures Undone([a, a, b, b], []) == ([a, a], [b, b])
    ensures Undone([a, a], [b, b]) == ([], [b, b, a, a])
    ensures Redone([], [b, b, a, a]) == ([a], [b, b, a])
    ensures Redone([a], [b, b, a]) == ([a, a, b, b], [])
  {
    UndoneTwiceTwoGroups(a, b);
    assert Redone([], [b, b, a, a]) == ([a], [b, b, a]) by {
      var w := [b, b, a, a];
      RedoneMovesOneSegment([], w);
      assert w[..3] == [b, b, a] && [] + [a] == [a];
    }
    RedoneTakesTwoGroups(a, b);
  }

  /** Redo as written on ids 1 1 0 undone: the first-element id 1 lets it continue past the 0. */
  lemma RedoneTakesTwoGroups<P>(a: BrushStroke<P>, b: BrushStroke<P>)
    requires a.strokeID == 0 && b.strokeID == 1
    ensures Redone([a], [b, b, a]) == ([a, a, b, b], [])
  {
    var v := [b, b, a];
    assert RunStart(v[..|v| - 1], 1) == 0 by {
      assert v[..|v| - 1] == [] + [b, b];
      RunStartOfRun([], [b, b], 1);
    }
    assert Move(v, [a], 0) == ([], [a, a, b, b]) by {
      assert v[..0] == [] && v[0..] == v;
      assert Reverse(v) == [a, b, b] by {
        assert v[1..] == [b, a] && v[1..][1..] == [a];
        ReverseRepeated(a);
      }
      assert [a] + [a, b, b] == [a, a, b, b];
    }
  }

  /** Undo twice on ids 0 0 1 1: each press moves one group. */
  lemma UndoneTwiceTwoGroups<P>(a: BrushStroke<P>, b: BrushStroke<P>)
    requires a.strokeID == 0 && b.strokeID == 1
    ensures Undone([a, a, b, b], []) == ([a, a], [b, b])
    ensures Undone([a, a], [b, b]) == ([], [b, b, a, a])
  {
    var aa, bb := [a, a], [b, b];
    ReverseRepeated(a);
    ReverseRepeated(b);
    UndoneTakesGroup(aa, bb, [], 1);
    assert aa + bb == [a, a, b, b] && [] + Reverse(bb) == bb;
    UndoneTakesGroup([], aa, bb, 0);
    assert [] + aa == aa && bb + Reverse(aa) == [b, b, a, a];
  }
}
