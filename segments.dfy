/**
 * The segment model of the drawing canvas: one `BrushStroke` is a straight
 * line between two pointer positions, painted in one colour and width, and
 * tagged with the id of the drag gesture (the "stroke group") that made it.
 */
module Segments {

  /** Kotlin `Int`: stroke ids and the gesture counter are 32-bit. */
  newtype int32 = x: int | -0x8000_0000 <= x < 0x8000_0000

  const INT32_MIN: int32 := -0x8000_0000
  const INT32_MAX: int32 := 0x7fff_ffff

  /** `strokeNumber++` on a Kotlin `Int`: wraps from the largest value to the smallest. */
  function Increment(n: int32): int32
  {
    if n == INT32_MAX then INT32_MIN else n + 1
  }

  /**
   * The colours the core ever stores: the six palette colours, and white,
   * which the eraser paints with (it is also the canvas background).
   */
  datatype Color = Black | Blue | Green | Yellow | Red | Gray | White

  /**
   * One drawn segment. Points are left abstract (`P`); the width is the
   * slider's value, carried but never computed with.
   */
  datatype BrushStroke<P> = BrushStroke(start: P, end: P, color: Color, strokeWidth: real, strokeID: int32)

  /** The colour a new segment is painted in: white while the eraser is on. */
  function PaintColor(currentColor: Color, isEraser: bool): Color
  {
    if isEraser then White else currentColor
  }

  function Last<T>(s: seq<T>): T
    requires |s| > 0
  {
    s[|s| - 1]
  }

  function Reverse<T>(s: seq<T>): (r: seq<T>)
    ensures |r| == |s|
  {
    if |s| == 0 then [] else Reverse(s[1..]) + [s[0]]
  }

  lemma {:induction false} ReverseAt<T>(s: seq<T>, i: nat)
    requires i < |s|
    ensures Reverse(s)[i] == s[|s| - 1 - i]
  {
    if i < |s| - 1 {
      ReverseAt(s[1..], i);
    }
  }

  lemma {:induction false} ReverseAppend<T>(a: seq<T>, b: seq<T>)
    ensures Reverse(a + b) == Reverse(b) + Reverse(a)
  {
    if |a| == 0 {
      assert a + b == b;
    } else {
      assert (a + b)[1..] == a[1..] + b;
      ReverseAppend(a[1..], b);
    }
  }

  lemma {:induction false} ReverseReverse<T>(s: seq<T>)
    ensures Reverse(Reverse(s)) == s
  {
    if |s| > 0 {
      ReverseAppend(Reverse(s[1..]), [s[0]]);
      ReverseReverse(s[1..]);
      assert Reverse([s[0]]) == [s[0]];
    }
  }

  lemma AppendAssoc<T>(x: seq<T>, y: seq<T>, z: seq<T>)
    ensures (x + y) + z == x + (y + z)
  {
  }

  lemma TakeDropAppend<T>(s: seq<T>, k: nat)
    requires k <= |s|
    ensures s[..k] + s[k..] == s
  {
  }

  /** Dropping the last element of a concatenation whose second part is not empty. */
  lemma DropLastAppend<T>(a: seq<T>, b: seq<T>)
    requires |b| > 0
    ensures (a + b)[..|a + b| - 1] == a + b[..|b| - 1]
  {
  }

  /** Dropping the first element of a suffix adds that element to the end of its reverse. */
  lemma ReverseSuffix<T>(s: seq<T>, m: nat)
    requires 0 < m <= |s|
    ensures Reverse(s[m - 1..]) == Reverse(s[m..]) + [s[m - 1]]
  {
    assert s[m - 1..][1..] == s[m..];
  }

  /** The same step, seen from the list that receives the segments. */
  lemma ReverseSuffixOnto<T>(dst: seq<T>, s: seq<T>, m: nat)
    requires 0 < m <= |s|
    ensures dst + Reverse(s[m - 1..]) == (dst + Reverse(s[m..])) + [s[m - 1]]
  {
    ReverseSuffix(s, m);
  }

  /**
   * Where the longest suffix of `s` whose segments all carry `id` begins:
   * every segment from there on has that id, and the one just before it,
   * if any, does not.
   */
  function RunStart<P>(s: seq<BrushStroke<P>>, id: int32): (k: nat)
    ensures k <= |s|
  {
    if |s| == 0 || Last(s).strokeID != id then |s| else RunStart(s[..|s| - 1], id)
  }

  /** The run `RunStart` finds is maximal. */
  lemma {:induction false} RunStartIsMaximal<P>(s: seq<BrushStroke<P>>, id: int32)
    ensures forall i | RunStart(s, id) <= i < |s| :: s[i].strokeID == id
    ensures RunStart(s, id) == 0 || s[RunStart(s, id) - 1].strokeID != id
  {
    if |s| > 0 && Last(s).strokeID == id {
      var t := s[..|s| - 1];
      RunStartIsMaximal(t, id);
      assert forall i | 0 <= i < |t| :: t[i] == s[i];
    }
  }

  /**
   * A run of `id` after a prefix that does not end in `id`: the run found
   * starts exactly where the prefix ends.
   */
  lemma {:induction false} RunStartOfRun<P>(pre: seq<BrushStroke<P>>, run: seq<BrushStroke<P>>, id: int32)
    requires forall i | 0 <= i < |run| :: run[i].strokeID == id
    requires |pre| == 0 || Last(pre).strokeID != id
    ensures RunStart(pre + run, id) == |pre|
    decreases |run|
  {
    if |run| == 0 {
      assert pre + run == pre;
    } else {
      DropLastAppend(pre, run);
      RunStartOfRun(pre, run[..|run| - 1], id);
    }
  }
}
