/**
 Full traversals of the result stream through the viewport: the items the cursor
 rests on while single steps keep succeeding.
 */
module Traversal {
  import opened ResultStream
  import opened Viewport

  /**
   The items selected by pressing Down until `MoveSelectedDown` reports no
   movement, starting with the item selected in `w`. Termination of the walk is
   the stream position of the selection growing with every successful step.
   */
  function WalkDown<T(==)>(s: seq<T>, w: Window<T>): (trace: seq<T>)
    requires Inv(s, w)
    ensures |trace| == 0 <==> |w.items| == 0
    decreases if |w.items| == 0 then 0 else |s| - SelectedPos(s, w)
  {
    if |w.items| == 0 then []
    else
      InvDrawnFrom(s, w);
      var st := MoveSelectedDown(s, w);
      if st.moved then [Selected(w)] + WalkDown(s, st.window) else [Selected(w)]
  }

  /** The items selected by pressing Up until `MoveSelectedUp` reports no movement. */
  function WalkUp<T(==)>(s: seq<T>, w: Window<T>): (trace: seq<T>)
    requires Inv(s, w)
    ensures |trace| == 0 <==> |w.items| == 0
    decreases if |w.items| == 0 then 0 else SelectedPos(s, w)
  {
    if |w.items| == 0 then []
    else
      InvDrawnFrom(s, w);
      var st := MoveSelectedUp(s, w);
      if st.moved then [Selected(w)] + WalkUp(s, st.window) else [Selected(w)]
  }

  /** Walking down visits the rest of the stream from the selected item on. */
  lemma {:induction false} WalkDownSuffix<T>(s: seq<T>, w: Window<T>)
    requires Inv(s, w) && |w.items| > 0
    ensures WalkDown(s, w) == s[SelectedPos(s, w)..]
    decreases |s| - SelectedPos(s, w)
  {
    InvDrawnFrom(s, w);
    var st := MoveSelectedDown(s, w);
    var p := SelectedPos(s, w);
    SuffixCons(s, p);
    if st.moved {
      WalkDownSuffix(s, st.window);
    }
  }

  /** Walking up visits the stream back to its start from the selected item on. */
  lemma {:induction false} WalkUpPrefix<T>(s: seq<T>, w: Window<T>)
    requires Inv(s, w) && |w.items| > 0
    ensures WalkUp(s, w) == Reverse(s[..SelectedPos(s, w) + 1])
    decreases SelectedPos(s, w)
  {
    InvDrawnFrom(s, w);
    var st := MoveSelectedUp(s, w);
    var p := SelectedPos(s, w);
    ReversePrefix(s, p);
    if st.moved {
      WalkUpPrefix(s, st.window);
    }
  }

  /** A suffix is its first item followed by the next suffix. */
  lemma SuffixCons<T>(s: seq<T>, p: int)
    requires 0 <= p < |s|
    ensures s[p..] == [s[p]] + s[p + 1..]
  {
  }

  /** Reversing one more item of a prefix puts that item first. */
  lemma ReversePrefix<T>(s: seq<T>, p: int)
    requires 0 <= p < |s|
    ensures Reverse(s[..p + 1]) == [s[p]] + Reverse(s[..p])
  {
    assert s[..p + 1][..p] == s[..p];
  }

  /**
   From `ResetItems(false)`, pressing Down selects every item of the stream
   exactly once, in stream order, before the first step that does not move.
   */
  lemma {:induction false} TraverseFromStart<T>(s: seq<T>)
    requires Distinct(s)
    ensures WalkDown(s, ResetItems(s, false)) == s
  {
    if |s| > 0 {
      WalkDownSuffix(s, ResetItems(s, false));
    }
  }

  /**
   From `ResetItems(true)`, pressing Up selects every item of the stream exactly
   once, in reverse stream order, before the first step that does not move.
   */
  lemma {:induction false} TraverseFromEnd<T>(s: seq<T>)
    requires Distinct(s)
    ensures WalkUp(s, ResetItems(s, true)) == Reverse(s)
  {
    var w := ResetItems(s, true);
    if |s| > 0 {
      WalkUpPrefix(s, w);
      var lo := |s| - |w.items|;
      assert w.items[0] == s[lo];
      IndexOfAt(s, lo);
      assert SelectedPos(s, w) == |s| - 1;
      assert s[..|s|] == s;
    }
  }
}
