/**
 The result viewport: a window of at most five items of the result stream and a
 selection cursor into that window (`App::items` and `App::selection`).

 The window is refilled from either end of the stream by `ResetItems`, and it is
 moved one item at a time by `MoveSelectedUp` / `MoveSelectedDown`, which either
 move the cursor inside the window or rotate the window by one slot along the
 stream. `Move` repeats single steps.
 */
module Viewport {
  import opened ResultStream

  /** Number of result rows the launcher shows. */
  const WINDOW_SIZE := 5

  /** `selection` is a 32-bit unsigned integer in the launcher. */
  const U32_MODULUS := 0x1_0000_0000
  type u32 = x: int | 0 <= x < U32_MODULUS

  /** `delta` of `Move` is a 32-bit signed integer. */
  type i32 = x: int | -0x8000_0000 <= x < 0x8000_0000

  /** The conversion of a (possibly negative) integer to `u32`: wrap modulo 2^32. */
  function WrapU32(x: int): (r: u32)
    ensures 0 <= x < U32_MODULUS ==> r == x
    ensures -U32_MODULUS <= x < 0 ==> r == x + U32_MODULUS
  {
    x % U32_MODULUS
  }

  datatype Window<T> = Window(items: seq<T>, selection: u32)

  /** The outcome of a single navigation step and whether anything moved. */
  datatype Step<T> = Step(window: Window<T>, moved: bool)

  function Min(a: int, b: int): int {
    if a < b then a else b
  }

  function Max(a: int, b: int): int {
    if a < b then b else a
  }

  /** The elements of `xs` in the opposite order (`std::reverse`). */
  function Reverse<T>(xs: seq<T>): (r: seq<T>)
    ensures |r| == |xs|
  {
    if xs == [] then [] else [xs[|xs| - 1]] + Reverse(xs[..|xs| - 1])
  }

  /** `Reverse` reads its argument from the back. */
  lemma {:induction false} ReverseAt<T>(xs: seq<T>)
    ensures forall i :: 0 <= i < |xs| ==> Reverse(xs)[i] == xs[|xs| - 1 - i]
  {
    if xs != [] {
      var init := xs[..|xs| - 1];
      var r := Reverse(xs);
      assert r == [xs[|xs| - 1]] + Reverse(init);
      ReverseAt(init);
      forall i | 0 <= i < |xs|
        ensures r[i] == xs[|xs| - 1 - i]
      {
        if i > 0 {
          assert r[i] == Reverse(init)[i - 1] == init[|init| - i];
        }
      }
    }
  }

  /** The item under the cursor. */
  function Selected<T>(w: Window<T>): T
    requires w.selection < |w.items|
  {
    w.items[w.selection]
  }

  /**
   The viewport invariant: the window is the contiguous run of the stream starting
   at `lo`, it is as long as the stream allows up to five items, the cursor is
   inside it, and the cursor sits past the middle slot only when the window ends
   at the end of the stream, before the middle slot only when the window starts at
   the start of the stream.
   */
  predicate WindowAt<T(==)>(s: seq<T>, w: Window<T>, lo: int) {
    && 0 <= lo
    && lo + |w.items| <= |s|
    && w.items == s[lo..lo + |w.items|]
    && w.selection < |w.items|
    && (w.selection > 2 ==> lo + |w.items| == |s|)
    && (w.selection < 2 ==> lo == 0)
  }

  predicate Inv<T(==)>(s: seq<T>, w: Window<T>) {
    && Distinct(s)
    && |w.items| == Min(WINDOW_SIZE, |s|)
    && (|w.items| > 0 ==> w.items[0] in s && WindowAt(s, w, IndexOf(s, w.items[0])))
  }

  /** The stream position of the selected item. */
  function SelectedPos<T(==)>(s: seq<T>, w: Window<T>): (p: nat)
    requires |w.items| > 0 && w.items[0] in s
    ensures Inv(s, w) ==> p < |s| && w.selection < |w.items| && s[p] == Selected(w)
  {
    IndexOf(s, w.items[0]) + w.selection
  }

  /** Under the invariant, the window's position is that of its first item. */
  lemma InvWindowAt<T>(s: seq<T>, w: Window<T>, lo: int)
    requires Distinct(s) && |w.items| == Min(WINDOW_SIZE, |s|) && |w.items| > 0
    requires WindowAt(s, w, lo)
    ensures Inv(s, w) && IndexOf(s, w.items[0]) == lo
  {
    IndexOfAt(s, lo);
  }

  /** A window that satisfies the invariant is drawn from the stream. */
  lemma InvDrawnFrom<T>(s: seq<T>, w: Window<T>)
    requires Inv(s, w)
    ensures DrawnFrom(s, w.items)
  {
    if |w.items| > 0 {
      var lo := IndexOf(s, w.items[0]);
      forall x | x in w.items
        ensures x in s
      {
        var k :| 0 <= k < |w.items| && w.items[k] == x;
        assert s[lo + k] == x;
      }
    }
  }

  // ---------------------------------------------------------------------------
  // ResetItems
  // ---------------------------------------------------------------------------

  /**
   The loop of `ResetItems(false)`: append `Next` of the last item while the
   window holds fewer than five items and the stream has more.
   */
  function FillForward<T(==)>(s: seq<T>, items: seq<T>): (r: seq<T>)
    requires 0 < |items| <= WINDOW_SIZE && DrawnFrom(s, items)
    ensures DrawnFrom(s, r)
    ensures Distinct(s) && |items| <= |s| && items == s[..|items|] ==>
              r == s[..Min(WINDOW_SIZE, |s|)]
    decreases WINDOW_SIZE - |items|
  {
    if |items| < WINDOW_SIZE then
      match Next(s, Some(items[|items| - 1]))
      case Some(x) => FillForward(s, items + [x])
      case None => items
    else
      items
  }

  /**
   The loop of `ResetItems(true)`: append `Prev` of the last pulled item while the
   buffer holds fewer than five items, so the buffer is the stream's tail read
   backwards.
   */
  function FillBackward<T(==)>(s: seq<T>, buf: seq<T>): (r: seq<T>)
    requires 0 < |buf| <= WINDOW_SIZE && DrawnFrom(s, buf)
    ensures DrawnFrom(s, r)
    ensures Distinct(s) && TailBackwards(s, buf) ==>
              |r| == Min(WINDOW_SIZE, |s|) && TailBackwards(s, r)
    decreases WINDOW_SIZE - |buf|
  {
    if |buf| < WINDOW_SIZE then
      match Prev(s, Some(buf[|buf| - 1]))
      case Some(x) => FillBackward(s, buf + [x])
      case None => buf
    else
      buf
  }

  /** `buf` is the last `|buf|` items of the stream, read from the end. */
  predicate TailBackwards<T(==)>(s: seq<T>, buf: seq<T>) {
    && |buf| <= |s|
    && forall k :: 0 <= k < |buf| ==> buf[k] == s[|s| - 1 - k]
  }

  /**
   `ResetItems(end)`: refill the window from the start of the stream with the
   cursor on the first slot, or from the end of the stream with the cursor on the
   last slot. On an empty stream the latter computes `(u32)0 - 1`.
   */
  function ResetItems<T(==)>(s: seq<T>, fromEnd: bool): (w: Window<T>)
    ensures DrawnFrom(s, w.items)
    ensures Distinct(s) && !fromEnd ==>
              w.items == s[..Min(WINDOW_SIZE, |s|)] && w.selection == 0
    ensures Distinct(s) && fromEnd ==>
              && w.items == s[|s| - Min(WINDOW_SIZE, |s|)..]
              && w.selection == if |s| == 0 then U32_MODULUS - 1 else |w.items| - 1
    ensures Distinct(s) ==> Inv(s, w)
  {
    if fromEnd then
      var items :=
        if |s| == 0 then []
        else (
          var x := Prev(s, None).value;
          ResetEndFacts(s);
          Reverse(FillBackward(s, [x])));
      Window(items, WrapU32(|items| - 1))
    else
      var items :=
        if |s| == 0 then []
        else (
          var x := Next(s, None).value;
          ResetStartFacts(s);
          FillForward(s, [x]));
      Window(items, 0)
  }

  lemma ResetStartFacts<T>(s: seq<T>)
    requires |s| > 0
    ensures var items := FillForward(s, [s[0]]);
            && DrawnFrom(s, items)
            && (Distinct(s) ==> items == s[..Min(WINDOW_SIZE, |s|)] && Inv(s, Window(items, 0)))
  {
    var items := FillForward(s, [s[0]]);
    if Distinct(s) {
      assert [s[0]] == s[..1];
      InvWindowAt(s, Window(items, 0), 0);
    }
  }

  lemma ResetEndFacts<T>(s: seq<T>)
    requires |s| > 0
    ensures var items := Reverse(FillBackward(s, [s[|s| - 1]]));
            && DrawnFrom(s, items)
            && (Distinct(s) ==>
                  && items == s[|s| - Min(WINDOW_SIZE, |s|)..]
                  && Inv(s, Window(items, |items| - 1)))
  {
    var buf := FillBackward(s, [s[|s| - 1]]);
    ReverseDrawnFrom(s, buf);
    if Distinct(s) {
      assert TailBackwards(s, [s[|s| - 1]]);
      ReverseTail(s, buf);
      var items := Reverse(buf);
      InvWindowAt(s, Window(items, |items| - 1), |s| - |items|);
    }
  }

  /** Reversing keeps the items. */
  lemma ReverseDrawnFrom<T>(s: seq<T>, buf: seq<T>)
    requires DrawnFrom(s, buf)
    ensures DrawnFrom(s, Reverse(buf))
  {
    var items := Reverse(buf);
    ReverseAt(buf);
    forall x | x in items
      ensures x in s
    {
      var i :| 0 <= i < |items| && items[i] == x;
      assert buf[|buf| - 1 - i] == x;
    }
  }

  /** The stream's tail read backwards, reversed, is the tail. */
  lemma ReverseTail<T>(s: seq<T>, buf: seq<T>)
    requires TailBackwards(s, buf)
    ensures Reverse(buf) == s[|s| - |buf|..]
  {
    ReverseAt(buf);
  }

  // ---------------------------------------------------------------------------
  // MoveSelectedDown / MoveSelectedUp
  // ---------------------------------------------------------------------------

  /**
   `MoveSelectedDown`: move the cursor one slot down, or, when the cursor is at or
   past the middle of a full window, rotate the window one item along the stream.
   */
  function MoveSelectedDown<T(==)>(s: seq<T>, w: Window<T>): (r: Step<T>)
    requires DrawnFrom(s, w.items)
    ensures DrawnFrom(s, r.window.items)
    ensures |r.window.items| == |w.items|
    ensures !r.moved ==> r.window == w
    ensures Inv(s, w) ==> Inv(s, r.window)
    ensures Inv(s, w) ==>
              (r.moved <==> |w.items| > 0 && SelectedPos(s, w) + 1 < |s|)
    ensures Inv(s, w) && r.moved ==>
              SelectedPos(s, r.window) == SelectedPos(s, w) + 1
  {
    if |w.items| == 0 then
      Step(w, false)
    else if |w.items| < WINDOW_SIZE then
      if w.selection == |w.items| - 1 then
        LastSlotIsEnd(s, w);
        Step(w, false)
      else
        CursorDown(s, w);
        Step(w.(selection := WrapU32(w.selection + 1)), true)
    else if w.selection < 2 then
      CursorDown(s, w);
      Step(w.(selection := w.selection + 1), true)
    else
      LastInStream(s, w);
      match Next(s, Some(w.items[|w.items| - 1]))
      case Some(x) =>
        RotateDown(s, w, x);
        Step(w.(items := w.items[1..] + [x]), true)
      case None =>
        WindowAtEnd(s, w);
        if w.selection < 4 then
          CursorDown(s, w);
          Step(w.(selection := w.selection + 1), true)
        else
          Step(w, false)
  }

  /** The last item of a window drawn from the stream is in the stream. */
  lemma LastInStream<T>(s: seq<T>, w: Window<T>)
    requires DrawnFrom(s, w.items) && |w.items| > 0
    ensures w.items[0] in s && w.items[|w.items| - 1] in s
  {
    assert w.items[0] in w.items;
    assert w.items[|w.items| - 1] in w.items;
  }

  /** A window with no successor ends at the end of the stream. */
  lemma WindowAtEnd<T>(s: seq<T>, w: Window<T>)
    requires DrawnFrom(s, w.items) && |w.items| > 0
    requires w.items[|w.items| - 1] in s && Next(s, Some(w.items[|w.items| - 1])).None?
    ensures Inv(s, w) ==> IndexOf(s, w.items[0]) + |w.items| == |s|
  {
    if Inv(s, w) {
      var lo := IndexOf(s, w.items[0]);
      IndexOfAt(s, lo + |w.items| - 1);
    }
  }

  /** A short window holds the whole stream, so its last slot is the stream's last item. */
  lemma LastSlotIsEnd<T>(s: seq<T>, w: Window<T>)
    requires 0 < |w.items| < WINDOW_SIZE && w.selection == |w.items| - 1
    ensures Inv(s, w) ==> SelectedPos(s, w) + 1 == |s|
  {
  }

  /** Moving the cursor down one slot inside the window, with the window kept. */
  lemma CursorDown<T>(s: seq<T>, w: Window<T>)
    requires 0 < |w.items|
    requires |w.items| < WINDOW_SIZE ==> w.selection != |w.items| - 1
    requires |w.items| >= WINDOW_SIZE ==>
               w.selection < 2 || (w.selection < 4 && (Inv(s, w) ==> IndexOf(s, w.items[0]) + |w.items| == |s|))
    ensures var w' := w.(selection := WrapU32(w.selection + 1));
            Inv(s, w) ==>
              && Inv(s, w')
              && SelectedPos(s, w) + 1 < |s|
              && SelectedPos(s, w') == SelectedPos(s, w) + 1
  {
    if Inv(s, w) {
      var w' := w.(selection := WrapU32(w.selection + 1));
      InvWindowAt(s, w', IndexOf(s, w.items[0]));
    }
  }

  /** Rotating a full window one item forward when the stream has a next item. */
  lemma RotateDown<T>(s: seq<T>, w: Window<T>, x: T)
    requires DrawnFrom(s, w.items) && |w.items| >= WINDOW_SIZE && w.selection >= 2
    requires w.items[|w.items| - 1] in s && Next(s, Some(w.items[|w.items| - 1])) == Some(x)
    ensures var w' := w.(items := w.items[1..] + [x]);
            && DrawnFrom(s, w'.items)
            && (Inv(s, w) ==>
                  && Inv(s, w')
                  && SelectedPos(s, w) + 1 < |s|
                  && SelectedPos(s, w') == SelectedPos(s, w) + 1)
  {
    var w' := w.(items := w.items[1..] + [x]);
    forall y | y in w'.items
      ensures y in s
    {
      if y != x {
        assert y in w.items;
      }
    }
    if Inv(s, w) {
      var lo := IndexOf(s, w.items[0]);
      var n := |w.items|;
      IndexOfAt(s, lo + n - 1);
      assert w'.items == s[lo + 1..lo + 1 + n];
      InvWindowAt(s, w', lo + 1);
    }
  }

  /**
   `MoveSelectedUp`: move the cursor one slot up, or, when the cursor is at or
   before the middle of a full window, rotate the window one item back along the
   stream.
   */
  function MoveSelectedUp<T(==)>(s: seq<T>, w: Window<T>): (r: Step<T>)
    requires DrawnFrom(s, w.items)
    ensures DrawnFrom(s, r.window.items)
    ensures |r.window.items| == |w.items|
    ensures !r.moved ==> r.window == w
    ensures Inv(s, w) ==> Inv(s, r.window)
    ensures Inv(s, w) ==>
              (r.moved <==> |w.items| > 0 && SelectedPos(s, w) > 0)
    ensures Inv(s, w) && r.moved ==>
              SelectedPos(s, r.window) + 1 == SelectedPos(s, w)
  {
    if |w.items| == 0 then
      Step(w, false)
    else if |w.items| < WINDOW_SIZE then
      if w.selection == 0 then
        Step(w, false)
      else
        CursorUp(s, w);
        Step(w.(selection := w.selection - 1), true)
    else if w.selection > 2 then
      CursorUp(s, w);
      Step(w.(selection := w.selection - 1), true)
    else
      LastInStream(s, w);
      match Prev(s, Some(w.items[0]))
      case Some(x) =>
        RotateUp(s, w, x);
        Step(w.(items := [x] + w.items[..|w.items| - 1]), true)
      case None =>
        if w.selection > 0 then
          CursorUp(s, w);
          Step(w.(selection := w.selection - 1), true)
        else
          Step(w, false)
  }

  /** Moving the cursor up one slot inside the window, with the window kept. */
  lemma CursorUp<T>(s: seq<T>, w: Window<T>)
    requires 0 < w.selection && 0 < |w.items|
    requires |w.items| >= WINDOW_SIZE && w.selection <= 2 ==>
               DrawnFrom(s, w.items) && w.items[0] in s && Prev(s, Some(w.items[0])).None?
    ensures var w' := w.(selection := w.selection - 1);
            Inv(s, w) ==>
              && Inv(s, w')
              && SelectedPos(s, w) > 0
              && SelectedPos(s, w') + 1 == SelectedPos(s, w)
  {
    if Inv(s, w) {
      var w' := w.(selection := w.selection - 1);
      InvWindowAt(s, w', IndexOf(s, w.items[0]));
    }
  }

  /** Rotating a full window one item back when the stream has a previous item. */
  lemma RotateUp<T>(s: seq<T>, w: Window<T>, x: T)
    requires DrawnFrom(s, w.items) && |w.items| >= WINDOW_SIZE && w.selection <= 2
    requires w.items[0] in s && Prev(s, Some(w.items[0])) == Some(x)
    ensures var w' := w.(items := [x] + w.items[..|w.items| - 1]);
            && DrawnFrom(s, w'.items)
            && (Inv(s, w) ==>
                  && Inv(s, w')
                  && SelectedPos(s, w) > 0
                  && SelectedPos(s, w') + 1 == SelectedPos(s, w))
  {
    var w' := w.(items := [x] + w.items[..|w.items| - 1]);
    forall y | y in w'.items
      ensures y in s
    {
      if y != x {
        assert y in w.items;
      }
    }
    if Inv(s, w) {
      var lo := IndexOf(s, w.items[0]);
      var n := |w.items|;
      assert w'.items == s[lo - 1..lo - 1 + n];
      InvWindowAt(s, w', lo - 1);
    }
  }

  // ---------------------------------------------------------------------------
  // Move
  // ---------------------------------------------------------------------------

  /**
   `Move` for a positive count `i`: step down until a step does not move or `i`
   steps have been taken.
   */
  function MoveDownBy<T(==)>(s: seq<T>, w: Window<T>, i: int): (r: Window<T>)
    requires i > 0 && DrawnFrom(s, w.items)
    ensures DrawnFrom(s, r.items) && |r.items| == |w.items|
    ensures Inv(s, w) ==> Inv(s, r)
    ensures Inv(s, w) && |w.items| > 0 ==>
              SelectedPos(s, r) == Min(SelectedPos(s, w) + i, |s| - 1)
    decreases i
  {
    var st := MoveSelectedDown(s, w);
    if st.moved && i - 1 > 0 then MoveDownBy(s, st.window, i - 1) else st.window
  }

  /**
   `Move` for a negative count `i`: step up until a step does not move or `-i`
   steps have been taken.
   */
  function MoveUpBy<T(==)>(s: seq<T>, w: Window<T>, i: int): (r: Window<T>)
    requires i < 0 && DrawnFrom(s, w.items)
    ensures DrawnFrom(s, r.items) && |r.items| == |w.items|
    ensures Inv(s, w) ==> Inv(s, r)
    ensures Inv(s, w) && |w.items| > 0 ==>
              SelectedPos(s, r) == Max(SelectedPos(s, w) + i, 0)
    decreases -i
  {
    var st := MoveSelectedUp(s, w);
    if st.moved && i + 1 < 0 then MoveUpBy(s, st.window, i + 1) else st.window
  }

  /**
   `Move(delta)`: take up to |delta| single steps in the direction of the sign of
   `delta`, stopping at the first step that does not move. The cursor therefore
   lands `delta` stream positions away, clamped to the ends of the stream.
   */
  function Move<T(==)>(s: seq<T>, w: Window<T>, delta: i32): (r: Window<T>)
    requires DrawnFrom(s, w.items)
    ensures DrawnFrom(s, r.items) && |r.items| == |w.items|
    ensures Inv(s, w) ==> Inv(s, r)
    ensures Inv(s, w) && |w.items| > 0 ==>
              SelectedPos(s, r) == Max(0, Min(SelectedPos(s, w) + delta, |s| - 1))
    ensures |w.items| == 0 || delta == 0 ==> r == w
  {
    if delta < 0 then MoveUpBy(s, w, delta)
    else if delta > 0 then MoveDownBy(s, w, delta)
    else w
  }
}
