/**
 The launcher's control state and its per-keystroke transitions (`App::OnChar`,
 the navigation, Backspace and Ctrl+C branches of `App::OnKey`, `App::ResetQuery`).

 The result stream is whatever the result lists produce for the current keywords;
 that filtering is not part of this model and enters as the parameter `filter`.
 In `src/nms-search` it is `FilterStrings(keywords)`; in the older
 `src/nomoreshortcuts` it is `Query(SET, JoinQuery())`, which is `LegacyFilter`.
 */
module Launcher {
  import opened ResultStream
  import opened Viewport
  import opened Query
  import Clipboard

  datatype State<T> = State(keywords: seq<string>, stream: seq<T>, window: Window<T>)

  /** The keyword invariant and the viewport invariant together. */
  predicate Valid<T(==)>(a: State<T>) {
    WellFormed(a.keywords) && Inv(a.stream, a.window)
  }

  /** Both transitions below may read the current window's boundary items. */
  predicate Ready<T(==)>(a: State<T>) {
    |a.keywords| > 0 && DrawnFrom(a.stream, a.window.items)
  }

  /** The state on start-up: one empty keyword and the window at the start of the results. */
  function Initial<T(==)>(filter: seq<string> -> seq<T>): (a: State<T>)
    ensures a.keywords == [""] && Ready(a)
    ensures Distinct(a.stream) ==> Valid(a) && a.window.selection == 0
  {
    State([""], filter([""]), ResetItems(filter([""]), false))
  }

  /** Re-filter for new keywords, then `UpdateQuery`, which refills the window from the start. */
  function Requery<T(==)>(kw: seq<string>, filter: seq<string> -> seq<T>): (a: State<T>)
    ensures a.keywords == kw && a.stream == filter(kw)
    ensures DrawnFrom(a.stream, a.window.items)
    ensures Distinct(a.stream) ==>
              Inv(a.stream, a.window) && a.window.selection == 0
              && a.window.items == a.stream[..Min(WINDOW_SIZE, |a.stream|)]
  {
    var s := filter(kw);
    State(kw, s, ResetItems(s, false))
  }

  // ---------------------------------------------------------------------------
  // OnChar
  // ---------------------------------------------------------------------------

  /** `static_cast<char>(codepoint)`: the low byte, read as a signed `char`. */
  function CharOf(codepoint: u32): (c: int)
    ensures -128 <= c < 128
    ensures c % 256 == codepoint % 256
  {
    var b := codepoint % 256;
    if b >= 128 then b - 256 else b
  }

  /** The byte `OnChar` looks at: the code point's low byte. */
  function LowByte(codepoint: u32): int {
    codepoint % 256
  }

  /**
   `OnChar`: a space opens a new empty keyword when the keyword being typed is
   non-empty and there are fewer than eight keywords; any other printable ASCII
   character is appended to the keyword being typed and the results are
   re-filtered. Anything else is ignored and changes nothing.
   */
  function OnChar<T(==)>(a: State<T>, codepoint: u32, filter: seq<string> -> seq<T>): (r: State<T>)
    requires Ready(a)
    ensures Ready(r)
    ensures WellFormed(a.keywords) ==> WellFormed(r.keywords)
    ensures Valid(a) && Distinct(r.stream) ==> Valid(r)
    ensures r == a || r.keywords != a.keywords
    ensures var n := |a.keywords|;
            r.keywords != a.keywords <==>
              && 0x20 <= LowByte(codepoint) <= 0x7E
              && (LowByte(codepoint) == 0x20 ==> a.keywords[n - 1] != "" && n != MAX_KEYWORDS)
    ensures LowByte(codepoint) == 0x20 && r.keywords != a.keywords ==>
              r.keywords == a.keywords + [""] && r.stream == a.stream
              && Joined(NonEmpty(r.keywords)) == Joined(NonEmpty(a.keywords))
    ensures LowByte(codepoint) != 0x20 && r.keywords != a.keywords ==>
              var n := |a.keywords|;
              && |r.keywords| == n
              && r.keywords[..n - 1] == a.keywords[..n - 1]
              && r.keywords[n - 1] == a.keywords[n - 1] + [LowByte(codepoint) as char]
              && r.stream == filter(r.keywords)
    ensures r != a && Distinct(r.stream) ==>
              r.window.selection == 0 && r.window.items == r.stream[..Min(WINDOW_SIZE, |r.stream|)]
  {
    var c := CharOf(codepoint);
    var n := |a.keywords|;
    var keyword := a.keywords[n - 1];
    PrintableByte(codepoint);
    if c == 0x20 then
      if |keyword| == 0 || n == MAX_KEYWORDS then a
      else
        OpenKeyword(a.keywords);
        NonEmptyEmptyLast(a.keywords);
        State(a.keywords + [""], a.stream, ResetItems(a.stream, false))
    else if c < 0x20 || c > 0x7E then
      a
    else
      TypeChar(a.keywords, c as char);
      Requery(a.keywords[n - 1 := keyword + [c as char]], filter)
  }

  /** The signed reading and the unsigned reading agree on printable ASCII. */
  lemma PrintableByte(codepoint: u32)
    ensures 0x20 <= CharOf(codepoint) <= 0x7E <==> 0x20 <= LowByte(codepoint) <= 0x7E
    ensures 0 <= CharOf(codepoint) ==> CharOf(codepoint) == LowByte(codepoint)
  {
  }

  /** A space after a non-empty keyword opens an empty one. */
  lemma OpenKeyword(kw: seq<string>)
    requires 0 < |kw| && |kw| != MAX_KEYWORDS && kw[|kw| - 1] != ""
    ensures WellFormed(kw) ==> WellFormed(kw + [""])
  {
    if WellFormed(kw) {
      var kw' := kw + [""];
      assert forall i :: 0 <= i < |kw| ==> kw'[i] == kw[i];
    }
  }

  /** Typing a keyword character extends the keyword being typed. */
  lemma TypeChar(kw: seq<string>, c: char)
    requires 0 < |kw| && KeywordChar(c)
    ensures var n := |kw|;
            var kw' := kw[n - 1 := kw[n - 1] + [c]];
            && kw'[..n - 1] == kw[..n - 1]
            && (WellFormed(kw) ==> WellFormed(kw'))
  {
    var n := |kw|;
    var kw' := kw[n - 1 := kw[n - 1] + [c]];
    assert kw'[..n - 1] == kw[..n - 1];
  }

  // ---------------------------------------------------------------------------
  // ResetQuery and the keys of OnKey
  // ---------------------------------------------------------------------------

  /** `ResetQuery`: back to one empty keyword, re-filtered, window at the start. */
  function ResetQuery<T(==)>(a: State<T>, filter: seq<string> -> seq<T>): (r: State<T>)
    ensures Ready(r) && WellFormed(r.keywords)
    ensures Joined(NonEmpty(r.keywords)) == ""
    ensures r.stream == filter([""])
    ensures Distinct(r.stream) ==> Valid(r) && r.window.selection == 0
  {
    Requery([""], filter)
  }

  /**
   Backspace: with Shift, `ResetQuery`; otherwise remove the last character of
   the keyword being typed, or, when that keyword is empty, drop it unless it is
   the only one. Any change, and Shift+Backspace always, re-filters the results
   and refills the window from the first item.
   */
  function Backspace<T(==)>(a: State<T>, shift: bool, filter: seq<string> -> seq<T>): (r: State<T>)
    requires Ready(a)
    ensures Ready(r)
    ensures WellFormed(a.keywords) ==> WellFormed(r.keywords)
    ensures Valid(a) && Distinct(r.stream) ==> Valid(r)
    ensures shift ==> r.keywords == [""]
    ensures var n := |a.keywords|;
            var last := a.keywords[n - 1];
            && (!shift && last != "" ==>
                  && |r.keywords| == n
                  && r.keywords[..n - 1] == a.keywords[..n - 1]
                  && r.keywords[n - 1] == last[..|last| - 1])
            && (!shift && last == "" && n > 1 ==> r.keywords == a.keywords[..n - 1])
            && (!shift && last == "" && n == 1 ==> r == a)
    ensures shift || r.keywords != a.keywords ==>
              && r.stream == filter(r.keywords)
              && (Distinct(r.stream) ==>
                    r.window.selection == 0 && r.window.items == r.stream[..Min(WINDOW_SIZE, |r.stream|)])
  {
    if shift then
      ResetQuery(a, filter)
    else
      var n := |a.keywords|;
      var keyword := a.keywords[n - 1];
      if |keyword| > 0 then
        var kw := a.keywords[n - 1 := keyword[..|keyword| - 1]];
        assert kw[..n - 1] == a.keywords[..n - 1];
        assert WellFormed(a.keywords) ==> WellFormed(kw) by {
          if WellFormed(a.keywords) {
            assert forall j :: 0 <= j < |kw[n - 1]| ==> kw[n - 1][j] == keyword[j];
          }
        }
        Requery(kw, filter)
      else if n > 1 then
        Requery(a.keywords[..n - 1], filter)
      else
        a
  }

  /** The keys of `OnKey` that act on the query or the viewport. */
  datatype Key = Down | Up | Left | Right | BackspaceKey(shift: bool)

  /**
   `OnKey`: Down and Up move the selection by one item (`Move(1)`, `Move(-1)`),
   Left and Right refill the window from the start or the end of the results,
   Backspace edits the query.
   */
  function OnKey<T(==)>(a: State<T>, key: Key, filter: seq<string> -> seq<T>): (r: State<T>)
    requires Ready(a)
    ensures Ready(r)
    ensures WellFormed(a.keywords) ==> WellFormed(r.keywords)
    ensures Valid(a) && Distinct(r.stream) ==> Valid(r)
    ensures !key.BackspaceKey? ==> r.keywords == a.keywords && r.stream == a.stream
    ensures Valid(a) && |a.window.items| > 0 && (key.Down? || key.Up?) ==>
              SelectedPos(r.stream, r.window)
                == if key.Down? then Min(SelectedPos(a.stream, a.window) + 1, |a.stream| - 1)
                   else Max(SelectedPos(a.stream, a.window) - 1, 0)
    ensures key.Left? && Distinct(a.stream) ==>
              r.window.selection == 0 && r.window.items == a.stream[..Min(WINDOW_SIZE, |a.stream|)]
    ensures key.Right? && Distinct(a.stream) ==>
              && r.window.items == a.stream[|a.stream| - Min(WINDOW_SIZE, |a.stream|)..]
              && r.window.selection == WrapU32(|r.window.items| - 1)
  {
    match key
    case Down => a.(window := Move(a.stream, a.window, 1))
    case Up => a.(window := Move(a.stream, a.window, -1))
    case Left => a.(window := ResetItems(a.stream, false))
    case Right => a.(window := ResetItems(a.stream, true))
    case BackspaceKey(shift) => Backspace(a, shift, filter)
  }

  /**
   Ctrl+C: when the window is not empty, the clipboard text for the selected
   item's path (`pathOf` is `GetPath().string()`); nothing otherwise.
   */
  method CopySelected<T>(a: State<T>, pathOf: T -> seq<Clipboard.byte>) returns (text: Option<seq<Clipboard.byte>>)
    requires |a.window.items| > 0 ==> a.window.selection < |a.window.items|
    ensures text.None? <==> |a.window.items| == 0
    ensures text.Some? ==>
              var path := pathOf(Selected(a.window));
              && |text.value| == |path| + 1 && text.value[|path|] == Clipboard.NUL
              && (forall i :: 0 <= i < |path| ==>
                    text.value[i] == if i < Clipboard.TextEnd(path) then Clipboard.ToSlash(path[i]) else path[i])
              && (Clipboard.TextEnd(path) == |path| ==> text.value[..|path|] == Clipboard.SlashPath(path))
  {
    if |a.window.items| == 0 {
      return None;
    }
    var buf := Clipboard.CopyText(pathOf(Selected(a.window)));
    return Some(buf);
  }

  // ---------------------------------------------------------------------------
  // Properties of whole sessions
  // ---------------------------------------------------------------------------

  datatype Event = Char(codepoint: u32) | Press(key: Key)

  function Handle<T(==)>(a: State<T>, e: Event, filter: seq<string> -> seq<T>): (r: State<T>)
    requires Ready(a)
    ensures Ready(r)
  {
    match e
    case Char(cp) => OnChar(a, cp, filter)
    case Press(key) => OnKey(a, key, filter)
  }

  function Replay<T(==)>(a: State<T>, events: seq<Event>, filter: seq<string> -> seq<T>): (r: State<T>)
    requires Ready(a)
    ensures Ready(r)
    decreases |events|
  {
    if events == [] then a else Replay(Handle(a, events[0], filter), events[1..], filter)
  }

  /**
   From start-up, every sequence of typed characters and key presses keeps the
   keywords well formed and the window a valid view of the current results, as
   long as the result lists never show an item twice.
   */
  lemma {:induction false} SessionValid<T>(events: seq<Event>, filter: seq<string> -> seq<T>, a: State<T>)
    requires forall kw :: Distinct(filter(kw))
    requires Ready(a) && Valid(a)
    ensures Valid(Replay(a, events, filter))
    decreases |events|
  {
    if events != [] {
      var b := Handle(a, events[0], filter);
      assert Distinct(b.stream) by {
        if b.stream != a.stream {
          match events[0]
          case Char(cp) =>
          case Press(key) =>
        }
      }
      SessionValid(events[1..], filter, b);
    }
  }

  /** Both invariants hold in every state reachable from start-up. */
  lemma {:induction false} StartupSessionValid<T>(events: seq<Event>, filter: seq<string> -> seq<T>)
    requires forall kw :: Distinct(filter(kw))
    ensures Valid(Replay(Initial(filter), events, filter))
  {
    SessionValid(events, filter, Initial(filter));
  }

  /** Backspace undoes an accepted character. */
  lemma BackspaceUndoesChar<T>(a: State<T>, codepoint: u32, filter: seq<string> -> seq<T>)
    requires Ready(a)
    requires OnChar(a, codepoint, filter).keywords != a.keywords
    ensures Backspace(OnChar(a, codepoint, filter), false, filter).keywords == a.keywords
  {
  }

  // ---------------------------------------------------------------------------
  // The older variant
  // ---------------------------------------------------------------------------

  /** The filter of `src/nomoreshortcuts`: one query string, `JoinQuery()`. */
  function LegacyFilter<T>(query: string -> seq<T>): (filter: seq<string> -> seq<T>)
    ensures forall kw :: filter(kw) == query(Joined(NonEmpty(kw)))
  {
    kw => query(Joined(NonEmpty(kw)))
  }

  /**
   The older variant re-queries with the joined string, so the results cannot
   see empty keywords: opening or dropping an empty keyword leaves the results
   as they were, and `ResetQuery`'s `Query(SET, "")` is the query of `[""]`.
   */
  lemma LegacyIgnoresEmptyKeywords<T>(query: string -> seq<T>, kw: seq<string>)
    ensures LegacyFilter(query)(kw + [""]) == LegacyFilter(query)(kw)
    ensures LegacyFilter(query)([""]) == query("")
  {
    NonEmptyEmptyLast(kw);
    NonEmptyEmptyLast([]);
    assert [] + [""] == [""];
  }
}
