# NoMoreShortcuts launcher control state, in Dafny

This project models two small state machines from the launcher's control code. Both
appear in `src/nms-search/nms_Search.cpp` and, almost unchanged, in the older
`src/nomoreshortcuts/core/NoMoreShortcuts.cpp`.

- **The result viewport.** This is a window of at most five result items with a
  selection cursor, laid over the ordered result stream. The priority collector
  produces that stream by chaining the favourites list and the file-index list.
  - `ResetItems(end)` refills the window from the front or the back of the stream.
  - `MoveSelectedUp` and `MoveSelectedDown` either move the cursor or rotate the
    window by one item. Each returns `false` when nothing moves.
  - `Move(delta)` repeats single steps.
- **The query keyword editor.** This is the keyword list the user types.
  - `OnChar` appends a character, or opens a new keyword on a space.
  - Backspace removes a character or drops an empty trailing keyword.
  - `ResetQuery` clears the query.
  - `JoinQuery` builds the string shown in the query box.
- **The Ctrl+C path text.** The selected path is copied with every backslash
  turned into a forward slash.

## Modules

- `stream.dfy` (`ResultStream`): the result stream as a sequence `s`. The collector's
  `Next(item)` / `Prev(item)` become `Next(s, cur)` / `Prev(s, cur)`, with `None` for
  the null cursor.
- `viewport.dfy` (`Viewport`): the window as `Window(items, selection)`, where
  `selection` is a `u32`. It defines `ResetItems`, `MoveSelectedDown`, `MoveSelectedUp`
  and `Move`, plus the invariant `Inv`:
  - the window is a contiguous run of the stream;
  - it holds `min(5, |s|)` items;
  - the cursor is inside the window;
  - a cursor past the middle slot means the window ends at the end of the stream;
  - a cursor before the middle slot means the window starts at the start of the stream.
- `traversal.dfy` (`Traversal`): the items the cursor visits when Down or Up is
  pressed repeatedly.
- `query.dfy` (`Query`): the keyword invariant, `JoinQuery`, and splitting the
  joined string back into keywords.
- `clipboard.dfy` (`Clipboard`): the Ctrl+C buffer.
- `launcher.dfy` (`Launcher`): the control state `State(keywords, stream, window)` and
  its per-keystroke transitions.
  - The result lists' filtering is an external collaborator and enters as the
    function parameter `filter`.
  - In `src/nms-search`, `filter` is `FilterStrings(keywords)`.
  - In the older file it is `Query(SET, JoinQuery())`, modelled by `LegacyFilter`.
  - Apart from that argument, the two files' transitions are the same.

## Model

| member | source | states |
|---|---|---|
| Viewport.ResetItems | src/nms-search/nms_Search.cpp:107-141 | On a stream without duplicates, `ResetItems(false)` gives the first min(5,\|s\|) items in stream order with selection 0. `ResetItems(true)` gives the last min(5,\|s\|) items in stream order with the selection on the last slot. On an empty stream that selection is 2^32-1. Either way the viewport invariant holds. The same code is at src/nomoreshortcuts/core/NoMoreShortcuts.cpp:94-128. |
| Viewport.FillForward | src/nms-search/nms_Search.cpp:128-138 | The pull loop starts from a prefix of the stream and stops at five items or at the stream's end. Its result is the first min(5,\|s\|) items. |
| Viewport.FillBackward | src/nms-search/nms_Search.cpp:112-123 | The backward pull loop starts from the stream's tail read backwards. Its result is the last min(5,\|s\|) items in reverse order, which `std::reverse` then puts back in stream order. |
| Viewport.WrapU32 | src/nms-search/nms_Search.cpp:124 | The `(u32)` conversion leaves values in range unchanged and maps a negative value to that value plus 2^32. |
| Viewport.MoveSelectedDown | src/nms-search/nms_Search.cpp:224-259 | Properties of one Down step: the window size never changes; the viewport invariant is preserved; a step that moves puts the selection exactly one stream position later; it returns false iff the window is empty or the selected item is the stream's last, and then nothing changes. The same code is at src/nomoreshortcuts/core/NoMoreShortcuts.cpp:211-246. |
| Viewport.MoveSelectedUp | src/nms-search/nms_Search.cpp:187-222 | The mirror image of `MoveSelectedDown`: a move goes exactly one stream position earlier, and it returns false iff the window is empty or the stream's first item is selected. The same code is at src/nomoreshortcuts/core/NoMoreShortcuts.cpp:174-209. |
| Viewport.MoveDownBy | src/nms-search/nms_Search.cpp:183 | Stepping down until a step does not move or i steps are taken keeps the invariant and leaves the selection at min(p+i, \|s\|-1). Here p is the starting stream position. |
| Viewport.MoveUpBy | src/nms-search/nms_Search.cpp:179 | Stepping up until a step does not move or -i steps are taken keeps the invariant and leaves the selection at max(p+i, 0). |
| Viewport.Move | src/nomoreshortcuts/core/NoMoreShortcuts.cpp:161-172 | `Move(d)` moves the selection d stream positions, clamped to the stream's ends. It stops at the first step that does not move and never takes more than \|d\| steps. An empty window or d = 0 changes nothing. The same code is at src/nms-search/nms_Search.cpp:174-185. |
| Traversal.WalkDownSuffix | src/nms-search/nms_Search.cpp:224-259 | Pressing Down until no movement, starting from any valid non-empty window, selects exactly the stream suffix that begins at the selected item, in order. The walk terminates because every true step advances the selection. |
| Traversal.WalkUpPrefix | src/nms-search/nms_Search.cpp:187-222 | Pressing Up until no movement selects the stream prefix that ends at the selected item, in reverse order. |
| Traversal.TraverseFromStart | src/nomoreshortcuts/core/NoMoreShortcuts.cpp:94-246 | From `ResetItems(false)`, repeated `MoveSelectedDown` selects every stream item exactly once, in stream order, before returning false. |
| Traversal.TraverseFromEnd | src/nms-search/nms_Search.cpp:107-222 | From `ResetItems(true)`, repeated `MoveSelectedUp` selects every stream item exactly once, in reverse stream order, before returning false. |
| Query.JoinQuery | src/nms-search/nms_Search.cpp:153-167 | The loop's string is the reference joining: the non-empty keywords in order, separated by single spaces. |
| Query.JoinedKeywords | src/nms-search/nms_Search.cpp:153-167 | The query string is empty iff every keyword is empty. When no keyword contains a space, it has no leading, trailing or doubled spaces. |
| Query.NonEmptyKeeps | src/nms-search/nms_Search.cpp:153-167 | The keywords that `JoinQuery` puts into the string are keywords of the list, and none of them is empty. |
| Query.NonEmptyNone | src/nms-search/nms_Search.cpp:153-167 | `JoinQuery` skips every keyword exactly when all of them are empty. |
| Query.JoinedSpacing | src/nomoreshortcuts/core/NoMoreShortcuts.cpp:140-154 | Joining non-empty words that contain no space gives exactly one space between neighbours and none at either end. |
| Query.SplitJoined | src/nomoreshortcuts/core/NoMoreShortcuts.cpp:140-154 | Splitting the joined string on spaces gives back exactly the words that were joined. |
| Query.QueryRoundTrip | src/nomoreshortcuts/core/NoMoreShortcuts.cpp:493 | For well-formed keywords, the single query string that the older variant sends determines the non-empty keywords: splitting it gives them back, and it is empty iff there are none. |
| Launcher.CharOf | src/nms-search/nms_Search.cpp:479 | `static_cast<c8>(codepoint)` keeps only the code point's low byte, as a signed char. |
| Launcher.OnChar | src/nms-search/nms_Search.cpp:477-495 | The keywords change iff the low byte is in 0x20..0x7E, and a space additionally needs a non-empty last keyword and fewer than 8 keywords. Rejected input leaves the keywords, results and window unchanged. An accepted space appends an empty keyword without re-filtering, so the joined query is unchanged. Any other accepted byte is appended to the last keyword and re-filters. After any change the window is reset to the start. The keyword invariant and the viewport invariant are preserved. The same code is at src/nomoreshortcuts/core/NoMoreShortcuts.cpp:474-496. |
| Launcher.Requery | src/nms-search/nms_Search.cpp:492-494 | Re-filtering and `UpdateQuery` give the filter's results for the new keywords, shown from the first item with selection 0. |
| Launcher.ResetQuery | src/nms-search/nms_Search.cpp:143-151 | The keywords become `[""]`, which is well-formed and joins to the empty query. The results are re-filtered and the window is valid. The same code is at src/nomoreshortcuts/core/NoMoreShortcuts.cpp:130-138. |
| Launcher.Backspace | src/nms-search/nms_Search.cpp:575-598 | Shift+Backspace resets the query. Otherwise Backspace removes one character from a non-empty last keyword, or drops an empty last keyword when more than one keyword remains, or changes nothing. Every change, and Shift+Backspace always, re-filters the results and refills the window from the first item with selection 0. Both invariants are preserved. The same code is at src/nomoreshortcuts/core/NoMoreShortcuts.cpp:562-585. |
| Launcher.OnKey | src/nms-search/nms_Search.cpp:515-598 | Down and Up move the selection one stream position, clamped at the ends. Left refills the window with the first min(5,\|s\|) items and selection 0. Right refills it with the last min(5,\|s\|) items and the selection on the last slot, or 2^32-1 when the stream is empty. None of these touch the keywords or the results. Every key preserves both invariants. |
| Launcher.CopySelected | src/nms-search/nms_Search.cpp:599-617 | Ctrl+C copies nothing when the window is empty. Otherwise it yields the selected path's clipboard text: |path|+1 bytes ending in NUL, with every byte before the path's first NUL slash-converted and every later byte copied unchanged. For a path without NUL bytes, that text is the slash-converted path. |
| Clipboard.CopyText | src/nomoreshortcuts/core/NoMoreShortcuts.cpp:595-599 | The buffer is one byte longer than the path and ends in NUL. Every byte before the path's first NUL is slash-converted, and every later byte is copied unchanged. For a path without NUL bytes, the text is the path with each `\` replaced by `/` and every other byte unchanged. |
| Launcher.Initial | src/nms-search/nms_Search.cpp:77 | Start-up holds the single empty keyword. When the results have no duplicates, the window is valid and at the start. |
| Launcher.SessionValid | src/nms-search/nms_Search.cpp:477-598 | From any valid state, every sequence of typed characters and key presses keeps the state valid: 1 to 8 keywords, only the last possibly empty, no spaces, and a valid viewport. This assumes the result lists never show an item twice. |
| Launcher.StartupSessionValid | src/nomoreshortcuts/core/NoMoreShortcuts.cpp:77-91 | Every state reachable from start-up is valid. |
| Launcher.BackspaceUndoesChar | src/nms-search/nms_Search.cpp:477-598 | Backspace after an accepted `OnChar` restores the keywords that were there before it. |
| Launcher.LegacyIgnoresEmptyKeywords | src/nomoreshortcuts/core/NoMoreShortcuts.cpp:474-496 | In the older variant, opening or dropping an empty keyword does not change the query sent to the result lists. `Query(SET, "")` in its `ResetQuery` is the query for `[""]`. |
| ResultStream.NextPrevInverse | src/nms-search/nms_Search.cpp:205-246 | On a stream without duplicates, the collector's `Prev` undoes `Next` and the reverse also holds. |

## Behaviour worth noting

- **Window rotation.** A full window rotates one item along the stream when the
  selection is on the middle slot (slot 2) and the stream continues past the window
  (src/nms-search/nms_Search.cpp:236-255). When the window already touches an end of
  the stream, the cursor moves on to the edge slots instead.
- **Keyword case.** `OnChar` stores characters exactly as typed; there is no case
  folding.
- **Reset from the end on an empty stream.** The selection is `(u32)0 - 1`, i.e.
  2^32-1, as stated for `ResetItems`. Every reader of `items[selection]` checks
  `items.empty()` first, and the invariant gives `selection < |items|` whenever the
  window is not empty.

## Left out

- Window, swapchain and GPU setup in both `App` constructors are left out, except the
  initial keyword. So are both `Draw` functions, `Run`, and `src/main.cpp`. These are
  rendering and the event loop, with floating-point layout.
- `UpdateIndex`, the index loading and crawling, and the Ctrl+F5 indexing thread are
  left out. They are file I/O and concurrency.
- Escape is left out. It only hides the window, and with Shift also ends the event
  loop (src/nms-search/nms_Search.cpp:517-520).
- Enter and Shift+Delete are left out for their other effects. Enter launches the
  selected item (`ShellExecuteA`, `std::system`) and increments its use count;
  Shift+Delete resets its use count. Both act on the favourites list, which is not part
  of this model. Both then call `ResetQuery` (src/nms-search/nms_Search.cpp:539, 573),
  and that call is modelled as `Launcher.ResetQuery`.
- F5 is left out. It rebuilds the result lists.
- The Win32 clipboard calls of Ctrl+C are left out, as is the `IncrementUses` call that
  the newer variant adds there. Only the buffer contents are modelled.
- The favourites list, the file-index list and the priority collector are not part of
  this model. The stream they produce is a sequence. `FilterStrings` and `Query` enter
  as the parameter `filter`.
- The collector's de-duplication is not modelled. The viewport properties are stated
  for streams without duplicates.
- `src/indexer/UnicodeCollator.hpp` and the two platform headers are left out. They
  only declare functions whose bodies are not part of this model.
- Launcher.Initial: the start-up results are taken to be `filter([""])`. The newer
  constructor filters only the file list, through `UpdateIndex`
  (src/nms-search/nms_Search.cpp:93, 507), and never filters the favourites list. The
  older constructor sends no query at all (src/nomoreshortcuts/core/NoMoreShortcuts.cpp:81-91).
  It also hands the favourites list a pointer to the keywords (line 82), which
  `LegacyFilter` does not capture. `StartupSessionValid` does not depend on this
  choice, because `SessionValid` holds from any valid state.
- Launcher.Ready: the transitions require a non-empty keyword list and a window whose
  items come from the current stream. The code indexes `keywords[keywords.size() - 1]`
  and passes window items to `Next`/`Prev`, so it assumes both.
- Viewport.ResetItems: its results are stated only for streams without duplicates.
  With duplicates, `Next` continues from an item's first occurrence.
