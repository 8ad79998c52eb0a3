/**
 The text Ctrl+C puts on the clipboard: the selected item's path, copied with its
 terminating NUL into a fresh buffer, with every backslash turned into a forward
 slash up to the first NUL.
 */
module Clipboard {

  type byte = x: int | 0 <= x < 256

  const NUL: byte := 0
  const BACKSLASH: byte := 0x5C
  const SLASH: byte := 0x2F

  /** One byte of the copied text. */
  function ToSlash(b: byte): (r: byte)
    ensures r != BACKSLASH
    ensures b != BACKSLASH ==> r == b
    ensures r != b ==> b == BACKSLASH && r == SLASH
  {
    if b == BACKSLASH then SLASH else b
  }

  /** The position of the first NUL byte of `path`, or `|path|` when there is none. */
  function TextEnd(path: seq<byte>): (n: nat)
    ensures n <= |path|
    ensures n < |path| ==> path[n] == NUL
    ensures forall i :: 0 <= i < n ==> path[i] != NUL
  {
    if path == [] then 0
    else if path[0] == NUL then 0
    else 1 + TextEnd(path[1..])
  }

  /** The path with every backslash replaced by a forward slash. */
  function SlashPath(path: seq<byte>): (r: seq<byte>)
    ensures |r| == |path|
    ensures forall i :: 0 <= i < |path| ==> r[i] == ToSlash(path[i])
  {
    if path == [] then [] else [ToSlash(path[0])] + SlashPath(path[1..])
  }

  /**
   The clipboard buffer for `path`: `path` and its terminating NUL, then a pass
   from the first byte that replaces each backslash by a forward slash and stops
   at the first NUL byte.
   */
  method CopyText(path: seq<byte>) returns (buf: seq<byte>)
    ensures |buf| == |path| + 1 && buf[|path|] == NUL
    ensures forall i :: 0 <= i < |path| ==>
              buf[i] == if i < TextEnd(path) then ToSlash(path[i]) else path[i]
    ensures TextEnd(path) == |path| ==> buf[..|path|] == SlashPath(path)
  {
    buf := path + [NUL];
    var i := 0;
    while buf[i] != NUL
      invariant 0 <= i <= TextEnd(path)
      invariant |buf| == |path| + 1 && buf[|path|] == NUL
      invariant forall j :: 0 <= j < i ==> buf[j] == ToSlash(path[j])
      invariant forall j :: i <= j < |path| ==> buf[j] == path[j]
      decreases |path| - i
    {
      buf := buf[i := ToSlash(buf[i])];
      i := i + 1;
    }
  }
}
