/**
 The ordered result stream the launcher's viewport is laid over.

 In the launcher the stream is produced by a priority collector that chains the
 favourites list and the file-index list; the viewport can reach it only through
 `Next(item)` and `Prev(item)`, where a null cursor means "from the start" or
 "from the end". Here the stream is an explicit sequence, and the two cursor
 operations are defined on it. The collector never surfaces the same path twice,
 so the properties below are stated for streams without duplicates.
 */
module ResultStream {

  /** A cursor result or argument: `None` plays the role of the null item. */
  datatype Option<+T> = None | Some(value: T)

  /** No item occurs twice in the stream. */
  predicate Distinct<T(==)>(s: seq<T>) {
    forall i, j :: 0 <= i < j < |s| ==> s[i] != s[j]
  }

  /** Every item of `items` comes from the stream `s`. */
  predicate DrawnFrom<T(==)>(s: seq<T>, items: seq<T>) {
    forall x :: x in items ==> x in s
  }

  /** The position of the first occurrence of `x` in `s`. */
  function IndexOf<T(==)>(s: seq<T>, x: T): (i: nat)
    requires x in s
    ensures i < |s| && s[i] == x
    ensures forall j :: 0 <= j < i ==> s[j] != x
  {
    if s[0] == x then 0 else 1 + IndexOf(s[1..], x)
  }

  /** In a stream without duplicates, an item's position is where it stands. */
  lemma IndexOfAt<T>(s: seq<T>, k: int)
    requires Distinct(s) && 0 <= k < |s|
    ensures IndexOf(s, s[k]) == k
  {
  }

  /** The item after `cur`, or the first item when `cur` is `None`. */
  function Next<T(==)>(s: seq<T>, cur: Option<T>): (r: Option<T>)
    requires cur.Some? ==> cur.value in s
    ensures r.Some? ==> r.value in s
    ensures cur.None? ==> (r.Some? <==> |s| > 0)
    ensures cur.Some? ==> (r.Some? <==> IndexOf(s, cur.value) + 1 < |s|)
  {
    match cur
    case None => if |s| > 0 then Some(s[0]) else None
    case Some(x) =>
      var i := IndexOf(s, x);
      if i + 1 < |s| then Some(s[i + 1]) else None
  }

  /** The item before `cur`, or the last item when `cur` is `None`. */
  function Prev<T(==)>(s: seq<T>, cur: Option<T>): (r: Option<T>)
    requires cur.Some? ==> cur.value in s
    ensures r.Some? ==> r.value in s
    ensures cur.None? ==> (r.Some? <==> |s| > 0)
    ensures cur.Some? ==> (r.Some? <==> IndexOf(s, cur.value) > 0)
  {
    match cur
    case None => if |s| > 0 then Some(s[|s| - 1]) else None
    case Some(x) =>
      var i := IndexOf(s, x);
      if i > 0 then Some(s[i - 1]) else None
  }

  /** `Prev` undoes `Next` and vice versa, on a stream without duplicates. */
  lemma NextPrevInverse<T>(s: seq<T>, x: T, y: T)
    requires Distinct(s) && x in s && y in s
    ensures Next(s, Some(x)) == Some(y) <==> Prev(s, Some(y)) == Some(x)
  {
  }
}
