/**
 The typed query: a list of keywords (`App::keywords`) and the string shown in
 the query box (`App::JoinQuery`).
 */
module Query {

  /** The query holds at most this many keywords. */
  const MAX_KEYWORDS := 8

  /** A character a keyword can hold: printable ASCII other than the space. */
  predicate KeywordChar(c: char) {
    '!' <= c <= '~'
  }

  predicate NoSpace(k: string) {
    forall j :: 0 <= j < |k| ==> k[j] != ' '
  }

  /**
   The keyword invariant: one to eight keywords, only the last one (the keyword
   being typed) may be empty, and keywords hold printable non-space characters.
   */
  predicate WellFormed(kw: seq<string>) {
    && 1 <= |kw| <= MAX_KEYWORDS
    && (forall i :: 0 <= i < |kw| - 1 ==> kw[i] != "")
    && (forall i, j :: 0 <= i < |kw| && 0 <= j < |kw[i]| ==> KeywordChar(kw[i][j]))
  }

  /** The words of a query string: non-empty and free of spaces. */
  predicate Words(ws: seq<string>) {
    forall i :: 0 <= i < |ws| ==> ws[i] != "" && NoSpace(ws[i])
  }

  /** The non-empty keywords, in order. */
  function NonEmpty(kw: seq<string>): (ws: seq<string>)
    ensures |ws| <= |kw|
  {
    if kw == [] then [] else NonEmpty(kw[..|kw| - 1]) + if kw[|kw| - 1] == "" then [] else [kw[|kw| - 1]]
  }

  /** `NonEmpty` leaves nothing exactly when every keyword is empty. */
  lemma {:induction false} NonEmptyNone(kw: seq<string>)
    ensures NonEmpty(kw) == [] <==> forall i :: 0 <= i < |kw| ==> kw[i] == ""
  {
    if kw != [] {
      var init := kw[..|kw| - 1];
      NonEmptyNone(init);
      assert forall i :: 0 <= i < |init| ==> init[i] == kw[i];
    }
  }

  /** Every keyword `NonEmpty` keeps is a non-empty keyword of its argument. */
  lemma {:induction false} NonEmptyKeeps(kw: seq<string>)
    ensures forall k :: 0 <= k < |NonEmpty(kw)| ==> NonEmpty(kw)[k] != "" && NonEmpty(kw)[k] in kw
  {
    if kw != [] {
      var init := kw[..|kw| - 1];
      NonEmptyKeeps(init);
      var ws := NonEmpty(init);
      forall k | 0 <= k < |NonEmpty(kw)|
        ensures NonEmpty(kw)[k] != "" && NonEmpty(kw)[k] in kw
      {
        if k < |ws| {
          assert NonEmpty(kw)[k] == ws[k];
          assert ws[k] in init;
        }
      }
    }
  }

  /** The facts about `NonEmpty` that joining and splitting use. */
  lemma NonEmptyWords(kw: seq<string>)
    ensures NonEmpty(kw) == [] <==> forall i :: 0 <= i < |kw| ==> kw[i] == ""
    ensures forall k :: 0 <= k < |NonEmpty(kw)| ==> NonEmpty(kw)[k] != ""
    ensures (forall i :: 0 <= i < |kw| ==> NoSpace(kw[i])) ==> Words(NonEmpty(kw))
  {
    NonEmptyNone(kw);
    NonEmptyKeeps(kw);
  }

  /** An empty keyword at the end contributes nothing. */
  lemma NonEmptyEmptyLast(kw: seq<string>)
    ensures NonEmpty(kw + [""]) == NonEmpty(kw)
  {
    assert (kw + [""])[..|kw|] == kw;
  }

  /** Words separated by single spaces. */
  function Joined(ws: seq<string>): string {
    if ws == [] then ""
    else if |ws| == 1 then ws[0]
    else Joined(ws[..|ws| - 1]) + " " + ws[|ws| - 1]
  }

  /** No leading, trailing or doubled spaces. */
  predicate NoStraySpaces(q: string) {
    && (|q| > 0 ==> q[0] != ' ' && q[|q| - 1] != ' ')
    && (forall i :: 0 <= i < |q| - 1 && q[i] == ' ' ==> q[i + 1] != ' ')
  }

  /** Joining non-empty words gives the empty string only when there are no words. */
  lemma {:induction false} JoinedEmpty(ws: seq<string>)
    requires forall k :: 0 <= k < |ws| ==> ws[k] != ""
    ensures Joined(ws) == "" <==> ws == []
  {
    if |ws| > 1 {
      JoinedEmpty(ws[..|ws| - 1]);
    }
  }

  /** Appending a word to a joined string. */
  lemma JoinedSnoc(ws: seq<string>, k: string)
    ensures Joined(ws + [k]) == if ws == [] then k else Joined(ws) + " " + k
  {
    assert (ws + [k])[..|ws|] == ws;
  }

  /** Joining words puts exactly one space between neighbours and none at the ends. */
  lemma {:induction false} JoinedSpacing(ws: seq<string>)
    requires Words(ws)
    ensures NoStraySpaces(Joined(ws))
  {
    if |ws| > 1 {
      var init := ws[..|ws| - 1];
      var last := ws[|ws| - 1];
      JoinedSpacing(init);
      JoinedEmpty(init);
      var a := Joined(init);
      var q := a + " " + last;
      assert q == Joined(ws);
      forall i | 0 <= i < |q| - 1
        ensures q[i] == ' ' ==> q[i + 1] != ' '
      {
        if i < |a| - 1 {
          assert q[i] == a[i] && q[i + 1] == a[i + 1];
        } else if i == |a| - 1 {
          assert q[i] == a[i];
        } else if i == |a| {
          assert q[i + 1] == last[0];
        } else {
          assert q[i] == last[i - |a| - 1];
        }
      }
    } else if |ws| == 1 {
      assert ws[0] != "" && NoSpace(ws[0]);
    }
  }

  /**
   `JoinQuery`: append every non-empty keyword, separated from what is already in
   the string by one space.
   */
  method JoinQuery(kw: seq<string>) returns (q: string)
    ensures q == Joined(NonEmpty(kw))
  {
    q := "";
    for i := 0 to |kw|
      invariant q == Joined(NonEmpty(kw[..i]))
    {
      JoinStep(kw, i);
      if kw[i] == "" {
        continue;
      }
      if q != "" {
        q := q + " ";
      }
      q := q + kw[i];
    }
    assert kw[..|kw|] == kw;
  }

  /**
   One iteration of `JoinQuery`'s loop: an empty keyword adds nothing; any other
   keyword is appended, after a space when the string is not empty.
   */
  lemma JoinStep(kw: seq<string>, i: int)
    requires 0 <= i < |kw|
    ensures var q := Joined(NonEmpty(kw[..i]));
            Joined(NonEmpty(kw[..i + 1]))
              == if kw[i] == "" then q else if q == "" then kw[i] else q + " " + kw[i]
  {
    assert kw[..i + 1][..i] == kw[..i];
    var ws := NonEmpty(kw[..i]);
    assert NonEmpty(kw[..i + 1]) == ws + if kw[i] == "" then [] else [kw[i]];
    if kw[i] != "" {
      NonEmptyWords(kw[..i]);
      JoinedEmpty(ws);
      JoinedSnoc(ws, kw[i]);
    } else {
      assert NonEmpty(kw[..i + 1]) == ws;
    }
  }

  /**
   The query string is empty exactly when every keyword is empty, and when no
   keyword holds a space it has no leading, trailing or doubled space.
   */
  lemma {:induction false} JoinedKeywords(kw: seq<string>)
    ensures Joined(NonEmpty(kw)) == "" <==> forall i :: 0 <= i < |kw| ==> kw[i] == ""
    ensures (forall i :: 0 <= i < |kw| ==> NoSpace(kw[i])) ==> NoStraySpaces(Joined(NonEmpty(kw)))
  {
    NonEmptyWords(kw);
    JoinedEmpty(NonEmpty(kw));
    if forall i :: 0 <= i < |kw| ==> NoSpace(kw[i]) {
      JoinedSpacing(NonEmpty(kw));
    }
  }

  // ---------------------------------------------------------------------------
  // Splitting a query string back into keywords
  // ---------------------------------------------------------------------------

  /** The position of the last space in `q`, or -1 when there is none. */
  function LastSpace(q: string): (j: int)
    ensures -1 <= j < |q|
    ensures j >= 0 ==> q[j] == ' '
    ensures forall k :: j < k < |q| ==> q[k] != ' '
  {
    if q == [] then -1
    else if q[|q| - 1] == ' ' then |q| - 1
    else LastSpace(q[..|q| - 1])
  }

  /** The space-separated pieces of a query string. */
  function Split(q: string): seq<string>
    decreases |q|
  {
    var j := LastSpace(q);
    if j < 0 then [q] else Split(q[..j]) + [q[j + 1..]]
  }

  /** Splitting the joined words on spaces gives the words back. */
  lemma {:induction false} SplitJoined(ws: seq<string>)
    requires |ws| > 0 && Words(ws)
    ensures Split(Joined(ws)) == ws
  {
    if |ws| == 1 {
      assert NoSpace(ws[0]);
      assert LastSpace(ws[0]) == -1;
    } else {
      var init := ws[..|ws| - 1];
      var last := ws[|ws| - 1];
      var a := Joined(init);
      var q := a + " " + last;
      assert q == Joined(ws);
      assert NoSpace(last);
      assert LastSpace(q) == |a| by {
        LastSpaceAfter(a, last);
      }
      assert q[..|a|] == a;
      assert q[|a| + 1..] == last;
      SplitJoined(init);
      assert ws == init + [last];
    }
  }

  /** The last space of `a + " " + b` is the separator when `b` has no space. */
  lemma {:induction false} LastSpaceAfter(a: string, b: string)
    requires NoSpace(b)
    ensures LastSpace(a + " " + b) == |a|
  {
    var q := a + " " + b;
    if b == [] {
      assert q[|q| - 1] == ' ';
    } else {
      var b' := b[..|b| - 1];
      assert q[|q| - 1] == b[|b| - 1];
      assert q[..|q| - 1] == a + " " + b';
      assert NoSpace(b') by {
        assert forall j :: 0 <= j < |b'| ==> b'[j] == b[j];
      }
      LastSpaceAfter(a, b');
    }
  }

  /**
   A well-formed keyword list is determined by its query string up to empty
   keywords: splitting the string gives back the non-empty keywords.
   */
  lemma QueryRoundTrip(kw: seq<string>)
    requires WellFormed(kw)
    ensures Joined(NonEmpty(kw)) == "" <==> NonEmpty(kw) == []
    ensures NonEmpty(kw) != [] ==> Split(Joined(NonEmpty(kw))) == NonEmpty(kw)
  {
    forall i | 0 <= i < |kw|
      ensures NoSpace(kw[i])
    {
      forall j | 0 <= j < |kw[i]|
        ensures kw[i][j] != ' '
      {
        assert KeywordChar(kw[i][j]);
      }
    }
    var ws := NonEmpty(kw);
    NonEmptyWords(kw);
    JoinedEmpty(ws);
    if ws != [] {
      SplitJoined(ws);
    }
  }
}
