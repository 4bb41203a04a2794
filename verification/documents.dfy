/** The maximum document length of the training set (train.py, line 21):
    every training text is split on the single-space separator, exactly as
    Python's `str.split(" ")` does, and the longest piece count is kept. */
module Documents {
  import opened Options

  /** The separator passed to `split`. */
  const Space: char := ' '

  /** The pieces of `s` between occurrences of `sep`. Consecutive separators
      yield empty pieces and the empty string yields one empty piece. */
  function Split(s: string, sep: char): (pieces: seq<string>)
    ensures |pieces| >= 1
    ensures forall k :: 0 <= k < |pieces| ==> sep !in pieces[k]
    decreases |s|
  {
    if |s| == 0 then [""]
    else
      var rest := Split(s[1..], sep);
      if s[0] == sep then [""] + rest
      else [[s[0]] + rest[0]] + rest[1..]
  }

  /** The inverse of `Split`: the pieces glued back together with `sep`. */
  function Join(pieces: seq<string>, sep: char): string
    requires |pieces| >= 1
    decreases |pieces|
  {
    if |pieces| == 1 then pieces[0]
    else pieces[0] + [sep] + Join(pieces[1..], sep)
  }

  /** The number of occurrences of `c` in `s`. */
  function Occurrences(s: string, c: char): nat
    decreases |s|
  {
    if |s| == 0 then 0
    else (if s[0] == c then 1 else 0) + Occurrences(s[1..], c)
  }

  /** Splitting loses nothing: joining the pieces restores the text. */
  lemma {:induction false} JoinSplit(s: string, sep: char)
    ensures Join(Split(s, sep), sep) == s
    decreases |s|
  {
    if |s| > 0 {
      var rest := Split(s[1..], sep);
      JoinSplit(s[1..], sep);
      if s[0] == sep {
        assert Split(s, sep) == [""] + rest;
        assert ([""] + rest)[1..] == rest;
      } else if |rest| == 1 {
        assert Split(s, sep) == [[s[0]] + rest[0]];
      } else {
        assert rest == [rest[0]] + rest[1..];
        assert Join(rest, sep) == rest[0] + [sep] + Join(rest[1..], sep);
        assert Split(s, sep) == [[s[0]] + rest[0]] + rest[1..];
        assert ([[s[0]] + rest[0]] + rest[1..])[1..] == rest[1..];
      }
    }
  }

  /** A separator-free prefix is glued onto the first piece of what follows. */
  lemma {:induction false} SplitFreePrefix(a: string, t: string, sep: char)
    requires sep !in a
    ensures Split(a + t, sep) == [a + Split(t, sep)[0]] + Split(t, sep)[1..]
    decreases |a|
  {
    if |a| > 0 {
      assert (a + t)[1..] == a[1..] + t;
      assert (a + t)[0] == a[0];
      SplitFreePrefix(a[1..], t, sep);
      assert [a[0]] + (a[1..] + Split(t, sep)[0]) == a + Split(t, sep)[0];
    } else {
      var pieces := Split(t, sep);
      assert a + t == t;
      assert a + pieces[0] == pieces[0];
      assert [pieces[0]] + pieces[1..] == pieces;
    }
  }

  /** Joining separator-free pieces and splitting again gives back the pieces. */
  lemma {:induction false} SplitJoin(pieces: seq<string>, sep: char)
    requires |pieces| >= 1
    requires forall k :: 0 <= k < |pieces| ==> sep !in pieces[k]
    ensures Split(Join(pieces, sep), sep) == pieces
    decreases |pieces|
  {
    if |pieces| == 1 {
      SplitFreePrefix(pieces[0], "", sep);
      assert pieces[0] + "" == pieces[0];
    } else {
      var tail := Join(pieces[1..], sep);
      SplitJoin(pieces[1..], sep);
      assert Split([sep] + tail, sep) == [""] + Split(tail, sep) by {
        assert ([sep] + tail)[1..] == tail;
      }
      SplitFreePrefix(pieces[0], [sep] + tail, sep);
      assert pieces[0] + [sep] + tail == pieces[0] + ([sep] + tail);
      assert pieces[0] + "" == pieces[0];
      assert ([""] + pieces[1..])[1..] == pieces[1..];
      assert [pieces[0]] + pieces[1..] == pieces;
    }
  }

  /** `split(" ")` yields one piece more than there are spaces, so an empty
      text counts as one piece. */
  lemma {:induction false} PieceCount(s: string, sep: char)
    ensures |Split(s, sep)| == Occurrences(s, sep) + 1
    decreases |s|
  {
    if |s| > 0 {
      PieceCount(s[1..], sep);
    }
  }

  /** The number of pieces `split(" ")` makes of one training text. */
  function PieceCountOf(doc: string): nat
  {
    |Split(doc, Space)|
  }

  /** `max_document_length`: the largest piece count over the training texts;
      `max` of an empty list raises, so an empty training set has none. */
  function MaxDocumentLength(docs: seq<string>): (r: Option<nat>)
    ensures r.None? <==> |docs| == 0
    ensures r.Some? ==> r.value >= 1
    ensures r.Some? ==> forall i :: 0 <= i < |docs| ==> PieceCountOf(docs[i]) <= r.value
    ensures r.Some? ==> exists i :: 0 <= i < |docs| && PieceCountOf(docs[i]) == r.value
    decreases |docs|
  {
    if |docs| == 0 then None
    else
      var here := PieceCountOf(docs[0]);
      match MaxDocumentLength(docs[1..])
      case None => Some(here)
      case Some(rest) =>
        assert forall i :: 1 <= i < |docs| ==> docs[i] == docs[1..][i - 1];
        if rest <= here then Some(here)
        else
          var j :| 0 <= j < |docs[1..]| && PieceCountOf(docs[1..][j]) == rest;
          assert docs[j + 1] == docs[1..][j];
          Some(rest)
  }

  /** The maximum document length is one more than the largest number of
      spaces in any training text. */
  lemma MaxDocumentLengthCountsSpaces(docs: seq<string>)
    requires |docs| > 0
    ensures forall i :: 0 <= i < |docs| ==> Occurrences(docs[i], Space) + 1 <= MaxDocumentLength(docs).value
    ensures exists i :: 0 <= i < |docs| && Occurrences(docs[i], Space) + 1 == MaxDocumentLength(docs).value
  {
    forall i | 0 <= i < |docs|
      ensures PieceCountOf(docs[i]) == Occurrences(docs[i], Space) + 1
    {
      PieceCount(docs[i], Space);
    }
  }
}
