/** `string_to_list` of src/viz.py (lines 13-14): the path text written by
    `deque_to_string` split back into its vertices.  The pyvis drawing is left out. */
module Viz {
  import opened Text
  import Solve

  const Arrow: string := " -> "

  /** `string.strip().split(" -> ")`. */
  function StringToList(s: string): (r: seq<string>)
    ensures |r| >= 1
  {
    Split(Strip(s), Arrow)
  }

  /** The pieces hold no arrow, and joining them with arrows gives back the stripped
      text. */
  lemma StringToListJoin(s: string)
    ensures forall k | 0 <= k < |StringToList(s)| :: !Contains(StringToList(s)[k], Arrow)
    ensures Join(StringToList(s), Arrow) == Strip(s)
  {
    SplitPiecesFree(Strip(s), Arrow);
    JoinSplit(Strip(s), Arrow);
  }

  /** Blank text gives one empty piece. */
  lemma BlankGivesEmptyPiece(s: string)
    requires forall i | 0 <= i < |s| :: IsSpace(s[i])
    ensures StringToList(s) == [""]
  {
    var i, j := StripSlice(s);
  }

  /** A vertex name the path text can carry: not empty, no '>' and no white space at
      either end. */
  predicate Carried(x: string) {
    x != [] && '>' !in x && Trimmed(x)
  }

  /** The first character of a join is the first character of its first piece, its last
      that of its last piece. */
  lemma {:induction false} JoinEnds(xs: seq<string>)
    requires xs != [] && forall k | 0 <= k < |xs| :: xs[k] != []
    ensures Join(xs, Arrow) != []
    ensures Join(xs, Arrow)[0] == xs[0][0]
    ensures Join(xs, Arrow)[|Join(xs, Arrow)| - 1] == xs[|xs| - 1][|xs[|xs| - 1]| - 1]
  {
    if |xs| > 1 {
      JoinEnds(xs[1..]);
      var rest := Join(xs[1..], Arrow);
      assert Join(xs, Arrow) == xs[0] + Arrow + rest;
    }
  }

  /** Joining carried names with arrows and reading the text back gives the names: the
      behaviour `deque_to_string` was written for (see `RoundTrip`). */
  lemma RoundTripJoin(xs: seq<string>)
    requires xs != [] && forall k | 0 <= k < |xs| :: Carried(xs[k])
    ensures StringToList(Join(xs, Arrow)) == xs
  {
    JoinTrimmed(xs);
    StripTrimmed(Join(xs, Arrow));
    ArrowMarker(xs);
    SplitJoin(xs, Arrow, 2);
  }

  /** '>' occurs once in the arrow and in no carried name. */
  lemma ArrowMarker(xs: seq<string>)
    requires forall k | 0 <= k < |xs| :: Carried(xs[k])
    ensures 2 < |Arrow| && forall j | 0 <= j < |Arrow| && j != 2 :: Arrow[j] != Arrow[2]
    ensures forall k | 0 <= k < |xs| :: Arrow[2] !in xs[k]
  {
    assert Arrow == [' ', '-', '>', ' '];
  }

  lemma JoinTrimmed(xs: seq<string>)
    requires xs != [] && forall k | 0 <= k < |xs| :: Carried(xs[k])
    ensures Trimmed(Join(xs, Arrow))
  {
    JoinEnds(xs);
    assert Carried(xs[0]) && Carried(xs[|xs| - 1]);
  }

  /** The text of a path whose last vertex occurs only at the end is read back as the
      path. */
  lemma RoundTrip(xs: seq<string>)
    requires xs != [] && forall k | 0 <= k < |xs| :: Carried(xs[k])
    requires forall i | 0 <= i < |xs| - 1 :: xs[i] != xs[|xs| - 1]
    ensures StringToList(Solve.PathText(xs)) == xs
  {
    Solve.PathTextJoin(xs);
    RoundTripJoin(xs);
  }

  /** An empty path gives "", which reads back as one empty name. */
  lemma EmptyPath()
    ensures Solve.PathText([]) == ""
    ensures StringToList(Solve.PathText([])) == [""]
  {
    BlankGivesEmptyPiece("");
  }

  /** A path that returns to its last vertex loses the arrow after the earlier visit, and
      reads back as a different path. */
  lemma RevisitedLastBreaks()
    ensures Solve.PathText(["a", "b", "a"]) == "ab -> a"
    ensures StringToList(Solve.PathText(["a", "b", "a"])) == ["ab", "a"]
  {
    RevisitedText();
    RoundTripJoin(["ab", "a"]);
    assert Join(["ab", "a"], Arrow) == "ab -> a" by {
      assert ["ab", "a"][1..] == ["a"];
    }
  }

  lemma RevisitedText()
    ensures Solve.PathText(["a", "b", "a"]) == "ab -> a"
  {
    var xs := ["a", "b", "a"];
    assert xs[..2] == ["a", "b"] && xs[..2][..1] == ["a"] && xs[..2][..1][..0] == [];
    assert Solve.Render(["a"], "a") == "a";
    assert Solve.Render(["a", "b"], "a") == "ab -> ";
  }
}
