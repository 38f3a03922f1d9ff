/** The Python `str` operations the repository relies on (`strip`, `lower`, `split`,
    `join`).  White space is Python's full set; `lower` is modelled on ASCII letters. */
module Text {

  /** Python's `str.isspace` (and the regular-expression class `\s` on `str`): space,
      `\t \n \v \f \r`, the separators `\x1c`-`\x1f`, and the Unicode white space
      `\x85`, `\xa0`, U+1680, U+2000-U+200A, U+2028, U+2029, U+202F, U+205F and U+3000. */
  predicate IsSpace(c: char) {
    ('\t' <= c <= '\r') || ('\U{1C}' <= c <= ' ') || c == '\U{85}' || c == '\U{A0}' || c == '\U{1680}'
    || ('\U{2000}' <= c <= '\U{200A}') || c == '\U{2028}' || c == '\U{2029}' || c == '\U{202F}'
    || c == '\U{205F}' || c == '\U{3000}'
  }

  predicate IsAscii(c: char) {
    c < '\U{80}'
  }

  predicate IsUpper(c: char) {
    'A' <= c <= 'Z'
  }

  /** No whitespace at either end. */
  predicate Trimmed(s: string) {
    s == [] || (!IsSpace(s[0]) && !IsSpace(s[|s| - 1]))
  }

  /** `s[lo..hi]` is all white space. */
  predicate SpaceBetween(s: string, lo: int, hi: int) {
    forall k {:trigger IsSpace(s[k])} | lo <= k < hi && 0 <= k < |s| :: IsSpace(s[k])
  }

  /** `p` occurs somewhere in `s`. */
  predicate Contains(s: string, p: string) {
    exists i | 0 <= i <= |s| :: p <= s[i..]
  }

  /** Python's `str.lower()` on ASCII letters; other characters are left as they are. */
  function Lower(s: string): string {
    seq(|s|, i requires 0 <= i < |s| => if IsUpper(s[i]) then (s[i] as int + 32) as char else s[i])
  }

  /** `lower` changes only upper-case letters, leaves none, and keeps the length, the
      white space and the ASCII characters where they are. */
  lemma LowerShape(s: string)
    ensures |Lower(s)| == |s|
    ensures forall i | 0 <= i < |s| :: !IsUpper(Lower(s)[i])
    ensures forall i | 0 <= i < |s| :: !IsUpper(s[i]) ==> Lower(s)[i] == s[i]
    ensures forall i | 0 <= i < |s| :: IsSpace(Lower(s)[i]) <==> IsSpace(s[i])
    ensures forall i | 0 <= i < |s| :: IsAscii(Lower(s)[i]) <==> IsAscii(s[i])
  {
  }

  /** Python's `str.lstrip()`. */
  function StripLeft(s: string): string {
    if s != [] && IsSpace(s[0]) then StripLeft(s[1..]) else s
  }

  /** Python's `str.rstrip()`. */
  function StripRight(s: string): string {
    if s != [] && IsSpace(s[|s| - 1]) then StripRight(s[..|s| - 1]) else s
  }

  /** `lstrip` removes a white-space prefix, and no more. */
  lemma {:induction false} StripLeftCut(s: string)
    ensures |StripLeft(s)| <= |s| && StripLeft(s) == s[|s| - |StripLeft(s)|..]
    ensures SpaceBetween(s, 0, |s| - |StripLeft(s)|)
    ensures StripLeft(s) == [] || !IsSpace(StripLeft(s)[0])
  {
    if s != [] && IsSpace(s[0]) {
      StripLeftCut(s[1..]);
      var r := StripLeft(s[1..]);
      assert s[1..][|s| - 1 - |r|..] == s[|s| - |r|..];
    }
  }

  /** `rstrip` removes a white-space suffix, and no more. */
  lemma {:induction false} StripRightCut(s: string)
    ensures |StripRight(s)| <= |s| && StripRight(s) == s[..|StripRight(s)|]
    ensures SpaceBetween(s, |StripRight(s)|, |s|)
    ensures StripRight(s) == [] || !IsSpace(StripRight(s)[|StripRight(s)| - 1])
  {
    if s != [] && IsSpace(s[|s| - 1]) {
      StripRightCut(s[..|s| - 1]);
      var r := StripRight(s[..|s| - 1]);
      assert s[..|s| - 1][..|r|] == s[..|r|];
    }
  }

  /** Python's `str.strip()`. */
  function Strip(s: string): (r: string)
    ensures Trimmed(r)
  {
    StripLeftCut(s);
    StripRightCut(StripLeft(s));
    var r := StripRight(StripLeft(s));
    assert r != [] ==> r[0] == StripLeft(s)[0];
    r
  }

  /** `strip` removes white space at both ends and nothing else: the result is a slice of
      `s` with only white space before and after it. */
  lemma StripSlice(s: string) returns (i: nat, j: nat)
    ensures i <= j <= |s| && Strip(s) == s[i..j]
    ensures SpaceBetween(s, 0, i) && SpaceBetween(s, j, |s|)
  {
    var l := StripLeft(s);
    var r := StripRight(l);
    StripLeftCut(s);
    StripRightCut(l);
    i := |s| - |l|;
    j := i + |r|;
    assert r == s[i..j] by {
      SuffixSlices(s, i, |r|);
    }
    SpaceInSuffix(s, i, |r|, |l|);
  }

  lemma SpaceInSuffix(s: string, i: nat, lo: int, hi: int)
    requires i <= |s| && SpaceBetween(s[i..], lo, hi) && 0 <= lo && hi <= |s| - i
    ensures SpaceBetween(s, i + lo, i + hi)
  {
    forall k | i + lo <= k < i + hi ensures IsSpace(s[k]) {
      assert s[k] == s[i..][k - i];
    }
  }

  /** `strip` leaves a string without white space at its ends as it is. */
  lemma StripTrimmed(s: string)
    requires Trimmed(s)
    ensures Strip(s) == s
  {
    assert StripLeft(s) == s;
    assert StripRight(s) == s;
  }

  lemma SuffixSlices(s: string, i: nat, k: nat)
    requires i + k <= |s|
    ensures s[i..][..k] == s[i..i + k] && s[i..][k..] == s[i + k..]
  {
  }

  /** Python's `sep.join(xs)`. */
  function Join(xs: seq<string>, sep: string): string {
    if xs == [] then ""
    else if |xs| == 1 then xs[0]
    else xs[0] + sep + Join(xs[1..], sep)
  }

  /** Python's `s.split(sep)` for a non-empty separator: cut at the leftmost occurrence,
      continue after it. */
  function Split(s: string, sep: string): (r: seq<string>)
    requires sep != []
    ensures |r| >= 1
    ensures r[0] <= s
    decreases |s|
  {
    if sep <= s then [""] + Split(s[|sep|..], sep)
    else if s == [] then [""]
    else
      var rest := Split(s[1..], sep);
      [[s[0]] + rest[0]] + rest[1..]
  }

  /** Joining the pieces of a split with the same separator gives back the string. */
  lemma {:induction false} JoinSplit(s: string, sep: string)
    requires sep != []
    ensures Join(Split(s, sep), sep) == s
    decreases |s|
  {
    if sep <= s {
      var tail := s[|sep|..];
      JoinSplit(tail, sep);
      assert Split(s, sep) == [""] + Split(tail, sep);
      JoinCons("", Split(tail, sep), sep);
      assert "" + sep + tail == s;
    } else if s != [] {
      var tail := s[1..];
      JoinSplit(tail, sep);
      var rest := Split(tail, sep);
      assert Split(s, sep) == [[s[0]] + rest[0]] + rest[1..];
      JoinGrowFirst(s[0], rest, sep);
      assert [s[0]] + tail == s;
    }
  }

  /** Appending one more piece appends the separator and the piece. */
  lemma {:induction false} JoinSnoc(xs: seq<string>, x: string, sep: string)
    requires xs != []
    ensures Join(xs + [x], sep) == Join(xs, sep) + sep + x
  {
    if |xs| == 1 {
      assert xs + [x] == [xs[0], x];
    } else {
      JoinSnoc(xs[1..], x, sep);
      assert (xs + [x])[1..] == xs[1..] + [x];
    }
  }

  lemma JoinCons(x: string, xs: seq<string>, sep: string)
    requires xs != []
    ensures Join([x] + xs, sep) == x + sep + Join(xs, sep)
  {
    assert ([x] + xs)[1..] == xs;
  }

  lemma JoinGrowFirst(c: char, xs: seq<string>, sep: string)
    requires xs != []
    ensures Join([[c] + xs[0]] + xs[1..], sep) == [c] + Join(xs, sep)
  {
    var ys := [[c] + xs[0]] + xs[1..];
    if |xs| > 1 {
      assert ys[1..] == xs[1..];
    }
  }

  /** No piece of a split contains the separator. */
  lemma {:induction false} SplitPiecesFree(s: string, sep: string)
    requires sep != []
    ensures forall k | 0 <= k < |Split(s, sep)| :: !Contains(Split(s, sep)[k], sep)
    decreases |s|
  {
    var r := Split(s, sep);
    if sep <= s {
      SplitPiecesFree(s[|sep|..], sep);
      var rest := Split(s[|sep|..], sep);
      assert r == [""] + rest;
      forall k | 0 <= k < |r| ensures !Contains(r[k], sep) {
        if k > 0 { assert r[k] == rest[k - 1]; }
      }
    } else if s != [] {
      SplitPiecesFree(s[1..], sep);
      var rest := Split(s[1..], sep);
      var first := [s[0]] + rest[0];
      assert r == [first] + rest[1..];
      forall k | 0 <= k < |r| ensures !Contains(r[k], sep) {
        if k == 0 {
          forall i | 0 <= i <= |first| ensures !(sep <= first[i..]) {
            if i == 0 {
              assert first <= s;
            } else {
              assert first[i..] == rest[0][i - 1..];
            }
          }
        } else {
          assert r[k] == rest[k];
        }
      }
    }
  }

  /** A string holding no copy of the separator's marker character is not split. */
  lemma {:induction false} SplitWithoutMarker(x: string, sep: string, m: nat)
    requires m < |sep| && sep[m] !in x
    ensures Split(x, sep) == [x]
    decreases |x|
  {
    if x != [] {
      assert |x| <= m || x[m] != sep[m];
      SplitWithoutMarker(x[1..], sep, m);
      assert [x[0]] + x[1..] == x;
    } else {
      assert !(sep <= x);
    }
  }

  /** The leftmost separator after a piece without the marker character is the one that
      follows it, provided the marker occurs in the separator only once. */
  lemma {:induction false} SplitAfterPiece(x: string, rest: string, sep: string, m: nat)
    requires m < |sep| && sep[m] !in x
    requires forall j | 0 <= j < |sep| && j != m :: sep[j] != sep[m]
    ensures Split(x + sep + rest, sep) == [x] + Split(rest, sep)
    decreases |x|
  {
    var t := x + sep + rest;
    if x == [] {
      assert t == sep + rest;
      assert sep <= t;
      assert t[|sep|..] == rest;
    } else {
      assert t[m] != sep[m] by {
        if m < |x| {
          assert t[m] == x[m];
        } else {
          assert t[m] == sep[m - |x|];
        }
      }
      var t' := x[1..] + sep + rest;
      assert t == [x[0]] + t';
      assert t[1..] == t';
      SplitAfterPiece(x[1..], rest, sep, m);
      assert Split(t, sep) == [[t[0]] + Split(t', sep)[0]] + Split(t', sep)[1..];
      assert [x[0]] + x[1..] == x;
    }
  }

  /** `Split` undoes `Join` when the separator has a character of its own that no piece
      contains. */
  lemma {:induction false} SplitJoin(xs: seq<string>, sep: string, m: nat)
    requires xs != []
    requires m < |sep|
    requires forall j | 0 <= j < |sep| && j != m :: sep[j] != sep[m]
    requires forall k | 0 <= k < |xs| :: sep[m] !in xs[k]
    ensures Split(Join(xs, sep), sep) == xs
    decreases |xs|
  {
    if |xs| == 1 {
      SplitWithoutMarker(xs[0], sep, m);
    } else {
      SplitJoin(xs[1..], sep, m);
      SplitAfterPiece(xs[0], Join(xs[1..], sep), sep, m);
      assert [xs[0]] + xs[1..] == xs;
    }
  }
}
