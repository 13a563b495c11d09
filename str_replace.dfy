/** PHP's `str_replace($search, $replace, $subject)` for one search string:
    the subject is scanned left to right, every non-overlapping match of the
    search string is replaced, and the text that was inserted is never
    scanned again. */
module StrReplace {

  /** True when `p` occurs somewhere in `t` (as a contiguous substring). */
  predicate Occurs(p: string, t: string)
    decreases |t|
  {
    p <= t || (t != [] && Occurs(p, t[1..]))
  }

  /** The model of `str_replace(pattern, repl, text)`. Each replacement
      changes the length by `|repl| - |pattern|`: a replacement of the same
      length keeps it, a longer one never shortens the text. */
  function ReplaceAll(text: string, pattern: string, repl: string): (r: string)
    requires pattern != []
    ensures |repl| == |pattern| ==> |r| == |text|
    ensures |repl| >= |pattern| ==> |r| >= |text|
    decreases |text|
  {
    if text == [] then []
    else if pattern <= text then repl + ReplaceAll(text[|pattern|..], pattern, repl)
    else [text[0]] + ReplaceAll(text[1..], pattern, repl)
  }

  /** A text with no match of the pattern is left as it is. */
  lemma {:induction false} NoMatchUnchanged(text: string, pattern: string, repl: string)
    requires pattern != []
    ensures !Occurs(pattern, text) ==> ReplaceAll(text, pattern, repl) == text
    decreases |text|
  {
    if text != [] && !Occurs(pattern, text) {
      NoMatchUnchanged(text[1..], pattern, repl);
      assert text == [text[0]] + text[1..];
    }
  }

  /** A match at the start of the text is replaced, and the scan goes on
      after it. */
  lemma ReplaceAllAtStart(p: string, rest: string, v: string)
    requires p != []
    ensures ReplaceAll(p + rest, p, v) == v + ReplaceAll(rest, p, v)
  {
    assert p <= p + rest;
    assert (p + rest)[|p|..] == rest;
  }

  /** A text that does not start with a match keeps its first character,
      and the scan goes on after it. */
  lemma ReplaceAllSkipChar(t: string, p: string, v: string)
    requires p != [] && t != [] && !(p <= t)
    ensures ReplaceAll(t, p, v) == [t[0]] + ReplaceAll(t[1..], p, v)
  {
  }

  /** A text that is exactly the pattern is replaced as a whole. */
  lemma ReplaceWholeText(p: string, v: string)
    requires p != []
    ensures ReplaceAll(p, p, v) == v
  {
    ReplaceAllAtStart(p, [], v);
    assert p + [] == p;
  }

  /** If replacing by something strictly longer changes nothing, the text
      has no match of the pattern. */
  lemma {:induction false} UnchangedByLongerMeansNoMatch(text: string, pattern: string, repl: string)
    requires pattern != [] && |repl| > |pattern|
    requires ReplaceAll(text, pattern, repl) == text
    ensures !Occurs(pattern, text)
    decreases |text|
  {
    if text == [] {
      assert !(pattern <= text);
    } else if pattern <= text {
      assert false;
    } else {
      assert ReplaceAll(text, pattern, repl)[1..] == ReplaceAll(text[1..], pattern, repl);
      UnchangedByLongerMeansNoMatch(text[1..], pattern, repl);
    }
  }

  /** The pieces of `text` between the matches the left-to-right scan finds
      (PHP's `explode`); there is always at least one piece. */
  function Split(text: string, pattern: string): (pieces: seq<string>)
    requires pattern != []
    ensures |pieces| >= 1
    decreases |text|
  {
    if text == [] then [[]]
    else if pattern <= text then [[]] + Split(text[|pattern|..], pattern)
    else
      var rest := Split(text[1..], pattern);
      [[text[0]] + rest[0]] + rest[1..]
  }

  /** The pieces glued together with `sep` between consecutive ones
      (PHP's `implode`). */
  function Join(pieces: seq<string>, sep: string): string
    decreases |pieces|
  {
    if pieces == [] then []
    else if |pieces| == 1 then pieces[0]
    else pieces[0] + sep + Join(pieces[1..], sep)
  }

  /** The total length of a list of pieces. */
  function TotalLength(pieces: seq<string>): nat
    decreases |pieces|
  {
    if pieces == [] then 0 else |pieces[0]| + TotalLength(pieces[1..])
  }

  /** Number of replacements a scan of `text` performs. */
  function Count(text: string, pattern: string): nat
    requires pattern != []
  {
    |Split(text, pattern)| - 1
  }

  lemma JoinPrependChar(c: char, pieces: seq<string>, sep: string)
    requires |pieces| >= 1
    ensures Join([[c] + pieces[0]] + pieces[1..], sep) == [c] + Join(pieces, sep)
  {
  }

  lemma JoinPrependEmpty(pieces: seq<string>, sep: string)
    requires |pieces| >= 1
    ensures Join([[]] + pieces, sep) == sep + Join(pieces, sep)
  {
    assert ([[]] + pieces)[1..] == pieces;
  }

  /** Replacing is splitting at the matches and re-joining with the
      replacement: the pieces do not depend on `repl`, so nothing inserted
      is ever scanned again. */
  lemma {:induction false} ReplaceAllIsJoinOfSplit(text: string, pattern: string, repl: string)
    requires pattern != []
    ensures ReplaceAll(text, pattern, repl) == Join(Split(text, pattern), repl)
    decreases |text|
  {
    if text == [] {
    } else if pattern <= text {
      ReplaceAllIsJoinOfSplit(text[|pattern|..], pattern, repl);
      JoinPrependEmpty(Split(text[|pattern|..], pattern), repl);
    } else {
      ReplaceAllIsJoinOfSplit(text[1..], pattern, repl);
      JoinPrependChar(text[0], Split(text[1..], pattern), repl);
    }
  }

  /** A prefix followed by the rest of the text is the text. */
  lemma PrefixThenRest(p: string, t: string)
    requires p <= t
    ensures p + t[|p|..] == t
  {
    assert t == t[..|p|] + t[|p|..];
  }

  /** Replacing every match by the pattern itself gives back the text. */
  lemma {:induction false} ReplaceAllByItself(text: string, pattern: string)
    requires pattern != []
    ensures ReplaceAll(text, pattern, pattern) == text
    decreases |text|
  {
    if text == [] {
    } else if pattern <= text {
      ReplaceAllByItself(text[|pattern|..], pattern);
      PrefixThenRest(pattern, text);
    } else {
      ReplaceAllByItself(text[1..], pattern);
      assert text == [text[0]] + text[1..];
    }
  }

  /** Round trip: joining the pieces with the pattern restores the text. */
  lemma {:induction false} SplitJoinRoundTrip(text: string, pattern: string)
    requires pattern != []
    ensures Join(Split(text, pattern), pattern) == text
  {
    ReplaceAllIsJoinOfSplit(text, pattern, pattern);
    ReplaceAllByItself(text, pattern);
  }

  /** The first piece is a prefix of the text. */
  lemma {:induction false} SplitHeadIsPrefix(text: string, pattern: string)
    requires pattern != []
    ensures Split(text, pattern)[0] <= text
    decreases |text|
  {
    if text == [] {
    } else if pattern <= text {
    } else {
      SplitHeadIsPrefix(text[1..], pattern);
      var rest := Split(text[1..], pattern);
      assert text == [text[0]] + text[1..];
      assert [text[0]] + rest[0] <= [text[0]] + text[1..];
    }
  }

  lemma PrefixTransitive(a: string, b: string, c: string)
    requires a <= b && b <= c
    ensures a <= c
  {
  }

  lemma PrefixConcat(h: string, a: string, b: string)
    requires a <= b
    ensures h + a <= h + b
  {
    assert forall i :: 0 <= i < |a| ==> (h + a)[|h| + i] == a[i] == b[i] == (h + b)[|h| + i];
  }

  /** Every match is consumed: no piece left by the scan contains the
      pattern. */
  lemma {:induction false} SplitPiecesAreFree(text: string, pattern: string)
    requires pattern != []
    ensures forall k :: 0 <= k < |Split(text, pattern)| ==> !Occurs(pattern, Split(text, pattern)[k])
    decreases |text|
  {
    if text == [] {
      assert !(pattern <= []);
    } else if pattern <= text {
      SplitPiecesAreFree(text[|pattern|..], pattern);
      assert !(pattern <= []);
    } else {
      SplitPiecesAreFree(text[1..], pattern);
      SplitHeadIsPrefix(text[1..], pattern);
      var rest := Split(text[1..], pattern);
      var head := [text[0]] + rest[0];
      assert head <= text by {
        assert text == [text[0]] + text[1..];
      }
      if pattern <= head {
        PrefixTransitive(pattern, head, text);
      }
      assert head[1..] == rest[0];
      assert !Occurs(pattern, head);
    }
  }

  /** A pattern occurs in any text that ends with it. */
  lemma {:induction false} OccursAfter(h: string, p: string)
    ensures Occurs(p, h + p)
    decreases |h|
  {
    if h == [] {
      assert h + p == p;
    } else {
      OccursAfter(h[1..], p);
      assert (h + p)[1..] == h[1..] + p;
    }
  }

  /** A match is never shorter than the pattern. */
  lemma {:induction false} OccursIsLongEnough(p: string, t: string)
    requires Occurs(p, t)
    ensures |p| <= |t|
    decreases |t|
  {
    if !(p <= t) {
      OccursIsLongEnough(p, t[1..]);
    }
  }

  /** No match of `pattern` starts inside any piece but the last (such a
      match would end at the latest just before the pattern that follows
      the piece). */
  ghost predicate NoMatchStartsInPiece(pieces: seq<string>, pattern: string)
    requires pattern != []
  {
    forall k :: 0 <= k < |pieces| - 1 ==> !Occurs(pattern, pieces[k] + pattern[..|pattern| - 1])
  }

  /** The scan takes the leftmost match each time: among all ways of cutting
      the text at matches, `Split` cuts at the first match, then at the first
      match after it, and so on. */
  lemma {:induction false} SplitTakesLeftmostMatches(text: string, pattern: string)
    requires pattern != []
    ensures NoMatchStartsInPiece(Split(text, pattern), pattern)
    decreases |text|
  {
    var q := pattern[..|pattern| - 1];
    var pieces := Split(text, pattern);
    if text == [] {
    } else if pattern <= text {
      var rest := Split(text[|pattern|..], pattern);
      SplitTakesLeftmostMatches(text[|pattern|..], pattern);
      forall k | 0 <= k < |pieces| - 1
        ensures !Occurs(pattern, pieces[k] + q)
      {
        if k == 0 {
          assert pieces[k] + q == q;
          if Occurs(pattern, q) {
            OccursIsLongEnough(pattern, q);
          }
        } else {
          assert pieces[k] == rest[k - 1];
        }
      }
    } else {
      var rest := Split(text[1..], pattern);
      SplitTakesLeftmostMatches(text[1..], pattern);
      forall k | 0 <= k < |pieces| - 1
        ensures !Occurs(pattern, pieces[k] + q)
      {
        if k == 0 {
          SplitFirstPieceStep(text, pattern);
          FirstPieceHasNoMatch(text, pattern);
        } else {
          assert pieces[k] == rest[k];
        }
      }
    }
  }

  /** A character, a piece and a prefix of the pattern that follows the
      piece form a prefix of the text. */
  lemma PrefixThroughPiece(text: string, piece: string, pattern: string, more: string, q: string)
    requires text != [] && text[1..] == piece + pattern + more && q <= pattern
    ensures [text[0]] + piece + q <= text
  {
    assert text == [text[0]] + piece + pattern + more by {
      assert text == [text[0]] + text[1..];
    }
    PrefixConcat([text[0]] + piece, q, pattern + more);
  }

  /** When the text does not start with a match, its first piece is its
      first character followed by the first piece of the rest. */
  lemma SplitFirstPieceStep(text: string, pattern: string)
    requires pattern != [] && text != [] && !(pattern <= text)
    ensures |Split(text, pattern)| == |Split(text[1..], pattern)|
    ensures Split(text, pattern)[0] == [text[0]] + Split(text[1..], pattern)[0]
  {
  }

  /** The first piece followed by all but the last character of the
      pattern is still a prefix of the text, when a match follows the piece
      and the text does not start with one. */
  lemma FirstPieceThenPartialMatchIsPrefix(text: string, pattern: string)
    requires pattern != [] && text != [] && !(pattern <= text)
    requires |Split(text, pattern)| > 1
    ensures Split(text, pattern)[0] + pattern[..|pattern| - 1] <= text
  {
    var rest := Split(text[1..], pattern);
    SplitFirstPieceStep(text, pattern);
    SplitJoinRoundTrip(text[1..], pattern);
    assert Join(rest, pattern) == rest[0] + pattern + Join(rest[1..], pattern);
    PrefixThroughPiece(text, rest[0], pattern, Join(rest[1..], pattern), pattern[..|pattern| - 1]);
  }

  /** A prefix of a text that does not start with `p` contains `p` only if
      it does so after its first character. */
  lemma NoMatchInConsPrefix(p: string, c: char, piece: string, q: string, head: string, text: string)
    requires head == [c] + piece
    requires !(p <= text) && head + q <= text && !Occurs(p, piece + q)
    ensures !Occurs(p, head + q)
  {
    if p <= head + q {
      PrefixTransitive(p, head + q, text);
    }
    assert (head + q)[1..] == piece + q;
  }

  /** The step case of `SplitTakesLeftmostMatches` for the first piece when
      the text does not start with a match. */
  lemma FirstPieceHasNoMatch(text: string, pattern: string)
    requires pattern != [] && text != [] && !(pattern <= text)
    requires |Split(text, pattern)| > 1
    requires !Occurs(pattern, Split(text[1..], pattern)[0] + pattern[..|pattern| - 1])
    ensures !Occurs(pattern, Split(text, pattern)[0] + pattern[..|pattern| - 1])
  {
    SplitFirstPieceStep(text, pattern);
    FirstPieceThenPartialMatchIsPrefix(text, pattern);
    NoMatchInConsPrefix(pattern, text[0], Split(text[1..], pattern)[0], pattern[..|pattern| - 1],
                        Split(text, pattern)[0], text);
  }

  lemma {:induction false} JoinLength(pieces: seq<string>, sep: string)
    requires |pieces| >= 1
    ensures |Join(pieces, sep)| == TotalLength(pieces) + (|pieces| - 1) * |sep|
    decreases |pieces|
  {
    if |pieces| > 1 {
      JoinLength(pieces[1..], sep);
      assert (|pieces| - 1) * |sep| == |sep| + (|pieces| - 2) * |sep|;
    }
  }

  /** Each of the `Count` replacements changes the length by
      `|repl| - |pattern|`. */
  lemma {:induction false} ReplaceAllLength(text: string, pattern: string, repl: string)
    requires pattern != []
    ensures |ReplaceAll(text, pattern, repl)| == |text| + Count(text, pattern) * (|repl| - |pattern|)
  {
    var pieces := Split(text, pattern);
    ReplaceAllIsJoinOfSplit(text, pattern, repl);
    SplitJoinRoundTrip(text, pattern);
    JoinLength(pieces, repl);
    JoinLength(pieces, pattern);
    assert (|pieces| - 1) * |repl| - (|pieces| - 1) * |pattern| == (|pieces| - 1) * (|repl| - |pattern|);
  }
}
