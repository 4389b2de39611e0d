/**
 * The JavaScript string built-in that key derivation relies on, as a
 * function: `String.prototype.split` with a one-character separator.
 * Beside it, `LastSegment` states directly what `path.split('/').pop()`
 * means: the text after the final '/'.
 */
module JsString {
  import opened Wrappers
  import opened JsArray

  /** The separator the request path is split on. */
  const Separator: char := '/'

  /** `parts.join('/')`: the pieces with one separator between neighbours. */
  function Join(parts: seq<string>): string
  {
    if |parts| == 0 then ""
    else if |parts| == 1 then parts[0]
    else parts[0] + [Separator] + Join(parts[1..])
  }

  /**
   * `s.split('/')`: the maximal separator-free pieces of `s`, in order.
   * Like JavaScript, it never returns an empty array: `"".split('/')` is
   * `[""]`, and a leading or trailing separator gives an empty first or last piece.
   */
  function Split(s: string): (parts: seq<string>)
    ensures |parts| >= 1
    ensures forall i :: 0 <= i < |parts| ==> Separator !in parts[i]
    ensures Join(parts) == s
    decreases |s|
  {
    if s == [] then [""]
    else
      var rest := Split(s[1..]);
      if s[0] == Separator then
        assert ([""] + rest)[1..] == rest;
        [""] + rest
      else
        var parts := [[s[0]] + rest[0]] + rest[1..];
        assert parts[1..] == rest[1..];
        assert |rest| > 1 ==> Join(rest) == rest[0] + [Separator] + Join(rest[1..]);
        assert s == [s[0]] + s[1..];
        parts
  }

  /** Text without a separator splits into itself alone. */
  lemma {:induction false} SplitWithoutSeparator(s: string)
    requires Separator !in s
    ensures Split(s) == [s]
    decreases |s|
  {
    if s != [] {
      SplitWithoutSeparator(s[1..]);
      assert s == [s[0]] + s[1..];
    }
  }

  /** A separator-free piece followed by a separator splits off as the first piece. */
  lemma {:induction false} SplitAfterPiece(piece: string, rest: string)
    requires Separator !in piece
    ensures Split(piece + [Separator] + rest) == [piece] + Split(rest)
    decreases |piece|
  {
    var s := piece + [Separator] + rest;
    if piece == [] {
      assert s[1..] == rest;
    } else {
      assert s[1..] == piece[1..] + [Separator] + rest;
      SplitAfterPiece(piece[1..], rest);
      assert piece == [piece[0]] + piece[1..];
    }
  }

  /**
   * `Split` is the only way to cut `s` into separator-free pieces that join
   * back to `s`: the function above is a full description of `split('/')`.
   */
  lemma {:induction false} SplitUnique(parts: seq<string>, s: string)
    requires |parts| >= 1
    requires forall i :: 0 <= i < |parts| ==> Separator !in parts[i]
    requires Join(parts) == s
    ensures parts == Split(s)
    decreases |parts|
  {
    if |parts| == 1 {
      SplitWithoutSeparator(s);
    } else {
      var tail := parts[1..];
      assert s == parts[0] + [Separator] + Join(tail);
      assert forall i :: 0 <= i < |tail| ==> tail[i] == parts[i + 1];
      SplitUnique(tail, Join(tail));
      SplitAfterPiece(parts[0], Join(tail));
      assert parts == [parts[0]] + tail;
    }
  }

  /**
   * The text after the final separator of `s` (all of `s` when it has none):
   * the longest suffix of `s` that holds no separator.
   */
  function LastSegment(s: string): (r: string)
    ensures |r| <= |s| && r == s[|s| - |r|..]
    ensures forall i :: |s| - |r| <= i < |s| ==> s[i] != Separator
    ensures |r| < |s| ==> s[|s| - |r| - 1] == Separator
    decreases |s|
  {
    if |s| == 0 then ""
    else if s[|s| - 1] == Separator then ""
    else
      var init, c := s[..|s| - 1], s[|s| - 1];
      assert s == init + [c];
      LastSegmentStep(init, c, LastSegment(init));
      LastSegment(init) + [c]
  }

  /** Appending a non-separator to a text extends its last segment by that character. */
  lemma LastSegmentStep(init: string, c: char, r: string)
    requires c != Separator
    requires |r| <= |init| && r == init[|init| - |r|..]
    requires forall i :: |init| - |r| <= i < |init| ==> init[i] != Separator
    requires |r| < |init| ==> init[|init| - |r| - 1] == Separator
    ensures |r| + 1 <= |init + [c]| && r + [c] == (init + [c])[|init| - |r|..]
    ensures forall i :: |init| - |r| <= i < |init| + 1 ==> (init + [c])[i] != Separator
    ensures |r| < |init| ==> (init + [c])[|init| - |r| - 1] == Separator
  {
  }

  /** The last segment holds no separator. */
  lemma LastSegmentHasNoSeparator(s: string)
    ensures Separator !in LastSegment(s)
  {
  }

  /**
   * A separator-free suffix `s[j..]` that is all of `s` or follows a
   * separator is the last segment.
   */
  lemma LastSegmentUnique(s: string, j: nat)
    requires j <= |s| && Separator !in s[j..]
    requires j > 0 ==> s[j - 1] == Separator
    ensures s[j..] == LastSegment(s)
  {
  }

  /** Joining splits off the last piece behind the final separator. */
  lemma {:induction false} JoinLast(parts: seq<string>)
    requires |parts| >= 2
    ensures Join(parts) == Join(parts[..|parts| - 1]) + [Separator] + parts[|parts| - 1]
    decreases |parts|
  {
    var n := |parts|;
    if n == 2 {
      assert parts[..1] == [parts[0]];
      assert parts[1..] == [parts[1]];
    } else {
      var tail := parts[1..];
      JoinLast(tail);
      assert tail[..|tail| - 1] == parts[..n - 1][1..];
      assert tail[|tail| - 1] == parts[n - 1];
    }
  }

  /** The last of any pieces that join to `s`, when it holds no separator, is the text after the final separator. */
  lemma LastPieceIsLastSegment(parts: seq<string>, s: string)
    requires |parts| >= 1 && Separator !in parts[|parts| - 1]
    requires Join(parts) == s
    ensures parts[|parts| - 1] == LastSegment(s)
  {
    var n := |parts|;
    if n == 1 {
      assert s[0..] == parts[0];
      LastSegmentUnique(s, 0);
    } else {
      JoinLast(parts);
      var front := Join(parts[..n - 1]) + [Separator];
      assert s == front + parts[n - 1];
      assert s[|front|..] == parts[n - 1];
      LastSegmentUnique(s, |front|);
    }
  }

  /** `s.split('/').pop()` is never `undefined`, and it is the text after the final separator. */
  lemma PopSplitIsLastSegment(s: string)
    ensures Pop(Split(s)) == Some(LastSegment(s))
  {
    var parts := Split(s);
    var n := |parts|;
    LastPieceIsLastSegment(parts, s);
    assert parts == parts[..n - 1] + [parts[n - 1]];
    PopAfterPush(parts[..n - 1], parts[n - 1]);
  }

  /** The last segment is empty exactly when `s` is empty or ends with the separator. */
  lemma LastSegmentEmpty(s: string)
    ensures LastSegment(s) == "" <==> |s| == 0 || s[|s| - 1] == Separator
  {
  }
}
