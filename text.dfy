/**
 * The JavaScript string and array primitives the reply derivation relies on:
 * `Array.prototype.find`, `String.prototype.startsWith`, `Array.prototype.join`
 * and `String.prototype.split` with a one-character separator, a global
 * one-character `replace`, and `replace(/c+$/, '')`.
 */
module Text {
  import opened Wrappers

  /** `s.startsWith(p)`. */
  predicate StartsWith(s: string, p: string) {
    |p| <= |s| && s[..|p|] == p
  }

  /** `xs.find(p)`, answered as the index of the element found. */
  function FindFirst<T>(xs: seq<T>, p: T -> bool): (r: Option<nat>)
    ensures r.Some? ==> r.value < |xs| && p(xs[r.value])
    ensures r.Some? ==> forall j :: 0 <= j < r.value ==> !p(xs[j])
    ensures r.None? <==> forall j :: 0 <= j < |xs| ==> !p(xs[j])
  {
    if |xs| == 0 then None
    else if p(xs[0]) then Some(0)
    else
      match FindFirst(xs[1..], p)
      case None => None
      case Some(k) => Some(k + 1)
  }

  predicate NoNewline(s: string) {
    '\n' !in s
  }

  /** `s.indexOf('\n')`, with "not found" as `None`. */
  function NewlineIndex(s: string): (r: Option<nat>)
    ensures r.Some? ==> r.value < |s| && s[r.value] == '\n' && NoNewline(s[..r.value])
    ensures r.None? <==> NoNewline(s)
  {
    if |s| == 0 then None
    else if s[0] == '\n' then Some(0)
    else
      match NewlineIndex(s[1..])
      case None => None
      case Some(k) => assert s[..k + 1] == [s[0]] + s[1..][..k]; Some(k + 1)
  }

  /** `lines.join('\n')`. */
  function JoinLines(lines: seq<string>): string
  {
    if |lines| == 0 then ""
    else if |lines| == 1 then lines[0]
    else lines[0] + "\n" + JoinLines(lines[1..])
  }

  /** `s.split('\n')`: the pieces between newlines, at least one. */
  function SplitLines(s: string): (r: seq<string>)
    ensures |r| >= 1
    decreases |s|
  {
    match NewlineIndex(s)
    case None => [s]
    case Some(i) => [s[..i]] + SplitLines(s[i + 1..])
  }

  /** A string without a newline is a single line. */
  lemma SplitNoNewline(s: string)
    requires NoNewline(s)
    ensures SplitLines(s) == [s]
  {
  }

  /** A line without a newline, then a newline, splits off as one piece. */
  lemma SplitFirstLine(first: string, tail: string)
    requires NoNewline(first)
    ensures SplitLines(first + "\n" + tail) == [first] + SplitLines(tail)
  {
    var s := first + "\n" + tail;
    var i := NewlineIndex(s);
    assert s[|first|] == '\n';
    assert s[..|first|] == first;
    assert i == Some(|first|);
    assert s[|first| + 1..] == tail;
  }

  /** Joining a line in front of at least one more adds it and a newline. */
  lemma JoinCons(first: string, rest: seq<string>)
    requires |rest| >= 1
    ensures JoinLines([first] + rest) == first + "\n" + JoinLines(rest)
  {
    assert ([first] + rest)[1..] == rest;
  }

  /**
   * Splitting a join gives back every line in front of the last, which may
   * itself hold newlines and is split in turn.
   */
  lemma {:induction false} SplitJoinSnoc(init: seq<string>, last: string)
    requires forall k :: 0 <= k < |init| ==> NoNewline(init[k])
    ensures SplitLines(JoinLines(init + [last])) == init + SplitLines(last)
  {
    if |init| == 0 {
      assert init + [last] == [last];
    } else {
      var first, rest := init[0], init[1..];
      var tail := JoinLines(rest + [last]);
      calc {
        SplitLines(JoinLines(init + [last]));
        { assert init + [last] == [first] + (rest + [last]); }
        SplitLines(JoinLines([first] + (rest + [last])));
        { JoinCons(first, rest + [last]); }
        SplitLines(first + "\n" + tail);
        { assert NoNewline(init[0]); SplitFirstLine(first, tail); }
        [first] + SplitLines(tail);
        { assert forall k :: 0 <= k < |rest| ==> rest[k] == init[k + 1];
          SplitJoinSnoc(rest, last); }
        [first] + (rest + SplitLines(last));
        { assert [first] + rest == init; }
        init + SplitLines(last);
      }
    }
  }

  /** Splitting undoes joining when no line holds a newline. */
  lemma {:induction false} SplitJoin(lines: seq<string>)
    requires |lines| >= 1
    requires forall k :: 0 <= k < |lines| ==> NoNewline(lines[k])
    ensures SplitLines(JoinLines(lines)) == lines
  {
    if |lines| == 1 {
      SplitNoNewline(lines[0]);
    } else {
      var first, rest := lines[0], lines[1..];
      calc {
        SplitLines(JoinLines(lines));
        { assert [first] + rest == lines; JoinCons(first, rest); }
        SplitLines(first + "\n" + JoinLines(rest));
        { assert NoNewline(lines[0]); SplitFirstLine(first, JoinLines(rest)); }
        [first] + SplitLines(JoinLines(rest));
        { assert forall k :: 0 <= k < |rest| ==> rest[k] == lines[k + 1];
          SplitJoin(rest); }
        [first] + rest;
        lines;
      }
    }
  }

  /** Joining undoes splitting, for every string. */
  lemma {:induction false} JoinSplit(s: string)
    ensures JoinLines(SplitLines(s)) == s
    decreases |s|
  {
    match NewlineIndex(s)
    case None =>
    case Some(i) =>
      var rest := SplitLines(s[i + 1..]);
      JoinSplit(s[i + 1..]);
      assert SplitLines(s) == [s[..i]] + rest;
      assert JoinLines([s[..i]] + rest) == s[..i] + "\n" + JoinLines(rest);
      assert s[..i] + "\n" + s[i + 1..] == s;
  }

  /** `s.replace(/c/g, d)` for a single character `c`. */
  function ReplaceAll(s: string, c: char, d: char): (r: string)
    ensures |r| == |s|
    ensures forall k :: 0 <= k < |s| ==> r[k] == (if s[k] == c then d else s[k])
  {
    seq(|s|, k requires 0 <= k < |s| => if s[k] == c then d else s[k])
  }

  /** `s.replace(/c+$/, '')`: drop the maximal run of `c` at the end of `s`. */
  function StripTrailing(s: string, c: char): (r: string)
    ensures |r| <= |s| && r == s[..|r|]
    ensures |r| > 0 ==> r[|r| - 1] != c
    ensures forall k :: |r| <= k < |s| ==> s[k] == c
  {
    if |s| > 0 && s[|s| - 1] == c then StripTrailing(s[..|s| - 1], c) else s
  }
}
