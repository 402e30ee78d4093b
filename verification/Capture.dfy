/**
 The streaming marker matcher of the UART capture tool: it counts complete lines that
 contain a marker while keeping only a bounded window of the stream, and stops once
 enough have been seen.
 */
module Capture {
  import opened Common

  const NEWLINE: Byte := 10
  const BUFFER_LIMIT := 4096
  const BUFFER_KEEP := 2048

  // ----- Searching ---------------------------------------------------------------

  predicate OccursAt(s: seq<Byte>, m: seq<Byte>, j: int) {
    0 <= j && j + |m| <= |s| && s[j..j + |m|] == m
  }

  /** The first occurrence of `m` at or after `from`, or -1. */
  function Find(s: seq<Byte>, m: seq<Byte>, from: nat): (r: int)
    ensures r == -1 || from <= r <= |s| - |m|
    decreases |s| + 1 - from
  {
    if from + |m| > |s| then -1
    else if OccursAt(s, m, from) then from
    else Find(s, m, from + 1)
  }

  lemma {:induction false} FindsFirst(s: seq<Byte>, m: seq<Byte>, from: nat)
    ensures var r := Find(s, m, from);
      && (r == -1 || OccursAt(s, m, r))
      && forall j :: from <= j && (r == -1 || j < r) ==> !OccursAt(s, m, j)
    decreases |s| + 1 - from
  {
    if from + |m| <= |s| && !OccursAt(s, m, from) {
      FindsFirst(s, m, from + 1);
    }
  }

  ghost predicate Contains(s: seq<Byte>, m: seq<Byte>) {
    exists j :: OccursAt(s, m, j)
  }

  // ----- Lines -------------------------------------------------------------------

  /** The index of the first newline at or after `from`, or -1. */
  function NewlineFrom(s: seq<Byte>, from: nat): (e: int)
    requires from <= |s|
    ensures -1 <= e < |s| && (e == -1 || from <= e)
    decreases |s| - from
  {
    if from == |s| then -1 else if s[from] == NEWLINE then from else NewlineFrom(s, from + 1)
  }

  /** Where the first line of a stream ends, or -1 if it is incomplete. */
  function LineEnd(s: seq<Byte>): int {
    NewlineFrom(s, 0)
  }

  lemma {:induction false} NewlineFromIsFirst(s: seq<Byte>, from: nat)
    requires from <= |s|
    ensures var e := NewlineFrom(s, from);
      && (e >= 0 ==> s[e] == NEWLINE)
      && forall j :: from <= j < |s| && (e < 0 || j < e) ==> s[j] != NEWLINE
    decreases |s| - from
  {
    if from < |s| && s[from] != NEWLINE {
      NewlineFromIsFirst(s, from + 1);
    }
  }

  /** How many complete lines of a stream contain the marker. */
  ghost function CountMatching(s: seq<Byte>, m: seq<Byte>): nat
    decreases |s|
  {
    var e := LineEnd(s);
    if e == -1 then 0
    else (if Contains(s[..e], m) then 1 else 0) + CountMatching(s[e + 1..], m)
  }

  /** If a line contains the marker, it does so at most `limit` bytes before its newline. */
  ghost predicate LineWithin(line: seq<Byte>, m: seq<Byte>, limit: nat) {
    Contains(line, m) ==> exists j :: OccursAt(line, m, j) && |line| - j <= limit
  }

  /** Every complete line of a stream that contains the marker does so near enough to its newline. */
  ghost predicate MatchesWithin(s: seq<Byte>, m: seq<Byte>, limit: nat)
    decreases |s|
  {
    var e := LineEnd(s);
    e == -1 || (LineWithin(s[..e], m, limit) && MatchesWithin(s[e + 1..], m, limit))
  }

  /** Short enough lines satisfy the bound wherever the marker is. */
  lemma ShortLineWithin(line: seq<Byte>, m: seq<Byte>, limit: nat)
    requires |line| <= limit
    ensures LineWithin(line, m, limit)
  {
    if Contains(line, m) {
      var j :| OccursAt(line, m, j);
      assert |line| - j <= limit;
    }
  }

  // ----- The matcher -------------------------------------------------------------

  datatype Watcher = Watcher(recent: seq<Byte>, matches: nat, stopped: bool)

  /** Where the first matched line of the window ends, or -1 if none is complete. */
  function MatchedLineEnd(recent: seq<Byte>, marker: seq<Byte>): (e: int)
    ensures -1 <= e < |recent|
  {
    var i := Find(recent, marker, 0);
    if i < 0 then -1 else Find(recent, [NEWLINE], i + |marker|)
  }

  /** Removes matched lines from the front of the window until none is left or enough are seen. */
  function Drain(w: Watcher, marker: seq<Byte>, minimum: nat): Watcher
    decreases |w.recent|
  {
    var e := MatchedLineEnd(w.recent, marker);
    if e < 0 then w
    else
      var next := Watcher(w.recent[e + 1..], w.matches + 1, w.matches + 1 >= minimum);
      if next.stopped then next else Drain(next, marker, minimum)
  }

  function Truncate(recent: seq<Byte>): seq<Byte> {
    if |recent| > BUFFER_LIMIT then recent[|recent| - BUFFER_KEEP..] else recent
  }

  function Feed(w: Watcher, chunk: seq<Byte>, marker: seq<Byte>, minimum: nat): Watcher {
    if w.stopped || chunk == [] then w
    else
      var drained := Drain(w.(recent := w.recent + chunk), marker, minimum);
      if drained.stopped then drained else drained.(recent := Truncate(drained.recent))
  }

  function Watch(chunks: seq<seq<Byte>>, marker: seq<Byte>, minimum: nat): Watcher {
    if chunks == [] then Watcher([], 0, false)
    else Feed(Watch(chunks[..|chunks| - 1], marker, minimum), chunks[|chunks| - 1], marker, minimum)
  }

  /** The inner loop: cuts matched lines off the window. */
  method DrainWindow(window: seq<Byte>, matchesSoFar: nat, marker: seq<Byte>, minimum: nat)
    returns (recent: seq<Byte>, matches: nat, stopped: bool)
    ensures Watcher(recent, matches, stopped) == Drain(Watcher(window, matchesSoFar, false), marker, minimum)
  {
    recent, matches, stopped := window, matchesSoFar, false;
    while true
      invariant !stopped
      invariant Drain(Watcher(recent, matches, false), marker, minimum)
             == Drain(Watcher(window, matchesSoFar, false), marker, minimum)
      decreases |recent|
    {
      var lineEnd := MatchedLineEnd(recent, marker);
      if lineEnd < 0 {
        return;
      }
      matches := matches + 1;
      recent := recent[lineEnd + 1..];
      if matches >= minimum {
        stopped := true;
        return;
      }
    }
  }

  /** The capture loop: reports whether enough matches were seen, and how many. */
  method Capture(chunks: seq<seq<Byte>>, marker: seq<Byte>, minimum: nat)
    returns (found: bool, matches: nat)
    requires minimum >= 1
    ensures found == Watch(chunks, marker, minimum).stopped
    ensures matches == Watch(chunks, marker, minimum).matches
  {
    var recent: seq<Byte> := [];
    found, matches := false, 0;
    var i := 0;
    while i < |chunks|
      invariant 0 <= i <= |chunks|
      invariant Watcher(recent, matches, false) == Watch(chunks[..i], marker, minimum)
    {
      assert chunks[..i + 1][..i] == chunks[..i];
      var chunk := chunks[i];
      i := i + 1;
      if chunk == [] {
        continue;
      }
      recent, matches, found := DrainWindow(recent + chunk, matches, marker, minimum);
      if found {
        StoppedStays(chunks, marker, minimum, i);
        return;
      }
      if |recent| > BUFFER_LIMIT {
        recent := recent[|recent| - BUFFER_KEEP..];
      }
    }
    found := false;
    assert chunks[..|chunks|] == chunks;
  }

  /** Once stopped, later chunks change nothing. */
  lemma {:induction false} StoppedStays(chunks: seq<seq<Byte>>, marker: seq<Byte>, minimum: nat, i: nat)
    requires i <= |chunks| && Watch(chunks[..i], marker, minimum).stopped
    ensures Watch(chunks, marker, minimum) == Watch(chunks[..i], marker, minimum)
  {
    if i == |chunks| {
      assert chunks[..i] == chunks;
    } else {
      var shorter := chunks[..|chunks| - 1];
      assert shorter[..i] == chunks[..i];
      StoppedStays(shorter, marker, minimum, i);
    }
  }

  // ----- Lines of a concatenation ------------------------------------------------

  lemma FirstNewline(s: seq<Byte>, e: nat)
    requires e < |s| && s[e] == NEWLINE && forall j :: 0 <= j < e ==> s[j] != NEWLINE
    ensures LineEnd(s) == e
  {
    NewlineFromIsFirst(s, 0);
  }

  lemma LineEndOfConcat(a: seq<Byte>, b: seq<Byte>)
    ensures LineEnd(a) != -1 ==> LineEnd(a + b) == LineEnd(a)
    ensures LineEnd(a) == -1 && LineEnd(b) != -1 ==> LineEnd(a + b) == |a| + LineEnd(b)
    ensures LineEnd(a) == -1 && LineEnd(b) == -1 ==> LineEnd(a + b) == -1
  {
    NewlineFromIsFirst(a, 0);
    NewlineFromIsFirst(b, 0);
    NewlineFromIsFirst(a + b, 0);
    if LineEnd(a) != -1 {
      FirstNewline(a + b, LineEnd(a));
    } else if LineEnd(b) != -1 {
      FirstNewline(a + b, |a| + LineEnd(b));
    }
  }

  // ----- Occurrences and lines ---------------------------------------------------

  lemma OccursInPrefix(s: seq<Byte>, m: seq<Byte>, e: nat, j: int)
    requires e <= |s|
    ensures OccursAt(s[..e], m, j) <==> OccursAt(s, m, j) && j + |m| <= e
  {
    if 0 <= j && j + |m| <= e {
      assert s[..e][j..j + |m|] == s[j..j + |m|];
    }
  }

  lemma OccursInSuffix(s: seq<Byte>, m: seq<Byte>, c: nat, j: int)
    requires c <= |s| && j >= 0
    ensures OccursAt(s[c..], m, j) <==> OccursAt(s, m, c + j)
  {
    if c + j + |m| <= |s| {
      assert s[c..][j..j + |m|] == s[c + j..c + j + |m|];
    }
  }

  lemma SuffixContains(s: seq<Byte>, m: seq<Byte>, c: nat)
    requires c <= |s| && Contains(s[c..], m)
    ensures Contains(s, m)
  {
    var j :| OccursAt(s[c..], m, j);
    OccursInSuffix(s, m, c, j);
  }

  /** The marker sits inside one line: no newline lies between its first and last byte. */
  lemma MarkerWithinLine(s: seq<Byte>, m: seq<Byte>, i: nat, f: nat)
    requires NEWLINE !in m && OccursAt(s, m, i) && f < |s| && s[f] == NEWLINE && i <= f
    ensures i + |m| <= f
  {
    forall k | 0 <= k < |m|
      ensures s[i + k] == m[k]
    {
      assert s[i..i + |m|][k] == s[i + k];
    }
  }

  lemma SplitFirstLine(a: seq<Byte>, rest: seq<Byte>)
    requires LineEnd(a) != -1
    ensures var f := LineEnd(a);
      LineEnd(a + rest) == f && (a + rest)[..f] == a[..f] && (a + rest)[f + 1..] == a[f + 1..] + rest
  {
    LineEndOfConcat(a, rest);
  }

  /** The count, first line first. */
  lemma FirstLineCounts(a: seq<Byte>, rest: seq<Byte>, m: seq<Byte>)
    requires LineEnd(a) != -1
    ensures var f := LineEnd(a);
      CountMatching(a + rest, m) == (if Contains(a[..f], m) then 1 else 0) + CountMatching(a[f + 1..] + rest, m)
  {
    SplitFirstLine(a, rest);
  }

  /** The bound, first line first. */
  lemma FirstLineBound(a: seq<Byte>, rest: seq<Byte>, m: seq<Byte>, limit: nat)
    requires LineEnd(a) != -1
    ensures var f := LineEnd(a);
      MatchesWithin(a + rest, m, limit) <==>
        LineWithin(a[..f], m, limit) && MatchesWithin(a[f + 1..] + rest, m, limit)
  {
    SplitFirstLine(a, rest);
  }

  /** The marker first occurs at `i`. */
  ghost predicate FirstAt(a: seq<Byte>, m: seq<Byte>, i: nat) {
    OccursAt(a, m, i) && forall j :: 0 <= j < i ==> !OccursAt(a, m, j)
  }

  /** A line ending before the first occurrence does not match and can be dropped. */
  lemma LineBeforeMarker(a: seq<Byte>, m: seq<Byte>, i: nat, f: nat)
    requires FirstAt(a, m, i) && f < i
    ensures !Contains(a[..f], m)
    ensures f < |a| && FirstAt(a[f + 1..], m, i - f - 1)
  {
    forall j
      ensures !OccursAt(a[..f], m, j)
    {
      OccursInPrefix(a, m, f, j);
    }
    OccursInSuffix(a, m, f + 1, i - f - 1);
    var b := a[f + 1..];
    forall j | 0 <= j < i - f - 1
      ensures !OccursAt(b, m, j)
    {
      OccursInSuffix(a, m, f + 1, j);
    }
  }

  // ----- Cutting a matched line --------------------------------------------------

  ghost predicate FirstNewlineFrom(a: seq<Byte>, from: nat, e: nat) {
    from <= e < |a| && a[e] == NEWLINE && forall j :: from <= j < e ==> a[j] != NEWLINE
  }

  lemma FindsNewline(a: seq<Byte>, from: nat)
    ensures var e := Find(a, [NEWLINE], from);
      if e < 0 then forall j :: from <= j < |a| ==> a[j] != NEWLINE else FirstNewlineFrom(a, from, e)
  {
    var e := Find(a, [NEWLINE], from);
    FindsFirst(a, [NEWLINE], from);
    if e >= 0 {
      assert a[e] == a[e..e + 1][0];
    }
    forall j | from <= j < |a| && (e < 0 || j < e)
      ensures a[j] != NEWLINE
    {
      assert !OccursAt(a, [NEWLINE], j);
      assert a[j..j + 1] == [a[j]];
    }
  }

  lemma MarkerLineEnds(a: seq<Byte>, m: seq<Byte>, i: nat, e: nat)
    requires NEWLINE !in m && OccursAt(a, m, i) && FirstNewlineFrom(a, i + |m|, e) && i <= LineEnd(a)
    ensures LineEnd(a) == e && Contains(a[..e], m)
  {
    NewlineFromIsFirst(a, 0);
    MarkerWithinLine(a, m, i, LineEnd(a));
    OccursInPrefix(a, m, e, i);
  }

  lemma NewlineOfSuffix(a: seq<Byte>, from: nat, e: nat, c: nat)
    requires FirstNewlineFrom(a, from, e) && c <= from
    ensures FirstNewlineFrom(a[c..], from - c, e - c)
  {
  }

  /** Cutting the window after its first matched line takes exactly one match away. */
  lemma {:induction false} CutMatchedLine(a: seq<Byte>, rest: seq<Byte>, m: seq<Byte>, i: nat, e: nat)
    requires NEWLINE !in m && FirstAt(a, m, i) && FirstNewlineFrom(a, i + |m|, e)
    ensures CountMatching(a + rest, m) == 1 + CountMatching(a[e + 1..] + rest, m)
    decreases |a|
  {
    var f := LineEnd(a);
    NewlineFromIsFirst(a, 0);
    FirstLineCounts(a, rest, m);
    if f < i {
      LineBeforeMarker(a, m, i, f);
      NewlineOfSuffix(a, i + |m|, e, f + 1);
      CutMatchedLine(a[f + 1..], rest, m, i - f - 1, e - f - 1);
      assert a[f + 1..][e - f..] == a[e + 1..];
    } else {
      MarkerLineEnds(a, m, i, e);
    }
  }

  /** What is left keeps the bound. */
  lemma {:induction false} CutKeepsBound(a: seq<Byte>, rest: seq<Byte>, m: seq<Byte>, e: nat, limit: nat)
    requires e < |a| && a[e] == NEWLINE && MatchesWithin(a + rest, m, limit)
    ensures MatchesWithin(a[e + 1..] + rest, m, limit)
    decreases |a|
  {
    var f := LineEnd(a);
    NewlineFromIsFirst(a, 0);
    FirstLineBound(a, rest, m, limit);
    if f < e {
      CutKeepsBound(a[f + 1..], rest, m, e - f - 1, limit);
      assert a[f + 1..][e - f..] == a[e + 1..];
    }
  }

  // ----- A drained window --------------------------------------------------------

  /** If the marker's line has no end yet, no complete line of the window matches. */
  lemma {:induction false} NoneCompleteWithMarker(a: seq<Byte>, m: seq<Byte>, i: nat)
    requires NEWLINE !in m && FirstAt(a, m, i) && forall j :: i + |m| <= j < |a| ==> a[j] != NEWLINE
    ensures CountMatching(a, m) == 0
    decreases |a|
  {
    var f := LineEnd(a);
    if f != -1 {
      NewlineFromIsFirst(a, 0);
      if i <= f {
        MarkerWithinLine(a, m, i, f);
      }
      LineBeforeMarker(a, m, i, f);
      NoneCompleteWithMarker(a[f + 1..], m, i - f - 1);
    }
  }

  lemma {:induction false} NoneCompleteWithoutMarker(a: seq<Byte>, m: seq<Byte>)
    requires forall j :: !OccursAt(a, m, j)
    ensures CountMatching(a, m) == 0
    decreases |a|
  {
    var f := LineEnd(a);
    if f != -1 {
      forall j
        ensures !OccursAt(a[..f], m, j)
      {
        OccursInPrefix(a, m, f, j);
      }
      var b := a[f + 1..];
      forall j
        ensures !OccursAt(b, m, j)
      {
        if j >= 0 {
          OccursInSuffix(a, m, f + 1, j);
        }
      }
      NoneCompleteWithoutMarker(a[f + 1..], m);
    }
  }

  /** One look of the inner loop finds nothing: no complete line matches. */
  lemma NothingToCut(a: seq<Byte>, m: seq<Byte>)
    requires NEWLINE !in m && MatchedLineEnd(a, m) < 0
    ensures CountMatching(a, m) == 0
  {
    var i := Find(a, m, 0);
    FindsFirst(a, m, 0);
    if i < 0 {
      NoneCompleteWithoutMarker(a, m);
    } else {
      FindsNewline(a, i + |m|);
      NoneCompleteWithMarker(a, m, i);
    }
  }

  /** One look of the inner loop finds a complete match, and cuts exactly that off. */
  lemma OneToCut(a: seq<Byte>, rest: seq<Byte>, m: seq<Byte>)
    requires NEWLINE !in m && MatchedLineEnd(a, m) >= 0
    ensures CountMatching(a + rest, m) == 1 + CountMatching(a[MatchedLineEnd(a, m) + 1..] + rest, m)
  {
    var i := Find(a, m, 0);
    FindsFirst(a, m, 0);
    FindsNewline(a, i + |m|);
    CutMatchedLine(a, rest, m, i, MatchedLineEnd(a, m));
  }

  lemma OneToCutBound(a: seq<Byte>, rest: seq<Byte>, m: seq<Byte>, limit: nat)
    requires MatchedLineEnd(a, m) >= 0 && MatchesWithin(a + rest, m, limit)
    ensures MatchesWithin(a[MatchedLineEnd(a, m) + 1..] + rest, m, limit)
  {
    FindsNewline(a, Find(a, m, 0) + |m|);
    CutKeepsBound(a, rest, m, MatchedLineEnd(a, m), limit);
  }

  // ----- Truncation --------------------------------------------------------------

  /** The cut falls inside a first line that does not match. */
  lemma TruncateFirstLine(a: seq<Byte>, m: seq<Byte>, c: nat)
    requires 0 <= c <= LineEnd(a) && !Contains(a[..LineEnd(a)], m)
    ensures var f := LineEnd(a);
      && LineEnd(a[c..]) == f - c && !Contains(a[c..][..f - c], m)
      && a[c..][f - c + 1..] == a[f + 1..]
  {
    var f := LineEnd(a);
    NewlineFromIsFirst(a, 0);
    assert a[c..][..f - c] == a[..f][c..];
    FirstNewline(a[c..], f - c);
    if Contains(a[c..][..f - c], m) {
      SuffixContains(a[..f], m, c);
    }
  }

  /** A stream whose first line begins in `a` and ends in `rest`. */
  lemma SplitLastLine(a: seq<Byte>, rest: seq<Byte>)
    requires LineEnd(a) == -1 && LineEnd(rest) != -1
    ensures var e := |a| + LineEnd(rest);
      && LineEnd(a + rest) == e && (a + rest)[..e] == a + rest[..LineEnd(rest)]
      && (a + rest)[e + 1..] == rest[LineEnd(rest) + 1..]
  {
    LineEndOfConcat(a, rest);
  }

  lemma LastLineCounts(a: seq<Byte>, rest: seq<Byte>, m: seq<Byte>)
    requires LineEnd(a) == -1 && LineEnd(rest) != -1
    ensures var g := LineEnd(rest);
      CountMatching(a + rest, m) == (if Contains(a + rest[..g], m) then 1 else 0) + CountMatching(rest[g + 1..], m)
  {
    SplitLastLine(a, rest);
  }

  lemma LastLineBound(a: seq<Byte>, rest: seq<Byte>, m: seq<Byte>, limit: nat)
    requires LineEnd(a) == -1 && LineEnd(rest) != -1
    ensures var g := LineEnd(rest);
      MatchesWithin(a + rest, m, limit) <==>
        LineWithin(a + rest[..g], m, limit) && MatchesWithin(rest[g + 1..], m, limit)
  {
    SplitLastLine(a, rest);
  }

  /** Dropping bytes that start too far from the newline keeps a match, and invents none. */
  lemma ShortenLine(line: seq<Byte>, m: seq<Byte>, c: nat, limit: nat)
    requires c <= |line| && |line| - c >= limit && LineWithin(line, m, limit)
    ensures Contains(line[c..], m) <==> Contains(line, m)
    ensures LineWithin(line[c..], m, limit)
  {
    if Contains(line, m) {
      var j :| OccursAt(line, m, j) && |line| - j <= limit;
      OccursInSuffix(line, m, c, j - c);
      assert OccursAt(line[c..], m, j - c) && |line[c..]| - (j - c) <= limit;
    } else if Contains(line[c..], m) {
      SuffixContains(line, m, c);
    }
  }

  lemma NoLineInSuffix(a: seq<Byte>, c: nat)
    requires LineEnd(a) == -1 && c <= |a|
    ensures LineEnd(a[c..]) == -1
  {
    NewlineFromIsFirst(a, 0);
    NewlineFromIsFirst(a[c..], 0);
  }

  /** The cut falls inside the line still being received. */
  lemma TruncateLastLine(a: seq<Byte>, rest: seq<Byte>, m: seq<Byte>, c: nat)
    requires LineEnd(a) == -1 && c <= |a| && |a| - c == BUFFER_KEEP
    requires MatchesWithin(a + rest, m, BUFFER_KEEP)
    ensures CountMatching(a[c..] + rest, m) == CountMatching(a + rest, m)
  {
    var g := LineEnd(rest);
    NoLineInSuffix(a, c);
    if g == -1 {
      LineEndOfConcat(a, rest);
      LineEndOfConcat(a[c..], rest);
    } else {
      LastLineBound(a, rest, m, BUFFER_KEEP);
      LastLineCounts(a, rest, m);
      LastLineCounts(a[c..], rest, m);
      assert a[c..] + rest[..g] == (a + rest[..g])[c..];
      ShortenLine(a + rest[..g], m, c, BUFFER_KEEP);
    }
  }

  lemma TruncateLastLineBound(a: seq<Byte>, rest: seq<Byte>, m: seq<Byte>, c: nat)
    requires LineEnd(a) == -1 && c <= |a| && |a| - c == BUFFER_KEEP
    requires MatchesWithin(a + rest, m, BUFFER_KEEP)
    ensures MatchesWithin(a[c..] + rest, m, BUFFER_KEEP)
  {
    var g := LineEnd(rest);
    NoLineInSuffix(a, c);
    if g == -1 {
      LineEndOfConcat(a[c..], rest);
    } else {
      LastLineBound(a, rest, m, BUFFER_KEEP);
      LastLineBound(a[c..], rest, m, BUFFER_KEEP);
      assert a[c..] + rest[..g] == (a + rest[..g])[c..];
      ShortenLine(a + rest[..g], m, c, BUFFER_KEEP);
    }
  }

  lemma FirstLineQuiet(a: seq<Byte>, m: seq<Byte>)
    requires LineEnd(a) != -1 && CountMatching(a, m) == 0
    ensures !Contains(a[..LineEnd(a)], m) && CountMatching(a[LineEnd(a) + 1..], m) == 0
  {
  }

  /**
   In a window without complete matches, forgetting all but the last 2048 bytes changes
   nothing, as long as matching lines match no further than that from their newline.
   */
  lemma {:induction false} TruncationIsSafe(a: seq<Byte>, rest: seq<Byte>, m: seq<Byte>, c: nat)
    requires c <= |a| && |a| - c == BUFFER_KEEP
    requires CountMatching(a, m) == 0 && MatchesWithin(a + rest, m, BUFFER_KEEP)
    ensures CountMatching(a[c..] + rest, m) == CountMatching(a + rest, m)
    decreases |a|
  {
    var f := LineEnd(a);
    if f == -1 {
      TruncateLastLine(a, rest, m, c);
    } else {
      FirstLineQuiet(a, m);
      FirstLineCounts(a, rest, m);
      FirstLineBound(a, rest, m, BUFFER_KEEP);
      if f < c {
        TruncationIsSafe(a[f + 1..], rest, m, c - f - 1);
        assert a[f + 1..][c - f - 1..] == a[c..];
      } else {
        TruncateFirstLine(a, m, c);
        FirstLineCounts(a[c..], rest, m);
      }
    }
  }

  /** The bound survives as well. */
  lemma {:induction false} TruncationKeepsBound(a: seq<Byte>, rest: seq<Byte>, m: seq<Byte>, c: nat)
    requires c <= |a| && |a| - c == BUFFER_KEEP
    requires CountMatching(a, m) == 0 && MatchesWithin(a + rest, m, BUFFER_KEEP)
    ensures MatchesWithin(a[c..] + rest, m, BUFFER_KEEP)
    decreases |a|
  {
    var f := LineEnd(a);
    if f == -1 {
      TruncateLastLineBound(a, rest, m, c);
    } else {
      FirstLineQuiet(a, m);
      FirstLineBound(a, rest, m, BUFFER_KEEP);
      if f < c {
        TruncationKeepsBound(a[f + 1..], rest, m, c - f - 1);
        assert a[f + 1..][c - f - 1..] == a[c..];
      } else {
        TruncateFirstLine(a, m, c);
        FirstLineBound(a[c..], rest, m, BUFFER_KEEP);
      }
    }
  }

  // ----- Whole captures ----------------------------------------------------------

  function Flatten(chunks: seq<seq<Byte>>): seq<Byte> {
    if chunks == [] then [] else Flatten(chunks[..|chunks| - 1]) + chunks[|chunks| - 1]
  }

  /** What the window and the bytes still to come hold, against what was counted. */
  ghost predicate Tracks(w: Watcher, rest: seq<Byte>, m: seq<Byte>, minimum: nat, total: nat) {
    if w.stopped then w.matches == minimum <= total
    else
      && w.matches < minimum
      && w.matches + CountMatching(w.recent + rest, m) == total
      && MatchesWithin(w.recent + rest, m, BUFFER_KEEP)
  }

  lemma CutTracks(w: Watcher, rest: seq<Byte>, m: seq<Byte>, minimum: nat, total: nat)
    requires NEWLINE !in m && !w.stopped && Tracks(w, rest, m, minimum, total)
    requires MatchedLineEnd(w.recent, m) >= 0
    ensures var cut := w.recent[MatchedLineEnd(w.recent, m) + 1..];
      Tracks(Watcher(cut, w.matches + 1, w.matches + 1 >= minimum), rest, m, minimum, total)
  {
    OneToCut(w.recent, rest, m);
    OneToCutBound(w.recent, rest, m, BUFFER_KEEP);
  }

  lemma {:induction false} DrainTracks(w: Watcher, rest: seq<Byte>, m: seq<Byte>, minimum: nat, total: nat)
    requires NEWLINE !in m && !w.stopped && Tracks(w, rest, m, minimum, total)
    ensures Tracks(Drain(w, m, minimum), rest, m, minimum, total)
    decreases |w.recent|
  {
    var e := MatchedLineEnd(w.recent, m);
    if e >= 0 {
      CutTracks(w, rest, m, minimum, total);
      if w.matches + 1 < minimum {
        DrainTracks(Watcher(w.recent[e + 1..], w.matches + 1, false), rest, m, minimum, total);
      }
    }
  }

  lemma {:induction false} DrainLeavesNothing(w: Watcher, m: seq<Byte>, minimum: nat)
    requires NEWLINE !in m && !w.stopped
    ensures !Drain(w, m, minimum).stopped ==> CountMatching(Drain(w, m, minimum).recent, m) == 0
    decreases |w.recent|
  {
    var e := MatchedLineEnd(w.recent, m);
    if e < 0 {
      NothingToCut(w.recent, m);
    } else if w.matches + 1 < minimum {
      DrainLeavesNothing(Watcher(w.recent[e + 1..], w.matches + 1, false), m, minimum);
    }
  }

  lemma TruncateTracks(w: Watcher, rest: seq<Byte>, m: seq<Byte>, minimum: nat, total: nat)
    requires !w.stopped && Tracks(w, rest, m, minimum, total) && CountMatching(w.recent, m) == 0
    ensures Tracks(w.(recent := Truncate(w.recent)), rest, m, minimum, total)
  {
    if |w.recent| > BUFFER_LIMIT {
      TruncationIsSafe(w.recent, rest, m, |w.recent| - BUFFER_KEEP);
      TruncationKeepsBound(w.recent, rest, m, |w.recent| - BUFFER_KEEP);
    }
  }

  lemma FeedTracks(w: Watcher, chunk: seq<Byte>, rest: seq<Byte>, m: seq<Byte>, minimum: nat, total: nat)
    requires NEWLINE !in m && Tracks(w, chunk + rest, m, minimum, total)
    ensures Tracks(Feed(w, chunk, m, minimum), rest, m, minimum, total)
  {
    if chunk == [] {
      assert chunk + rest == rest;
    } else if !w.stopped {
      var fed := w.(recent := w.recent + chunk);
      assert w.recent + (chunk + rest) == fed.recent + rest;
      DrainTracks(fed, rest, m, minimum, total);
      DrainLeavesNothing(fed, m, minimum);
      var drained := Drain(fed, m, minimum);
      if !drained.stopped {
        TruncateTracks(drained, rest, m, minimum, total);
      }
    }
  }

  lemma {:induction false} WatchTracks(
      chunks: seq<seq<Byte>>, rest: seq<Byte>, m: seq<Byte>, minimum: nat, total: nat)
    requires NEWLINE !in m && minimum >= 1
    requires MatchesWithin(Flatten(chunks) + rest, m, BUFFER_KEEP)
    requires total == CountMatching(Flatten(chunks) + rest, m)
    ensures Tracks(Watch(chunks, m, minimum), rest, m, minimum, total)
  {
    if chunks != [] {
      var earlier, last := chunks[..|chunks| - 1], chunks[|chunks| - 1];
      assert Flatten(earlier) + (last + rest) == Flatten(chunks) + rest;
      WatchTracks(earlier, last + rest, m, minimum, total);
      FeedTracks(Watch(earlier, m, minimum), last, rest, m, minimum, total);
    }
  }

  lemma {:induction false} QuietWithin(s: seq<Byte>, m: seq<Byte>, limit: nat)
    requires CountMatching(s, m) == 0
    ensures MatchesWithin(s, m, limit)
    decreases |s|
  {
    var e := LineEnd(s);
    if e != -1 {
      QuietWithin(s[e + 1..], m, limit);
    }
  }

  lemma {:induction false} WithinMonotone(s: seq<Byte>, m: seq<Byte>, low: nat, high: nat)
    requires low <= high && MatchesWithin(s, m, low)
    ensures MatchesWithin(s, m, high)
    decreases |s|
  {
    var e := LineEnd(s);
    if e != -1 {
      WithinMonotone(s[e + 1..], m, low, high);
    }
  }

  lemma TruncateQuiet(a: seq<Byte>, m: seq<Byte>)
    requires CountMatching(a, m) == 0
    ensures CountMatching(Truncate(a), m) == 0
  {
    if |a| > BUFFER_LIMIT {
      assert a + [] == a && Truncate(a) + [] == Truncate(a);
      QuietWithin(a, m, BUFFER_KEEP);
      TruncationIsSafe(a, [], m, |a| - BUFFER_KEEP);
    }
  }

  ghost predicate Quiet(w: Watcher, m: seq<Byte>) {
    !w.stopped ==> CountMatching(w.recent, m) == 0
  }

  lemma FeedQuiet(w: Watcher, chunk: seq<Byte>, m: seq<Byte>, minimum: nat)
    requires NEWLINE !in m && Quiet(w, m)
    ensures Quiet(Feed(w, chunk, m, minimum), m)
  {
    if !w.stopped && chunk != [] {
      var fed := w.(recent := w.recent + chunk);
      DrainLeavesNothing(fed, m, minimum);
      if !Drain(fed, m, minimum).stopped {
        TruncateQuiet(Drain(fed, m, minimum).recent, m);
      }
    }
  }

  /** Between chunks the window holds no complete match. */
  lemma {:induction false} WindowQuiet(chunks: seq<seq<Byte>>, m: seq<Byte>, minimum: nat)
    requires NEWLINE !in m
    ensures Quiet(Watch(chunks, m, minimum), m)
  {
    if chunks != [] {
      WindowQuiet(chunks[..|chunks| - 1], m, minimum);
      FeedQuiet(Watch(chunks[..|chunks| - 1], m, minimum), chunks[|chunks| - 1], m, minimum);
    }
  }

  /** The capture stops exactly when enough complete lines match, and counts them exactly before. */
  ghost predicate CountsRight(chunks: seq<seq<Byte>>, m: seq<Byte>, minimum: nat) {
    var w, total := Watch(chunks, m, minimum), CountMatching(Flatten(chunks), m);
    (w.stopped <==> total >= minimum) && w.matches == if w.stopped then minimum else total
  }

  /** With nothing more to come, a quiet window has counted everything. */
  lemma TracksAtEnd(w: Watcher, m: seq<Byte>, minimum: nat, total: nat)
    requires Tracks(w, [], m, minimum, total) && Quiet(w, m)
    ensures w.stopped <==> total >= minimum
    ensures w.matches == if w.stopped then minimum else total
  {
    assert w.recent + [] == w.recent;
  }

  /**
   For every stream and every way of chunking it the count is right, if every matching
   line holds the marker at most 2048 bytes before its newline; lines may be of any length.
   */
  lemma CaptureCounts(chunks: seq<seq<Byte>>, m: seq<Byte>, minimum: nat)
    requires NEWLINE !in m && minimum >= 1
    requires MatchesWithin(Flatten(chunks), m, BUFFER_KEEP)
    ensures CountsRight(chunks, m, minimum)
  {
    var total := CountMatching(Flatten(chunks), m);
    assert Flatten(chunks) + [] == Flatten(chunks);
    WatchTracks(chunks, [], m, minimum, total);
    WindowQuiet(chunks, m, minimum);
    TracksAtEnd(Watch(chunks, m, minimum), m, minimum, total);
  }

  // ----- The bound is exact ------------------------------------------------------

  const MARK: seq<Byte> := [1]

  function Zeros(n: nat): seq<Byte> {
    seq(n, _ => 0)
  }

  /** A 2047-byte line, then a line of 2049 bytes whose first is the marker. */
  function LongChunk(): seq<Byte> {
    Zeros(2047) + [NEWLINE] + MARK + Zeros(2048)
  }

  lemma NoMarkIn(s: seq<Byte>)
    requires forall k :: 0 <= k < |s| ==> s[k] != 1
    ensures !Contains(s, MARK) && Find(s, MARK, 0) == -1
  {
    forall j
      ensures !OccursAt(s, MARK, j)
    {
      if 0 <= j && j + 1 <= |s| {
        assert s[j..j + 1][0] == s[j];
      }
    }
    FindsFirst(s, MARK, 0);
  }

  lemma LongChunkUnmatched()
    ensures MatchedLineEnd(LongChunk(), MARK) == -1
  {
    var a := LongChunk();
    assert OccursAt(a, MARK, 2048) by { assert a[2048..2049] == MARK; }
    forall j | 0 <= j < 2048
      ensures !OccursAt(a, MARK, j)
    {
      assert a[j..j + 1][0] == a[j] != 1;
    }
    FindsFirst(a, MARK, 0);
    assert Find(a, MARK, 0) == 2048;
    FindsNewline(a, 2049);
    assert forall j :: 2049 <= j < |a| ==> a[j] != NEWLINE;
  }

  lemma LongChunkForgotten()
    ensures Watch([LongChunk()], MARK, 1) == Watcher(Zeros(2048), 0, false)
  {
    var a := LongChunk();
    LongChunkUnmatched();
    assert [] + a == a;
    assert Truncate(a) == Zeros(2048);
  }

  lemma LongLineUncounted()
    ensures Watch([LongChunk(), [NEWLINE]], MARK, 1).matches == 0
  {
    LongChunkForgotten();
    assert [LongChunk(), [NEWLINE]][..1] == [LongChunk()];
    NoMarkIn(Zeros(2048) + [NEWLINE]);
  }

  lemma LongLineMatches()
    ensures CountMatching(MARK + Zeros(2048) + [NEWLINE], MARK) == 1
  {
    var line := MARK + Zeros(2048) + [NEWLINE];
    FirstNewline(line, 2049);
    assert OccursAt(line[..2049], MARK, 0) by { assert line[..2049][0..1] == MARK; }
    assert line[2050..] == [];
  }

  lemma LongLineWithin()
    ensures MatchesWithin(MARK + Zeros(2048) + [NEWLINE], MARK, 2049)
  {
    var line := MARK + Zeros(2048) + [NEWLINE];
    FirstNewline(line, 2049);
    ShortLineWithin(line[..2049], MARK, 2049);
    assert line[2050..] == [];
  }

  lemma LongStreamSplits()
    ensures var first := Zeros(2047) + [NEWLINE];
      && LongChunk() + [NEWLINE] == first + (MARK + Zeros(2048) + [NEWLINE])
      && LineEnd(first) == 2047 && !Contains(first[..2047], MARK) && first[2048..] == []
  {
    var first := Zeros(2047) + [NEWLINE];
    FirstNewline(first, 2047);
    assert first[..2047] == Zeros(2047);
    NoMarkIn(Zeros(2047));
  }

  lemma LongStreamMatches()
    ensures CountMatching(LongChunk() + [NEWLINE], MARK) == 1
  {
    var first, second := Zeros(2047) + [NEWLINE], MARK + Zeros(2048) + [NEWLINE];
    LongStreamSplits();
    FirstLineCounts(first, second, MARK);
    assert first[2048..] + second == second;
    LongLineMatches();
  }

  lemma LongStreamWithin()
    ensures MatchesWithin(LongChunk() + [NEWLINE], MARK, 2049)
  {
    var first, second := Zeros(2047) + [NEWLINE], MARK + Zeros(2048) + [NEWLINE];
    LongStreamSplits();
    FirstLineBound(first, second, MARK, 2049);
    assert first[2048..] + second == second;
    LongLineWithin();
  }

  lemma LongLineMissed()
    ensures !CountsRight([LongChunk(), [NEWLINE]], MARK, 1)
    ensures MatchesWithin(Flatten([LongChunk(), [NEWLINE]]), MARK, 2049)
  {
    var a := LongChunk();
    assert [a, [NEWLINE]][..1] == [a];
    assert Flatten([a]) == [] + a == a;
    assert Flatten([a, [NEWLINE]]) == a + [NEWLINE];
    LongLineUncounted();
    LongStreamMatches();
    LongStreamWithin();
  }

  /** 2048 is the largest distance under which every capture counts right. */
  lemma BoundExactly(limit: nat)
    ensures limit <= 2048 <==>
      forall chunks: seq<seq<Byte>>, m: seq<Byte>, minimum: nat ::
        NEWLINE !in m && minimum >= 1 && MatchesWithin(Flatten(chunks), m, limit) ==> CountsRight(chunks, m, minimum)
  {
    if limit <= BUFFER_KEEP {
      forall chunks: seq<seq<Byte>>, m: seq<Byte>, minimum: nat |
        NEWLINE !in m && minimum >= 1 && MatchesWithin(Flatten(chunks), m, limit)
        ensures CountsRight(chunks, m, minimum)
      {
        WithinMonotone(Flatten(chunks), m, limit, BUFFER_KEEP);
        CaptureCounts(chunks, m, minimum);
      }
    } else {
      LongLineMissed();
      WithinMonotone(Flatten([LongChunk(), [NEWLINE]]), MARK, 2049, limit);
    }
  }
}
