/**
 What the capture tool counts, stated on the bytes of the stream: complete lines that contain
 the marker, for streams with bounded markers and for streams that fit the window.
 */
module CaptureLines {
  import opened Common
  import opened Capture

  // ----- Marked lines ------------------------------------------------------------

  /** The marker's bytes stand at `j`, in the line that ends at `e`. */
  ghost predicate MarkedAt(s: seq<Byte>, m: seq<Byte>, j: nat, e: nat) {
    && j + |m| <= e < |s|
    && (forall k :: 0 <= k < |m| ==> m[k] == s[j + k])
    && (forall k :: j <= k < e ==> s[k] != 10)
  }

  /** A line with the marker is complete at `e`, where its newline stands. */
  ghost predicate MarkedLineEnds(s: seq<Byte>, m: seq<Byte>, e: nat) {
    e < |s| && s[e] == 10 && exists j: nat :: MarkedAt(s, m, j, e)
  }

  /** How many lines with the marker are complete at `from` or later. */
  ghost function MarkedLines(s: seq<Byte>, m: seq<Byte>, from: nat): nat
    decreases |s| - from
  {
    if from >= |s| then 0 else (if MarkedLineEnds(s, m, from) then 1 else 0) + MarkedLines(s, m, from + 1)
  }

  /** Every complete line with the marker has it at most `limit` bytes before its newline. */
  ghost predicate MarkedNear(s: seq<Byte>, m: seq<Byte>, from: nat, limit: nat) {
    forall e: nat :: from <= e && MarkedLineEnds(s, m, e) ==> exists j: nat :: MarkedAt(s, m, j, e) && e - j <= limit
  }

  /** A line begins at `c`. */
  predicate LineStarts(s: seq<Byte>, c: nat) {
    c <= |s| && (c == 0 || s[c - 1] == 10)
  }

  /** The line from `c` ends at `e`. */
  ghost predicate IsLine(s: seq<Byte>, c: nat, e: nat) {
    LineStarts(s, c) && c <= e < |s| && s[e] == 10 && forall k :: c <= k < e ==> s[k] != 10
  }

  lemma LineFound(s: seq<Byte>, c: nat) returns (e: int)
    requires LineStarts(s, c)
    ensures LineEnd(s[c..]) == if e == -1 then -1 else e - c
    ensures e == -1 ==> forall k :: c <= k < |s| ==> s[k] != 10
    ensures e != -1 ==> e >= 0 && IsLine(s, c, e)
  {
    var tail, f := s[c..], LineEnd(s[c..]);
    NewlineFromIsFirst(tail, 0);
    forall k | c <= k < |s| && (f < 0 || k < c + f)
      ensures s[k] != 10
    {
      assert tail[k - c] == s[k];
    }
    e := if f == -1 then -1 else c + f;
  }

  // ----- Occurrences in a line ---------------------------------------------------

  lemma OccursBytewise(line: seq<Byte>, m: seq<Byte>, j: nat)
    ensures OccursAt(line, m, j) <==> j + |m| <= |line| && forall k :: 0 <= k < |m| ==> m[k] == line[j + k]
  {
    if j + |m| <= |line| {
      var part := line[j..j + |m|];
      assert forall k :: 0 <= k < |part| ==> part[k] == line[j + k];
    }
  }

  lemma MarkedInLine(s: seq<Byte>, m: seq<Byte>, c: nat, e: nat, j: nat)
    requires IsLine(s, c, e)
    ensures MarkedAt(s, m, j, e) && c <= j <==> c <= j && OccursAt(s[c..e], m, j - c)
  {
    if c <= j {
      var line := s[c..e];
      OccursBytewise(line, m, j - c);
      assert forall i :: 0 <= i < |line| ==> line[i] == s[c + i];
    }
  }

  /** A marker inside the line cannot begin before it. */
  lemma MarkedAfterStart(s: seq<Byte>, m: seq<Byte>, c: nat, e: nat, j: nat)
    requires IsLine(s, c, e) && MarkedAt(s, m, j, e)
    ensures c <= j
  {
  }

  lemma LineContains(s: seq<Byte>, m: seq<Byte>, c: nat, e: nat)
    requires IsLine(s, c, e)
    ensures MarkedLineEnds(s, m, e) <==> Contains(s[c..e], m)
  {
    if MarkedLineEnds(s, m, e) {
      var j: nat :| MarkedAt(s, m, j, e);
      MarkedAfterStart(s, m, c, e, j);
      MarkedInLine(s, m, c, e, j);
    }
    if Contains(s[c..e], m) {
      var i :| OccursAt(s[c..e], m, i);
      MarkedInLine(s, m, c, e, c + i);
    }
  }

  lemma LineNear(s: seq<Byte>, m: seq<Byte>, c: nat, e: nat, limit: nat)
    requires IsLine(s, c, e)
    requires MarkedLineEnds(s, m, e) ==> exists j: nat :: MarkedAt(s, m, j, e) && e - j <= limit
    ensures LineWithin(s[c..e], m, limit)
  {
    LineContains(s, m, c, e);
    if Contains(s[c..e], m) {
      var j: nat :| MarkedAt(s, m, j, e) && e - j <= limit;
      MarkedAfterStart(s, m, c, e, j);
      MarkedInLine(s, m, c, e, j);
      assert OccursAt(s[c..e], m, j - c) && |s[c..e]| - (j - c) <= limit;
    }
  }

  // ----- Counting line by line is counting newlines ------------------------------

  lemma {:induction false} SkipTo(s: seq<Byte>, m: seq<Byte>, from: nat, e: nat)
    requires from <= e <= |s| && forall k :: from <= k < e ==> s[k] != 10
    ensures MarkedLines(s, m, from) == MarkedLines(s, m, e)
    decreases e - from
  {
    if from < e {
      SkipTo(s, m, from + 1, e);
    }
  }

  lemma TailSplits(s: seq<Byte>, c: nat, e: nat)
    requires c <= e < |s|
    ensures s[c..][..e - c] == s[c..e]
    ensures s[c..][e - c + 1..] == s[e + 1..]
  {
  }

  lemma CountLine(s: seq<Byte>, m: seq<Byte>, c: nat, e: nat)
    requires c <= e < |s| && LineEnd(s[c..]) == e - c
    ensures CountMatching(s[c..], m) == (if Contains(s[c..e], m) then 1 else 0) + CountMatching(s[e + 1..], m)
  {
    TailSplits(s, c, e);
  }

  lemma MarkedLine(s: seq<Byte>, m: seq<Byte>, c: nat, e: nat)
    requires IsLine(s, c, e)
    ensures MarkedLines(s, m, c) == (if Contains(s[c..e], m) then 1 else 0) + MarkedLines(s, m, e + 1)
  {
    SkipTo(s, m, c, e);
    LineContains(s, m, c, e);
  }

  lemma {:induction false} CountIsMarkedLines(s: seq<Byte>, m: seq<Byte>, c: nat)
    requires LineStarts(s, c)
    ensures CountMatching(s[c..], m) == MarkedLines(s, m, c)
    decreases |s| - c
  {
    var e := LineFound(s, c);
    if e == -1 {
      SkipTo(s, m, c, |s|);
    } else {
      CountLine(s, m, c, e);
      MarkedLine(s, m, c, e);
      CountIsMarkedLines(s, m, e + 1);
    }
  }

  lemma {:induction false} NearIsWithin(s: seq<Byte>, m: seq<Byte>, c: nat, limit: nat)
    requires LineStarts(s, c) && MarkedNear(s, m, c, limit)
    ensures MatchesWithin(s[c..], m, limit)
    decreases |s| - c
  {
    var e := LineFound(s, c);
    if e != -1 {
      LineNear(s, m, c, e, limit);
      TailSplits(s, c, e);
      NearIsWithin(s, m, e + 1, limit);
    }
  }

  /** The capture stops exactly when enough lines with the marker are complete, and counts them before. */
  ghost predicate CountsMarked(chunks: seq<seq<Byte>>, m: seq<Byte>, minimum: nat) {
    var w, total := Watch(chunks, m, minimum), MarkedLines(Flatten(chunks), m, 0);
    (w.stopped <==> total >= minimum) && w.matches == if w.stopped then minimum else total
  }

  lemma CountsAgree(chunks: seq<seq<Byte>>, m: seq<Byte>, minimum: nat)
    ensures CountsRight(chunks, m, minimum) <==> CountsMarked(chunks, m, minimum)
  {
    var s := Flatten(chunks);
    assert s[0..] == s;
    CountIsMarkedLines(s, m, 0);
  }

  /** Whatever the chunks, if markers stand at most 2048 bytes before their newlines the count is right. */
  lemma CaptureCountsMarked(chunks: seq<seq<Byte>>, m: seq<Byte>, minimum: nat)
    requires 10 !in m && minimum >= 1 && MarkedNear(Flatten(chunks), m, 0, 2048)
    ensures CountsMarked(chunks, m, minimum)
  {
    var s := Flatten(chunks);
    assert s[0..] == s;
    NearIsWithin(s, m, 0, 2048);
    CaptureCounts(chunks, m, minimum);
    CountsAgree(chunks, m, minimum);
  }

  // ----- Streams that fit the window ---------------------------------------------

  /** As `Tracks`, for streams too short ever to be cut. */
  ghost predicate TracksShort(w: Watcher, rest: seq<Byte>, m: seq<Byte>, minimum: nat, total: nat) {
    if w.stopped then w.matches == minimum <= total
    else w.matches < minimum && w.matches + CountMatching(w.recent + rest, m) == total && |w.recent| + |rest| <= 4096
  }

  lemma DrainCuts(w: Watcher, m: seq<Byte>, minimum: nat) returns (next: Watcher)
    requires MatchedLineEnd(w.recent, m) >= 0
    ensures Drain(w, m, minimum) == if next.stopped then next else Drain(next, m, minimum)
    ensures next.recent == w.recent[MatchedLineEnd(w.recent, m) + 1..] && next.matches == w.matches + 1
    ensures next.stopped <==> next.matches >= minimum
  {
    next := Watcher(w.recent[MatchedLineEnd(w.recent, m) + 1..], w.matches + 1, w.matches + 1 >= minimum);
  }

  lemma CutTracksShort(w: Watcher, next: Watcher, rest: seq<Byte>, m: seq<Byte>, minimum: nat, total: nat)
    requires NEWLINE !in m && !w.stopped && TracksShort(w, rest, m, minimum, total)
    requires MatchedLineEnd(w.recent, m) >= 0 && next.recent == w.recent[MatchedLineEnd(w.recent, m) + 1..]
    requires next.matches == w.matches + 1 && (next.stopped <==> next.matches >= minimum)
    ensures TracksShort(next, rest, m, minimum, total)
  {
    OneToCut(w.recent, rest, m);
  }

  lemma {:induction false} DrainTracksShort(w: Watcher, rest: seq<Byte>, m: seq<Byte>, minimum: nat, total: nat)
    requires NEWLINE !in m && !w.stopped && TracksShort(w, rest, m, minimum, total)
    ensures TracksShort(Drain(w, m, minimum), rest, m, minimum, total)
    decreases |w.recent|
  {
    if MatchedLineEnd(w.recent, m) >= 0 {
      var next := DrainCuts(w, m, minimum);
      CutTracksShort(w, next, rest, m, minimum, total);
      if !next.stopped {
        DrainTracksShort(next, rest, m, minimum, total);
      }
    }
  }

  lemma FeedTracksShort(w: Watcher, chunk: seq<Byte>, rest: seq<Byte>, m: seq<Byte>, minimum: nat, total: nat)
    requires NEWLINE !in m && TracksShort(w, chunk + rest, m, minimum, total)
    ensures TracksShort(Feed(w, chunk, m, minimum), rest, m, minimum, total)
  {
    if chunk == [] {
      assert chunk + rest == rest;
    } else if !w.stopped {
      var fed := w.(recent := w.recent + chunk);
      assert w.recent + (chunk + rest) == fed.recent + rest;
      DrainTracksShort(fed, rest, m, minimum, total);
    }
  }

  lemma {:induction false} WatchTracksShort(
      chunks: seq<seq<Byte>>, rest: seq<Byte>, m: seq<Byte>, minimum: nat, total: nat)
    requires NEWLINE !in m && minimum >= 1 && |Flatten(chunks) + rest| <= 4096
    requires total == CountMatching(Flatten(chunks) + rest, m)
    ensures TracksShort(Watch(chunks, m, minimum), rest, m, minimum, total)
  {
    if chunks == [] {
      assert Flatten(chunks) + rest == rest;
    } else {
      var earlier, last := chunks[..|chunks| - 1], chunks[|chunks| - 1];
      assert Flatten(earlier) + (last + rest) == Flatten(chunks) + rest;
      WatchTracksShort(earlier, last + rest, m, minimum, total);
      FeedTracksShort(Watch(earlier, m, minimum), last, rest, m, minimum, total);
    }
  }

  /** Streams of at most 4096 bytes are counted right wherever their markers stand. */
  lemma ShortStreamCounts(chunks: seq<seq<Byte>>, m: seq<Byte>, minimum: nat)
    requires 10 !in m && minimum >= 1 && |Flatten(chunks)| <= 4096
    ensures CountsMarked(chunks, m, minimum)
  {
    assert Flatten(chunks) + [] == Flatten(chunks);
    var w := Watch(chunks, m, minimum);
    WatchTracksShort(chunks, [], m, minimum, CountMatching(Flatten(chunks), m));
    WindowQuiet(chunks, m, minimum);
    assert w.recent + [] == w.recent;
    CountsAgree(chunks, m, minimum);
  }
}
