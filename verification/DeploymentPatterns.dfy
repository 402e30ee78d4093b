/**
 The lexical rules of a deployment file against the regular expressions and string tests they
 stand for.
 */
module DeploymentPatterns {
  import opened Common
  import opened Deployment

  // ----- Regular expressions -----------------------------------------------------

  /** A range of characters inside a bracket expression. */
  datatype Range = Range(low: char, high: char)

  datatype Pattern =
    | OneOf(ranges: seq<Range>)
    | Many(ranges: seq<Range>) // any number of them
    | Text(text: string)
    | Then(first: Pattern, second: Pattern)

  predicate InRanges(c: char, ranges: seq<Range>) {
    exists i :: 0 <= i < |ranges| && ranges[i].low <= c <= ranges[i].high
  }

  /** The pattern matches the whole string. */
  predicate Matches(p: Pattern, s: string) {
    match p
    case OneOf(ranges) => |s| == 1 && InRanges(s[0], ranges)
    case Many(ranges) => forall i :: 0 <= i < |s| ==> InRanges(s[i], ranges)
    case Text(text) => s == text
    case Then(first, second) => exists k :: 0 <= k <= |s| && Matches(first, s[..k]) && Matches(second, s[k..])
  }

  const LOWER := Range('a', 'z')
  const UPPER := Range('A', 'Z')
  const DIGIT := Range('0', '9')
  const UNDERSCORE := Range('_', '_')

  const IDENTIFIER := Then(OneOf([UPPER, LOWER, UNDERSCORE]), Many([UPPER, LOWER, DIGIT, UNDERSCORE]))
  const LOWER_IDENTIFIER := Then(OneOf([LOWER]), Many([LOWER, DIGIT, UNDERSCORE]))
  const TYPE_NAME := Then(OneOf([UPPER, LOWER]), Many([UPPER, LOWER, DIGIT, UNDERSCORE]))
  const MESSAGE_TYPE := Then(TYPE_NAME, Then(Text("/msg/"), TYPE_NAME))

  // ----- Identifiers -------------------------------------------------------------

  lemma OneRange(c: char, a: Range)
    ensures InRanges(c, [a]) <==> a.low <= c <= a.high
  {
    assert [a][0] == a;
  }

  lemma MoreRanges(c: char, a: Range, rest: seq<Range>)
    ensures InRanges(c, [a] + rest) <==> a.low <= c <= a.high || InRanges(c, rest)
  {
    var all := [a] + rest;
    assert all[0] == a;
    assert forall i :: 0 <= i < |rest| ==> rest[i] == all[i + 1];
    if InRanges(c, rest) {
      var i :| 0 <= i < |rest| && rest[i].low <= c <= rest[i].high;
      assert all[i + 1].low <= c <= all[i + 1].high;
    }
  }

  lemma ClassesExactly(c: char)
    ensures InRanges(c, [LOWER]) <==> IsLower(c)
    ensures InRanges(c, [LOWER, DIGIT, UNDERSCORE]) <==> IsLower(c) || '0' <= c <= '9' || c == '_'
    ensures InRanges(c, [UPPER, LOWER]) <==> IsLetter(c)
    ensures InRanges(c, [UPPER, LOWER, UNDERSCORE]) <==> IsLetter(c) || c == '_'
    ensures InRanges(c, [UPPER, LOWER, DIGIT, UNDERSCORE]) <==> IsWord(c)
  {
    OneRange(c, LOWER);
    OneRange(c, UNDERSCORE);
    MoreRanges(c, DIGIT, [UNDERSCORE]);
    MoreRanges(c, LOWER, [DIGIT, UNDERSCORE]);
    MoreRanges(c, UPPER, [LOWER, DIGIT, UNDERSCORE]);
    MoreRanges(c, UPPER, [LOWER]);
    MoreRanges(c, LOWER, [UNDERSCORE]);
    MoreRanges(c, UPPER, [LOWER, UNDERSCORE]);
    assert [DIGIT] + [UNDERSCORE] == [DIGIT, UNDERSCORE];
    assert [LOWER] + [DIGIT, UNDERSCORE] == [LOWER, DIGIT, UNDERSCORE];
    assert [UPPER] + [LOWER, DIGIT, UNDERSCORE] == [UPPER, LOWER, DIGIT, UNDERSCORE];
    assert [UPPER] + [LOWER] == [UPPER, LOWER];
    assert [LOWER] + [UNDERSCORE] == [LOWER, UNDERSCORE];
    assert [UPPER] + [LOWER, UNDERSCORE] == [UPPER, LOWER, UNDERSCORE];
  }

  /** One character of a kind and then any number of another. */
  lemma StartThenMany(first: seq<Range>, rest: seq<Range>, s: string)
    ensures Matches(Then(OneOf(first), Many(rest)), s) <==>
      s != "" && InRanges(s[0], first) && forall i :: 1 <= i < |s| ==> InRanges(s[i], rest)
  {
    if Matches(Then(OneOf(first), Many(rest)), s) {
      var k :| 0 <= k <= |s| && Matches(OneOf(first), s[..k]) && Matches(Many(rest), s[k..]);
      forall i | 1 <= i < |s|
        ensures InRanges(s[i], rest)
      {
        assert s[k..][i - k] == s[i];
      }
    }
    if s != "" && InRanges(s[0], first) && forall i :: 1 <= i < |s| ==> InRanges(s[i], rest) {
      assert Matches(OneOf(first), s[..1]) && Matches(Many(rest), s[1..]);
    }
  }

  lemma LowerIdentifierExactly(s: string)
    ensures IsLowerIdentifier(s) <==> Matches(LOWER_IDENTIFIER, s)
  {
    StartThenMany([LOWER], [LOWER, DIGIT, UNDERSCORE], s);
    forall i | 0 <= i < |s|
      ensures InRanges(s[i], [LOWER]) <==> IsLower(s[i])
      ensures InRanges(s[i], [LOWER, DIGIT, UNDERSCORE]) <==> IsLower(s[i]) || '0' <= s[i] <= '9' || s[i] == '_'
    {
      ClassesExactly(s[i]);
    }
  }

  lemma IdentifierExactly(s: string)
    ensures IsIdentifier(s) <==> Matches(IDENTIFIER, s)
  {
    StartThenMany([UPPER, LOWER, UNDERSCORE], [UPPER, LOWER, DIGIT, UNDERSCORE], s);
    forall i | 0 <= i < |s|
      ensures InRanges(s[i], [UPPER, LOWER, UNDERSCORE]) <==> IsLetter(s[i]) || s[i] == '_'
      ensures InRanges(s[i], [UPPER, LOWER, DIGIT, UNDERSCORE]) <==> IsWord(s[i])
    {
      ClassesExactly(s[i]);
    }
  }

  lemma TypeNameExactly(s: string)
    ensures IsTypeName(s) <==> Matches(TYPE_NAME, s)
  {
    StartThenMany([UPPER, LOWER], [UPPER, LOWER, DIGIT, UNDERSCORE], s);
    forall i | 0 <= i < |s|
      ensures InRanges(s[i], [UPPER, LOWER]) <==> IsLetter(s[i])
      ensures InRanges(s[i], [UPPER, LOWER, DIGIT, UNDERSCORE]) <==> IsWord(s[i])
    {
      ClassesExactly(s[i]);
    }
  }

  // ----- Message types -----------------------------------------------------------

  /** Two names around the text, split at `i`. */
  predicate SplitsAt(s: string, i: int) {
    0 <= i <= |s| - 5 && s[i..i + 5] == "/msg/" && IsTypeName(s[..i]) && IsTypeName(s[i + 5..])
  }

  lemma TextThen(text: string, p: Pattern, s: string)
    ensures Matches(Then(Text(text), p), s) <==> |text| <= |s| && s[..|text|] == text && Matches(p, s[|text|..])
  {
  }

  lemma SplitMatches(s: string, i: int)
    requires 0 <= i <= |s|
    ensures Matches(TYPE_NAME, s[..i]) && Matches(Then(Text("/msg/"), TYPE_NAME), s[i..]) <==> SplitsAt(s, i)
  {
    TypeNameExactly(s[..i]);
    TextThen("/msg/", TYPE_NAME, s[i..]);
    if i + 5 <= |s| {
      assert s[i..][..5] == s[i..i + 5] && s[i..][5..] == s[i + 5..];
      TypeNameExactly(s[i + 5..]);
    }
  }

  lemma MessageTypeSplits(s: string)
    ensures IsMessageType(s) <==> exists i :: SplitsAt(s, i)
  {
    assert |MSG| == 5;
    if IsMessageType(s) {
      var i :| 0 <= i <= |s| - |MSG| && s[i..i + |MSG|] == MSG && IsTypeName(s[..i]) && IsTypeName(s[i + |MSG|..]);
      assert SplitsAt(s, i);
    }
  }

  lemma MatchSplits(s: string)
    ensures Matches(MESSAGE_TYPE, s) <==> exists i :: SplitsAt(s, i)
  {
    if Matches(MESSAGE_TYPE, s) {
      var i :| 0 <= i <= |s| && Matches(TYPE_NAME, s[..i]) && Matches(Then(Text("/msg/"), TYPE_NAME), s[i..]);
      SplitMatches(s, i);
    }
    forall i | SplitsAt(s, i)
      ensures Matches(MESSAGE_TYPE, s)
    {
      SplitMatches(s, i);
    }
  }

  lemma MessageTypeExactly(s: string)
    ensures IsMessageType(s) <==> Matches(MESSAGE_TYPE, s)
  {
    MessageTypeSplits(s);
    MatchSplits(s);
  }

  // ----- Topics ------------------------------------------------------------------

  /** A topic is not empty, does not end in a slash, and holds no two slashes in a row. */
  lemma TopicExactly(s: string)
    ensures IsTopic(s) <==>
      s != "" && (forall a: string :: s != a + "/") && (forall a: string, b: string :: s != a + "//" + b)
  {
    if IsTopic(s) {
      forall a: string, b: string
        ensures s != a + "//" + b
      {
        var t := a + "//" + b;
        assert t[|a|] == '/' && t[|a| + 1] == '/';
      }
    } else if s != "" {
      if s[|s| - 1] == '/' {
        assert s == s[..|s| - 1] + "/";
      } else {
        var i :| 0 <= i < |s| - 1 && s[i] == '/' && s[i + 1] == '/';
        assert s == s[..i] + "//" + s[i + 2..];
      }
    }
  }
}
