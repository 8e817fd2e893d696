/** What holds of whole token streams of the lexer in common/dsnlexer.cpp. */
module DsnStreams {
  import opened DsnTokens

  /** The tokens other than comments. */
  function WithoutComments(tokens: seq<Token>): seq<Token> {
    if tokens == [] then []
    else (if tokens[0].kind.Comment? then [] else [tokens[0]]) + WithoutComments(tokens[1..])
  }

  ghost predicate IsComment(r: Outcome) {
    r.Lexed? && r.token.kind.Comment?
  }

  /** With comments as tokens, reading on either gives the same as without, or a comment behind which
      the other goes on. */
  lemma {:induction false} LinesWithComments(keywords: Keywords, lines: seq<string>)
    ensures var with, without := FromLines(keywords, lines, true), FromLines(keywords, lines, false);
            if IsComment(with) then NextToken(keywords, with.after, false) == without else with == without
    decreases |lines|
  {
    if lines != [] && !IsCommentLine(lines[0]) && SkipSpace(lines[0], 0) == |lines[0]| {
      LinesWithComments(keywords, lines[1..]);
    }
  }

  lemma NextWithComments(keywords: Keywords, c: Cursor)
    ensures var with, without := NextToken(keywords, c, true), NextToken(keywords, c, false);
            if IsComment(with) then NextToken(keywords, with.after, false) == without else with == without
  {
    LinesWithComments(keywords, c.lines);
  }

  lemma SameNextSameStream(keywords: Keywords, c: Cursor, d: Cursor, comments: bool)
    requires NextToken(keywords, c, comments) == NextToken(keywords, d, comments)
    ensures Stream(keywords, c, comments) == Stream(keywords, d, comments)
  {}

  lemma UnfoldStream(keywords: Keywords, c: Cursor, comments: bool, token: Token, after: Cursor)
    requires NextToken(keywords, c, comments) == Lexed(token, after)
    ensures var (tokens, ok) := Stream(keywords, after, comments);
            Stream(keywords, c, comments) == ([token] + tokens, ok)
  {}

  /** Dropping the comment tokens from a stream gives the stream without comments. */
  lemma {:induction false} CommentsOnlyAdd(keywords: Keywords, c: Cursor)
    ensures var (with, ok) := Stream(keywords, c, true);
            Stream(keywords, c, false) == (WithoutComments(with), ok)
    decreases Unread(c)
  {
    Progress(keywords, c, true);
    NextWithComments(keywords, c);
    hide NextToken;
    var r := NextToken(keywords, c, true);
    if r.Lexed? {
      CommentsOnlyAdd(keywords, r.after);
      var (rest, ok) := Stream(keywords, r.after, true);
      UnfoldStream(keywords, c, true, r.token, r.after);
      assert ([r.token] + rest)[1..] == rest;
      if IsComment(r) {
        SameNextSameStream(keywords, c, r.after, false);
        assert [] + WithoutComments(rest) == WithoutComments(rest);
      } else {
        UnfoldStream(keywords, c, false, r.token, r.after);
      }
    }
  }

  /** More lines behind the ones a cursor has. */
  function Behind(c: Cursor, more: seq<string>): Cursor {
    c.(lines := c.lines + more)
  }

  ghost function OutcomeBehind(keywords: Keywords, r: Outcome, more: seq<string>, comments: bool): Outcome {
    match r
    case AtEnd => FromLines(keywords, more, comments)
    case Lexed(token, after) => Lexed(token, Behind(after, more))
    case Unterminated(at, text) => Unterminated(Behind(at, more), text)
  }

  lemma {:induction false} LinesBehind(keywords: Keywords, lines: seq<string>, more: seq<string>, comments: bool)
    ensures FromLines(keywords, lines + more, comments) ==
            OutcomeBehind(keywords, FromLines(keywords, lines, comments), more, comments)
    decreases |lines|
  {
    if lines == [] {
      assert lines + more == more;
    } else {
      assert (lines + more)[0] == lines[0] && (lines + more)[1..] == lines[1..] + more;
      LinesBehind(keywords, lines[1..], more, comments);
    }
  }

  lemma NextBehind(keywords: Keywords, c: Cursor, more: seq<string>, comments: bool)
    ensures NextToken(keywords, Behind(c, more), comments) ==
            OutcomeBehind(keywords, NextToken(keywords, c, comments), more, comments)
  {
    LinesBehind(keywords, c.lines, more, comments);
  }

  lemma NextOfLines(keywords: Keywords, lines: seq<string>, comments: bool)
    ensures NextToken(keywords, Cursor("", 0, lines), comments) == FromLines(keywords, lines, comments)
  {}

  /** Lines can be fed in parts: the stream of all is the stream of the first part followed by that of
      the second, unless a string is left unterminated in the first. */
  lemma {:induction false} StreamBehind(keywords: Keywords, c: Cursor, more: seq<string>, comments: bool)
    ensures var (first, ok) := Stream(keywords, c, comments);
            var (second, ok') := StreamOfLines(keywords, more, comments);
            Stream(keywords, Behind(c, more), comments) == if ok then (first + second, ok') else (first, false)
    decreases Unread(c)
  {
    Progress(keywords, c, comments);
    NextBehind(keywords, c, more, comments);
    NextOfLines(keywords, more, comments);
    hide NextToken;
    var r := NextToken(keywords, c, comments);
    match r {
      case AtEnd =>
        SameNextSameStream(keywords, Behind(c, more), Cursor("", 0, more), comments);
        var second := StreamOfLines(keywords, more, comments).0;
        assert [] + second == second;
      case Unterminated(_, _) =>
      case Lexed(token, after) =>
        StreamBehind(keywords, after, more, comments);
        var first := Stream(keywords, after, comments).0;
        var second := StreamOfLines(keywords, more, comments).0;
        assert [token] + (first + second) == ([token] + first) + second;
    }
  }

  lemma StreamsConcatenate(keywords: Keywords, a: seq<string>, b: seq<string>, comments: bool)
    ensures var (first, ok) := StreamOfLines(keywords, a, comments);
            var (second, ok') := StreamOfLines(keywords, b, comments);
            StreamOfLines(keywords, a + b, comments) == if ok then (first + second, ok') else (first, false)
  {
    StreamBehind(keywords, Cursor("", 0, a), b, comments);
  }
}
