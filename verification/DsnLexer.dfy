/** common/dsnlexer.cpp: the lexer itself, over a line reader, in KiCad mode. */
module DsnLexer {
  import opened Wrappers
  import opened DsnNumber
  import opened DsnTokens

  class Lexer {
    const keywords: Keywords
    var reader: seq<string>    // the lines the reader has not handed out yet
    var start: string          // the line buffer
    var next: nat
    var limit: nat
    var curTok: Kind
    var prevTok: Kind
    var curText: string
    var commentsAreTokens: bool

    /** The limit is inside the buffer, and short of it only behind a comment already read. No line of
        the reader is empty: an empty one means the end of the input. */
    ghost predicate Valid()
      reads this
    {
      && limit <= |start| && (limit < |start| ==> next >= limit)
      && "" !in reader
    }

    ghost function Place(): Cursor
      reads this
      requires Valid()
    {
      Cursor(start[..limit], next, reader)
    }

    constructor (keywords: Keywords, lines: seq<string>)
      requires "" !in lines
      ensures Valid() && Place() == Cursor("", 0, lines) && this.keywords == keywords
      ensures curTok == NoToken && prevTok == NoToken && !commentsAreTokens
    {
      this.keywords, reader := keywords, lines;
      start, next, limit := "", 0, 0;
      curTok, prevTok, curText, commentsAreTokens := NoToken, NoToken, "", false;
    }

    method InitParserState()
      requires Valid()
      modifies this`curTok, this`prevTok, this`commentsAreTokens
      ensures Valid() && Place() == old(Place())
      ensures curTok == NoToken && prevTok == NoToken && !commentsAreTokens
    {
      curTok, prevTok, commentsAreTokens := NoToken, NoToken, false;
    }

    method ReadLine() returns (len: nat)
      requires "" !in reader
      modifies this`reader, this`start, this`next, this`limit
      ensures Valid() && next == 0 && limit == |start| == len
      ensures if old(reader) == [] then len == 0 && reader == []
              else len > 0 && start == old(reader)[0] && reader == old(reader)[1..]
    {
      if reader == [] {
        start := "";
      } else {
        assert reader[0] in reader;
        start, reader := reader[0], reader[1..];
      }
      next, limit := 0, |start|;
      len := |start|;
    }

    method SkipBlanks(from: nat) returns (cur: nat)
      requires from <= limit == |start|
      ensures cur == SkipSpace(start, from)
    {
      cur := from;
      while cur < limit && IsSpace(start[cur])
        invariant from <= cur <= limit && SkipSpace(start, cur) == SkipSpace(start, from)
      {
        cur := cur + 1;
      }
    }

    /** The digits of an escape, at most n of them; the buffer is read up to its NUL and no further. */
    method CountDigits(head: nat, octal: bool, n: nat) returns (i: nat)
      requires head <= |start|
      ensures i == Run(start, head, octal, n)
    {
      i := 0;
      while i < n && (if octal then IsOctal(At(start, head + i)) else IsHex(At(start, head + i)))
        invariant i <= n && head + i <= |start|
        invariant i + Run(start, head + i, octal, n - i) == Run(start, head, octal, n)
      {
        i := i + 1;
      }
    }

    method ReadEscape(from: nat) returns (c: char, head: nat)
      requires from < |start|
      ensures (c, head) == Escape(start, from)
    {
      head := from + 1;
      match start[from] {
        case '"' => c := '"';
        case '\\' => c := '\\';
        case 'a' => c := 7 as char;
        case 'b' => c := 8 as char;
        case 'f' => c := 12 as char;
        case 'n' => c := '\n';
        case 'r' => c := '\r';
        case 't' => c := 9 as char;
        case 'v' => c := 11 as char;
        case 'x' =>
          var i := CountDigits(head, false, 2);
          c := if i > 0 then Narrow(NumberOf(start, head, i, 16)) else 'x';
          head := head + i;
        case _ =>
          head := head - 1;
          var i := CountDigits(head, true, 3);
          c := if i > 0 then Narrow(NumberOf(start, head, i, 8)) else '\\';
          head := head + i;
      }
    }

    /** The loop over a quoted string, from behind its opening quote. */
    method ReadQuoted(from: nat) returns (terminated: bool, head: nat)
      requires from <= limit == |start|
      modifies this`curText
      ensures terminated <==> QuotedFrom(start, from).Some?
      ensures terminated ==> QuotedFrom(start, from) == Some((curText, head))
      ensures !terminated ==> curText == OpenText(start, from)
    {
      curText := "";
      head := from;
      ReadStarts(start, from);
      hide ReadSoFar, QuotedFrom, OpenText, Escape;
      while head < limit
        invariant head <= limit == |start|
        invariant ReadSoFar(start, from, head, curText)
        decreases limit - head
      {
        if start[head] == '\\' {
          if head + 1 < limit {
            ReadEscaped(start, from, head, curText);
          } else {
            ReadOpen(start, from, head, curText);
          }
          head := head + 1;
          if head >= limit {
            return false, head;
          }
          var c;
          c, head := ReadEscape(head);
          curText := curText + [c];
        } else if start[head] == '"' {
          ReadClosed(start, from, head, curText);
          head := head + 1;
          return true, head;
        } else {
          ReadPlain(start, from, head, curText);
          curText := curText + [start[head]];
          head := head + 1;
        }
      }
      ReadOpen(start, from, head, curText);
      return false, head;
    }

    method ReadWord(from: nat) returns (head: nat)
      requires from <= limit == |start|
      modifies this`curText
      ensures head == WordEnd(start, from) && curText == start[from..head]
    {
      curText := "";
      head := from;
      while head < limit && !IsSep(start[head])
        invariant from <= head <= limit && WordEnd(start, head) == WordEnd(start, from)
        invariant curText == start[from..head]
      {
        curText := curText + [start[head]];
        head := head + 1;
      }
    }

    method FindToken(tok: string) returns (k: Kind)
      ensures k == if tok in keywords then Keyword(keywords[tok]) else Symbol
    {
      k := if tok in keywords then Keyword(keywords[tok]) else Symbol;
    }

    /** NextTok, up to the first character of a token: `found` when there is one, at cur. */
    method Advance() returns (found: bool, cur: nat)
      requires Valid() && curTok != Eof
      modifies this`reader, this`start, this`next, this`limit, this`curTok, this`curText
      ensures Valid() && (found ==> curTok == old(curTok))
      ensures found ==> cur < limit == |start|
                        && TokenAt(keywords, start, cur, reader, next) ==
                           NextToken(keywords, old(Place()), commentsAreTokens)
      ensures !found ==>
                match NextToken(keywords, old(Place()), commentsAreTokens)
                case AtEnd => curTok == Eof && reader == []
                case Lexed(token, after) =>
                  curTok == token.kind == Comment && curText == token.text && Place() == after
                case Unterminated(_, _) => false
    {
      hide TokenAt, Trimmed;
      var head := next;
      cur := next;
      ghost var place := Place();
      if cur < limit {
        assert start[..limit] == start;
        cur := SkipBlanks(cur);
      }
      ghost var outcome := NextToken(keywords, place, commentsAreTokens);
      NoLines(keywords, commentsAreTokens);
      hide FromLines, NextToken;
      while cur >= limit
        invariant Valid() && curTok == old(curTok)
        invariant cur < limit ==> limit == |start| && outcome == TokenAt(keywords, start, cur, reader, next)
        invariant cur >= limit ==> outcome == FromLines(keywords, reader, commentsAreTokens)
        decreases |reader| + (if cur < limit then 0 else 1)
      {
        ghost var before := reader;
        var len := ReadLine();
        assert before != [] ==> before == [start] + reader;
        if len == 0 {
          curTok := Eof;
          next := head;
          return false, 0;
        }
        cur := SkipBlanks(0);
        FromLinesStep(keywords, [start] + reader, commentsAreTokens);
        if cur < limit && start[cur] == '#' {
          if commentsAreTokens {
            TakeComment();
            return false, 0;
          }
          cur := limit;
        }
      }
      found := true;
    }

    /** The whole line, without its end-of-line characters, is the token. */
    method TakeComment()
      requires Valid() && IsCommentLine(start)
      modifies this`limit, this`next, this`curTok, this`curText
      ensures Valid() && curTok == Comment && curText == Trimmed(start)
      ensures Place() == Cursor(Trimmed(start), |Trimmed(start)|, reader)
    {
      limit := TrimEnd();
      curText := start[..limit];
      curTok := Comment;
      next := limit;
    }

    /** The end of the line without its end-of-line characters. */
    method TrimEnd() returns (end: nat)
      requires IsCommentLine(start)
      ensures end <= |start| && start[..end] == Trimmed(start)
    {
      end := |start|;
      assert start[..end] == start;
      while start[end - 1] == '\n' || start[end - 1] == '\r'
        invariant SkipSpace(start, 0) < end <= |start| && Trimmed(start[..end]) == Trimmed(start)
        decreases end
      {
        assert start[..end][..end - 1] == start[..end - 1];
        end := end - 1;
      }
    }

    /** NextTok, from the first character of a token on. */
    method ReadToken(cur: nat) returns (thrown: bool)
      requires Valid() && cur < limit == |start|
      modifies this`next, this`curTok, this`curText
      ensures match TokenAt(keywords, start, cur, reader, old(next))
              case AtEnd => false
              case Lexed(token, after) =>
                !thrown && curTok == token.kind && curText == token.text && Cursor(start, next, reader) == after
              case Unterminated(at, text) =>
                thrown && curTok == old(curTok) && curText == text && Cursor(start, next, reader) == at
    {
      hide QuotedFrom, OpenText, WordEnd;
      if start[cur] == '(' {
        curText, curTok, next := "(", Left, cur + 1;
        return false;
      }
      if start[cur] == ')' {
        curText, curTok, next := ")", Right, cur + 1;
        return false;
      }
      if start[cur] == '"' {
        var terminated, head := ReadQuoted(cur + 1);
        if !terminated {
          return true;
        }
        curTok, next := String, head;
        return false;
      }
      var head := ReadWord(cur);
      var isNumber := IsNumber(curText);
      if isNumber {
        curTok := Number;
      } else {
        curTok := FindToken(curText);
      }
      next := head;
      return false;
    }

    /** NextTok: the next token as the reference says, the end for good once reached, and on an
        unterminated string an exception that leaves the last token in place. */
    method NextTok() returns (thrown: bool)
      requires Valid()
      modifies this`reader, this`start, this`next, this`limit, this`curTok, this`prevTok, this`curText
      ensures Valid() && prevTok == old(curTok)
      ensures old(curTok) == Eof ==> !thrown && curTok == Eof && Place() == old(Place())
      ensures old(curTok) != Eof ==>
                match NextToken(keywords, old(Place()), commentsAreTokens)
                case AtEnd => !thrown && curTok == Eof && reader == []
                case Lexed(token, after) =>
                  !thrown && curTok == token.kind && curText == token.text && Place() == after && next <= limit
                case Unterminated(at, text) => thrown && curTok == old(curTok) && curText == text && Place() == at
      ensures old(curTok) != Eof && !thrown && curTok !in {Eof, Comment, String, Left, Right} ==>
                && (curTok == Number <==> IsNumeral(curText))
                && (!IsNumeral(curText) ==>
                      curTok == if curText in keywords then Keyword(keywords[curText]) else Symbol)
      ensures old(curTok) != Eof && !thrown ==>
                (curTok == Left ==> curText == "(") && (curTok == Right ==> curText == ")")
    {
      prevTok := curTok;
      if curTok == Eof {
        return false;
      }
      Progress(keywords, Place(), commentsAreTokens);
      KindMeans(keywords, Place(), commentsAreTokens);
      hide NextToken, TokenAt, Unread;
      var found, cur := Advance();
      if !found {
        return false;
      }
      assert start[..limit] == start;
      thrown := ReadToken(cur);
    }
  }

  /** What the kind of a token says of its text: a number exactly when the text is a numeral, otherwise
      the keyword it is, if it is one. */
  lemma KindMeans(keywords: Keywords, c: Cursor, comments: bool)
    ensures var r := NextToken(keywords, c, comments);
            r.Lexed? ==>
              var kind, text := r.token.kind, r.token.text;
              && (kind !in {Comment, String, Left, Right} ==>
                    && (kind == Number <==> IsNumeral(text))
                    && (!IsNumeral(text) ==> kind == if text in keywords then Keyword(keywords[text]) else Symbol))
              && (kind == Left ==> text == "(") && (kind == Right ==> text == ")")
  {
    KindMeansLines(keywords, c.lines, comments);
    hide IsNumeral;
  }

  lemma {:induction false} KindMeansLines(keywords: Keywords, lines: seq<string>, comments: bool)
    ensures var r := FromLines(keywords, lines, comments);
            r.Lexed? ==>
              var kind, text := r.token.kind, r.token.text;
              && (kind !in {Comment, String, Left, Right} ==>
                    && (kind == Number <==> IsNumeral(text))
                    && (!IsNumeral(text) ==> kind == if text in keywords then Keyword(keywords[text]) else Symbol))
              && (kind == Left ==> text == "(") && (kind == Right ==> text == ")")
    decreases |lines|
  {
    hide IsNumeral;
    if lines != [] { KindMeansLines(keywords, lines[1..], comments); }
  }

  lemma NoLines(keywords: Keywords, comments: bool)
    ensures FromLines(keywords, [], comments) == AtEnd
  {}

  /** Reading on, one line at a time. */
  lemma FromLinesStep(keywords: Keywords, lines: seq<string>, comments: bool)
    requires lines != []
    ensures var line, rest := lines[0], lines[1..]; var i := SkipSpace(line, 0);
            FromLines(keywords, lines, comments) ==
            if i < |line| && line[i] != '#' then TokenAt(keywords, line, i, rest, 0)
            else if i < |line| && comments then
              Lexed(Token(Comment, Trimmed(line)), Cursor(Trimmed(line), |Trimmed(line)|, rest))
            else FromLines(keywords, rest, comments)
  {}

  ghost function Prepended(text: string, q: Option<(string, nat)>): Option<(string, nat)> {
    match q
    case None => None
    case Some((rest, end)) => Some((text + rest, end))
  }

  /** The text read of a quoted string on the way from its start to a place in it. */
  ghost predicate ReadSoFar(line: string, from: nat, head: nat, text: string)
    requires from <= |line| && head <= |line|
  {
    && Prepended(text, QuotedFrom(line, head)) == QuotedFrom(line, from)
    && text + OpenText(line, head) == OpenText(line, from)
  }

  lemma ReadStarts(line: string, from: nat)
    requires from <= |line|
    ensures ReadSoFar(line, from, from, "")
  {
    var q := QuotedFrom(line, from);
    if q.Some? { assert "" + q.value.0 == q.value.0; }
  }

  lemma Regroup(a: string, b: string, c: string)
    ensures a + (b + c) == a + b + c
  {}

  lemma ReadOne(line: string, from: nat, head: nat, text: string, c: char, next: nat)
    requires from <= |line| && head <= |line| && next <= |line| && ReadSoFar(line, from, head, text)
    requires QuotedFrom(line, head) == Prepended([c], QuotedFrom(line, next))
    requires OpenText(line, head) == [c] + OpenText(line, next)
    ensures ReadSoFar(line, from, next, text + [c])
  {
    hide QuotedFrom, OpenText;
    Regroup(text, [c], OpenText(line, next));
    if QuotedFrom(line, next).Some? { Regroup(text, [c], QuotedFrom(line, next).value.0); }
  }

  lemma ReadPlain(line: string, from: nat, head: nat, text: string)
    requires from <= |line| && head < |line| && ReadSoFar(line, from, head, text)
    requires line[head] != '\\' && line[head] != '"'
    ensures ReadSoFar(line, from, head + 1, text + [line[head]])
  {
    ReadOne(line, from, head, text, line[head], head + 1);
  }

  lemma ReadEscaped(line: string, from: nat, head: nat, text: string)
    requires from <= |line| && head + 1 < |line| && line[head] == '\\' && ReadSoFar(line, from, head, text)
    ensures var (c, next) := Escape(line, head + 1); ReadSoFar(line, from, next, text + [c])
  {
    var (c, next) := Escape(line, head + 1);
    hide Escape;
    ReadOne(line, from, head, text, c, next);
  }

  lemma ReadClosed(line: string, from: nat, head: nat, text: string)
    requires from <= |line| && head < |line| && line[head] == '"' && ReadSoFar(line, from, head, text)
    ensures QuotedFrom(line, from) == Some((text, head + 1))
  {
    assert text + "" == text;
  }

  lemma ReadOpen(line: string, from: nat, head: nat, text: string)
    requires from <= |line| && head <= |line| && ReadSoFar(line, from, head, text)
    requires head == |line| || (head + 1 == |line| && line[head] == '\\')
    ensures QuotedFrom(line, from).None? && OpenText(line, from) == text
  {
    assert text + "" == text;
    assert QuotedFrom(line, |line|).None?;
  }

  /** Calling NextTok until the end, or until it throws, yields the stream of tokens. */
  method Drain(lexer: Lexer) returns (tokens: seq<Token>, ok: bool)
    requires lexer.Valid() && lexer.curTok != Eof
    modifies lexer
    ensures lexer.Valid() && (tokens, ok) == Stream(lexer.keywords, old(lexer.Place()), old(lexer.commentsAreTokens))
    ensures ok ==> lexer.curTok == Eof
  {
    tokens := [];
    ghost var comments := lexer.commentsAreTokens;
    ghost var whole := Stream(lexer.keywords, lexer.Place(), comments);
    assert tokens + whole.0 == whole.0;
    while true
      invariant lexer.Valid() && lexer.curTok != Eof && lexer.commentsAreTokens == comments
      invariant var (rest, ok) := Stream(lexer.keywords, lexer.Place(), comments); whole == (tokens + rest, ok)
      decreases Unread(lexer.Place())
    {
      ghost var place := lexer.Place();
      Progress(lexer.keywords, place, comments);
      NeverEof(lexer.keywords, place, comments);
      UnfoldStream(lexer.keywords, place, comments, tokens);
      hide NextToken, Stream, Unread, Lexer.Valid;
      var thrown := lexer.NextTok();
      if thrown {
        return tokens, false;
      }
      if lexer.curTok == Eof {
        return tokens, true;
      }
      tokens := tokens + [Token(lexer.curTok, lexer.curText)];
    }
  }

  /** What the tokens read so far and one more call make of the stream. */
  lemma UnfoldStream(keywords: Keywords, c: Cursor, comments: bool, before: seq<Token>)
    ensures var (tokens, ok) := Stream(keywords, c, comments);
            match NextToken(keywords, c, comments)
            case AtEnd => (before + tokens, ok) == (before, true)
            case Unterminated(_, _) => (before + tokens, ok) == (before, false)
            case Lexed(token, after) =>
              var (rest, ok') := Stream(keywords, after, comments);
              (before + tokens, ok) == (before + [token] + rest, ok')
  {
    hide NextToken;
    assert before + [] == before;
    match NextToken(keywords, c, comments)
    case Lexed(token, after) =>
      var rest := Stream(keywords, after, comments).0;
      assert before + ([token] + rest) == before + [token] + rest;
    case _ =>
  }

  /** A token is never of the kind that marks the end. */
  lemma NeverEof(keywords: Keywords, c: Cursor, comments: bool)
    ensures var r := NextToken(keywords, c, comments); r.Lexed? ==> r.token.kind != Eof
  {
    NeverEofLines(keywords, c.lines, comments);
  }

  lemma {:induction false} NeverEofLines(keywords: Keywords, lines: seq<string>, comments: bool)
    ensures var r := FromLines(keywords, lines, comments); r.Lexed? ==> r.token.kind != Eof
    decreases |lines|
  {
    if lines != [] { NeverEofLines(keywords, lines[1..], comments); }
  }
}
