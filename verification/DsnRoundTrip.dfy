/** Printing tokens and lexing them again: OUTPUTFORMATTER::Quotes of common/richio.cpp against the
    lexer of common/dsnlexer.cpp. */
module DsnRoundTrip {
  import opened Wrappers
  import opened DsnNumber
  import opened DsnTokens
  import DsnLexer
  import DsnStreams

  // ----- quoting -----

  function QuoteChar(c: char): string {
    if c == '\n' then "\\n"
    else if c == '\r' then "\\r"
    else if c == '\\' then "\\\\"
    else if c == '"' then "\\\""
    else [c]
  }

  function QuoteBody(s: string): string {
    if s == "" then "" else QuoteChar(s[0]) + QuoteBody(s[1..])
  }

  /** OUTPUTFORMATTER::Quotes. */
  method Quotes(wrapee: string) returns (ret: string)
    ensures ret == Quoted(wrapee)
  {
    ret := "\"";
    hide QuoteBody;
    assert QuoteBody("") == "" by { QuoteNothing(); }
    for i := 0 to |wrapee|
      invariant ret == "\"" + QuoteBody(wrapee[..i])
    {
      ghost var before := QuoteBody(wrapee[..i]);
      QuoteBodyAppend(wrapee[..i], wrapee[i]);
      assert wrapee[..i + 1] == wrapee[..i] + [wrapee[i]];
      match wrapee[i] {
        case '\n' => ret := ret + "\\"; ret := ret + "n";
        case '\r' => ret := ret + "\\"; ret := ret + "r";
        case '\\' => ret := ret + "\\"; ret := ret + "\\";
        case '"' => ret := ret + "\\"; ret := ret + "\"";
        case _ => ret := ret + [wrapee[i]];
      }
      assert ret == "\"" + (before + QuoteChar(wrapee[i]));
    }
    assert wrapee[..|wrapee|] == wrapee;
    ret := ret + "\"";
    assert ret == "\"" + (QuoteBody(wrapee) + "\"");
  }

  lemma QuoteNothing()
    ensures QuoteBody("") == ""
  {}

  function Quoted(s: string): string {
    "\"" + (QuoteBody(s) + "\"")
  }

  lemma {:induction false} QuoteBodyAppend(s: string, c: char)
    ensures QuoteBody(s + [c]) == QuoteBody(s) + QuoteChar(c)
  {
    if s == "" {
      assert (s + [c])[1..] == "";
    } else {
      assert (s + [c])[1..] == s[1..] + [c];
      QuoteBodyAppend(s[1..], c);
    }
  }

  lemma QuotedStep(line: string, h: nat, c: char)
    requires h <= |line| && QuoteChar(c) <= line[h..]
    ensures QuotedFrom(line, h) ==
            match QuotedFrom(line, h + |QuoteChar(c)|)
            case None => None
            case Some((text, end)) => Some(([c] + text, end))
  {}

  lemma PrefixSplits(line: string, h: nat, a: string, b: string)
    requires h <= |line| && a + b <= line[h..]
    ensures a <= line[h..] && h + |a| <= |line| && b <= line[h + |a|..]
  {}

  lemma QuoteBodyFirst(s: string)
    requires s != ""
    ensures QuoteBody(s) == QuoteChar(s[0]) + QuoteBody(s[1..])
    ensures QuoteBody(s) + "\"" == QuoteChar(s[0]) + (QuoteBody(s[1..]) + "\"")
  {}

  lemma QuoteEnds(line: string, h: nat)
    requires h <= |line| && "\"" <= line[h..]
    ensures QuotedFrom(line, h) == Some(("", h + 1))
  {}

  /** The lexer reads a quoted string back, wherever on a line it stands and whatever follows. */
  lemma {:induction false} QuotedReads(line: string, h: nat, s: string)
    requires h <= |line| && QuoteBody(s) + "\"" <= line[h..]
    ensures QuotedFrom(line, h) == Some((s, h + |QuoteBody(s)| + 1))
    decreases |s|
  {
    hide QuotedFrom, QuoteChar, QuoteBody;
    if s == "" {
      QuoteNothing();
      assert QuoteBody(s) + "\"" == "\"";
      QuoteEnds(line, h);
    } else {
      var q := QuoteChar(s[0]);
      QuoteBodyFirst(s);
      PrefixSplits(line, h, q, QuoteBody(s[1..]) + "\"");
      QuotedReads(line, h + |q|, s[1..]);
      QuotedStep(line, h, s[0]);
      assert [s[0]] + s[1..] == s;
    }
  }

  function Concat(texts: seq<string>): string {
    if texts == [] then "" else texts[0] + Concat(texts[1..])
  }

  /** A quoted string, character by character. */
  lemma {:induction false} QuotedMeans(s: string, texts: seq<string>)
    requires |texts| == |s|
    requires forall i :: 0 <= i < |s| ==>
               texts[i] == if s[i] == '\n' then "\\n" else if s[i] == '\r' then "\\r"
                           else if s[i] == '"' then "\\\"" else if s[i] == '\\' then "\\\\" else [s[i]]
    ensures Quoted(s) == "\"" + (Concat(texts) + "\"")
    decreases |s|
  {
    if s != "" { QuotedMeans(s[1..], texts[1..]); }
    BodyIsConcat(s, texts);
  }

  lemma {:induction false} BodyIsConcat(s: string, texts: seq<string>)
    requires |texts| == |s| && forall i :: 0 <= i < |s| ==> texts[i] == QuoteChar(s[i])
    ensures QuoteBody(s) == Concat(texts)
    decreases |s|
  {
    hide QuoteChar;
    if s != "" { BodyIsConcat(s[1..], texts[1..]); }
  }

  /** Whatever the text, it is quoted on one line. */
  lemma {:induction false} QuotedOnOneLine(s: string)
    ensures '\n' !in Quoted(s) && '\r' !in Quoted(s)
  {
    BodyOnOneLine(s);
    hide QuoteBody;
    var body := QuoteBody(s) + "\"";
    assert forall c :: c in body ==> c in QuoteBody(s) || c == '"';
    assert forall c :: c in "\"" + body ==> c == '"' || c in body;
  }

  lemma {:induction false} BodyOnOneLine(s: string)
    ensures '\n' !in QuoteBody(s) && '\r' !in QuoteBody(s)
  {
    if s != "" {
      BodyOnOneLine(s[1..]);
      var first, rest := QuoteChar(s[0]), QuoteBody(s[1..]);
      assert '\n' !in first && '\r' !in first;
      hide QuoteChar;
      assert forall c :: c in first + rest ==> c in first || c in rest;
    }
  }

  // ----- escapes -----

  /** The escapes that stand for one character each. */
  lemma SingleEscapes(line: string, h: nat)
    requires h < |line|
    ensures line[h] == '"' ==> Escape(line, h) == ('"', h + 1)
    ensures line[h] == '\\' ==> Escape(line, h) == ('\\', h + 1)
    ensures line[h] == 'a' ==> Escape(line, h) == ('\U{0007}', h + 1)
    ensures line[h] == 'b' ==> Escape(line, h) == ('\U{0008}', h + 1)
    ensures line[h] == 'f' ==> Escape(line, h) == ('\U{000C}', h + 1)
    ensures line[h] == 'n' ==> Escape(line, h) == ('\n', h + 1)
    ensures line[h] == 'r' ==> Escape(line, h) == ('\r', h + 1)
    ensures line[h] == 't' ==> Escape(line, h) == ('\t', h + 1)
    ensures line[h] == 'v' ==> Escape(line, h) == ('\U{000B}', h + 1)
  {
    hide Run, NumberOf;
  }

  /** Any other character but `x` and the octal digits is left for itself, behind the backslash; and so
      is an `x` without hexadecimal digits, which loses it. */
  lemma OtherEscapes(line: string, h: nat)
    requires h < |line|
    ensures line[h] !in "\"\\abfnrtvx01234567" ==> Escape(line, h) == ('\\', h)
    ensures line[h] == 'x' && (h + 1 == |line| || line[h + 1] !in "0123456789abcdefABCDEF") ==>
              Escape(line, h) == ('x', h + 1)
  {
    NotOctal(line[h]);
    if h + 1 < |line| { NotHex(line[h + 1]); }
    hide IsOctal, IsHex, NumberOf;
    assert !IsHex(NUL) by { NotHex(NUL); }
  }

  lemma NotOctal(c: char)
    ensures c !in "\"\\abfnrtvx01234567" ==>
              !IsOctal(c) && c !in {'"', '\\', 'a', 'b', 'f', 'n', 'r', 't', 'v', 'x'}
  {}

  lemma NotHex(c: char)
    ensures c !in "0123456789abcdefABCDEF" <==> !IsHex(c)
  {}

  const LOWER_DIGITS := "0123456789abcdef"
  const UPPER_DIGITS := "0123456789ABCDEF"

  predicate IsDigitOf(c: char, v: nat)
    requires v < 16
  {
    c == LOWER_DIGITS[v] || c == UPPER_DIGITS[v]
  }

  lemma DigitOf(c: char, v: nat)
    requires v < 16 && IsDigitOf(c, v)
    ensures IsHex(c) && DigitValue(c) == v && (v < 8 ==> IsOctal(c))
  {}

  /** Two hexadecimal digits behind `\x`, in either case, are read as the byte they spell, whatever
      follows. */
  lemma HexEscapeReads(line: string, h: nat, v: nat)
    requires v < 256 && h + 3 <= |line|
    requires line[h] == 'x' && IsDigitOf(line[h + 1], v / 16) && IsDigitOf(line[h + 2], v % 16)
    ensures Escape(line, h) == (v as char, h + 3)
  {
    DigitOf(line[h + 1], v / 16);
    DigitOf(line[h + 2], v % 16);
    hide IsDigitOf, IsHex, DigitValue;
    assert Run(line, h + 2, false, 1) == 1;
    assert Run(line, h + 1, false, 2) == 2;
    assert NumberOf(line, h + 1, 1, 16) == v / 16;
    assert NumberOf(line, h + 1, 2, 16) == v;
  }

  /** Three octal digits behind a backslash are read as the number they spell, cut to a byte. */
  lemma OctalEscapeReads(line: string, h: nat, v: nat)
    requires v < 512 && h + 3 <= |line|
    requires IsDigitOf(line[h], v / 64) && IsDigitOf(line[h + 1], v / 8 % 8) && IsDigitOf(line[h + 2], v % 8)
    ensures Escape(line, h) == ((v % 256) as char, h + 3)
  {
    DigitOf(line[h], v / 64);
    DigitOf(line[h + 1], v / 8 % 8);
    DigitOf(line[h + 2], v % 8);
    hide IsDigitOf;
    OctalRun(line, h, v);
    OctalFirst(line[h]);
    hide DigitValue, IsOctal, Run, NumberOf;
  }

  lemma OctalFirst(c: char)
    requires IsOctal(c)
    ensures c !in {'"', '\\', 'a', 'b', 'f', 'n', 'r', 't', 'v', 'x'}
  {}

  lemma OctalRun(line: string, h: nat, v: nat)
    requires v < 512 && h + 3 <= |line|
    requires forall i :: h <= i < h + 3 ==> IsOctal(line[i]) && IsHex(line[i])
    requires DigitValue(line[h]) == v / 64 && DigitValue(line[h + 1]) == v / 8 % 8 && DigitValue(line[h + 2]) == v % 8
    ensures Run(line, h, true, 3) == 3 && NumberOf(line, h, 3, 8) == v
  {
    hide IsOctal, IsHex, DigitValue;
    assert Run(line, h + 2, true, 1) == 1;
    assert Run(line, h + 1, true, 2) == 2;
    assert Run(line, h, true, 3) == 3;
    assert NumberOf(line, h, 1, 8) == v / 64;
    assert NumberOf(line, h, 2, 8) == v / 64 * 8 + v / 8 % 8 == v / 8;
    assert NumberOf(line, h, 3, 8) == v;
  }

  // ----- printed lines -----

  datatype Item = Open | Close | Word(word: string) | Text(text: string)

  function Print(it: Item): string {
    match it
    case Open => "("
    case Close => ")"
    case Word(w) => w
    case Text(s) => Quoted(s)
  }

  ghost function TokenOf(keywords: Keywords, it: Item): Token {
    match it
    case Open => Token(Left, "(")
    case Close => Token(Right, ")")
    case Word(w) => Token(WordKind(keywords, w), w)
    case Text(s) => Token(String, s)
  }

  /** A bare word: not empty, without separators, not starting with a quote. */
  predicate IsWord(w: string) {
    && w != "" && w[0] != '"'
    && forall i :: 0 <= i < |w| ==> w[i] !in {' ', '\t', '\r', '\n', '\0', '(', ')'}
  }

  predicate Blank(s: string) {
    forall i :: 0 <= i < |s| ==> s[i] in {' ', '\t', '\r', '\n', '\0'}
  }

  /** An item and the blanks before it. */
  datatype Spaced = Spaced(gap: string, item: Item)

  /** Only a word needs a blank behind it, and only before a word or a quote. */
  predicate Separated(previous: Item, gap: string, it: Item) {
    previous.Word? && (it.Word? || it.Text?) ==> gap != ""
  }

  predicate WellSpaced(items: seq<Spaced>) {
    && (forall i :: 0 <= i < |items| ==> Blank(items[i].gap) && (items[i].item.Word? ==> IsWord(items[i].item.word)))
    && (forall i :: 0 < i < |items| ==> Separated(items[i - 1].item, items[i].gap, items[i].item))
  }

  function Render(items: seq<Spaced>, trailing: string): string {
    if items == [] then trailing
    else items[0].gap + (Print(items[0].item) + Render(items[1..], trailing))
  }

  ghost function TokensOf(keywords: Keywords, items: seq<Spaced>): seq<Token> {
    if items == [] then [] else [TokenOf(keywords, items[0].item)] + TokensOf(keywords, items[1..])
  }

  /** A line to print: its items, and the blanks behind the last, an end of line among them maybe. */
  datatype PrintedLine = PrintedLine(items: seq<Spaced>, trailing: string) {
    /** The line prints to something. */
    predicate Printable() {
      WellSpaced(items) && Blank(trailing) && Render(items, trailing) != ""
    }

    /** The line starts with a word that makes a comment of it. */
    predicate IsComment() {
      items != [] && items[0].item.Word? && items[0].item.word != "" && items[0].item.word[0] == '#'
    }

    predicate Valid() {
      Printable() && !IsComment()
    }
  }

  lemma {:induction false} SkipsBlanks(line: string, i: nat, gap: string, rest: string)
    requires i <= |line| && line[i..] == gap + rest && Blank(gap)
    requires rest != "" ==> !IsSpace(rest[0])
    ensures SkipSpace(line, i) == i + |gap|
    decreases |gap|
  {
    if gap == "" {
      assert line[i..] == rest;
      if i < |line| { assert line[i] == line[i..][0] == rest[0]; }
    } else {
      assert line[i] == line[i..][0] == gap[0];
      assert line[i + 1..] == line[i..][1..] == gap[1..] + rest;
      SkipsBlanks(line, i + 1, gap[1..], rest);
    }
  }

  lemma PrintedStart(it: Item)
    requires it.Word? ==> IsWord(it.word)
    ensures Print(it) != "" && !IsSpace(Print(it)[0])
    ensures it.Word? ==> Print(it)[0] != '"' && !IsSep(Print(it)[0])
  {}

  /** What may follow an item on its line: after a word, only a separator or the end. */
  predicate Follows(it: Item, rest: string) {
    it.Word? && rest != "" ==> IsSep(rest[0])
  }

  lemma RestFollows(items: seq<Spaced>, trailing: string)
    requires items != [] && WellSpaced(items) && Blank(trailing)
    ensures Follows(items[0].item, Render(items[1..], trailing))
  {}

  lemma DropFront(line: string, i: nat, a: string, b: string)
    requires i <= |line| && line[i..] == a + b
    ensures i + |a| <= |line| && line[i + |a|..] == b
  {}

  /** A printed item lexes as its token, and the lexer goes on behind it. */
  lemma ItemLexes(keywords: Keywords, line: string, i: nat, it: Item, rest: string, lines: seq<string>, retry: nat)
    requires i < |line| && line[i..] == Print(it) + rest
    requires it.Word? ==> IsWord(it.word)
    requires Follows(it, rest)
    ensures TokenAt(keywords, line, i, lines, retry) ==
            Lexed(TokenOf(keywords, it), Cursor(line, i + |Print(it)|, lines))
    ensures i + |Print(it)| <= |line| && line[i + |Print(it)|..] == rest
  {
    hide QuotedFrom, WordEnd, WordKind, IsWord, QuoteBody;
    DropFront(line, i, Print(it), rest);
    match it {
      case Open =>
        assert line[i] == line[i..][0];
      case Close =>
        assert line[i] == line[i..][0];
      case Text(s) =>
        TextReads(line, i, s, rest);
      case Word(w) =>
        WordReads(line, i, w, rest);
    }
  }

  lemma TextReads(line: string, i: nat, s: string, rest: string)
    requires i < |line| && line[i..] == Quoted(s) + rest
    ensures line[i] == '"' && QuotedFrom(line, i + 1) == Some((s, i + |Quoted(s)|))
  {
    QuotedSplits(s, rest);
    hide QuoteBody, QuotedFrom, Quoted;
    var tail := QuoteBody(s) + "\"" + rest;
    assert line[i] == line[i..][0] == ("\"" + tail)[0];
    DropFront(line, i, "\"", tail);
    QuotedReads(line, i + 1, s);
  }

  lemma QuotedSplits(s: string, rest: string)
    ensures Quoted(s) + rest == "\"" + (QuoteBody(s) + "\"" + rest)
    ensures |Quoted(s)| == |QuoteBody(s)| + 2
  {
    hide QuoteBody;
  }

  lemma WordReads(line: string, i: nat, w: string, rest: string)
    requires i < |line| && line[i..] == w + rest && IsWord(w) && (rest != "" ==> IsSep(rest[0]))
    ensures line[i] != '(' && line[i] != ')' && line[i] != '"'
    ensures WordEnd(line, i) == i + |w| <= |line| && line[i..i + |w|] == w
  {}

  /** From inside a printed line: its remaining items, then what the lines behind it hold. */
  lemma {:induction false} ItemsLex(keywords: Keywords, line: string, i: nat, items: seq<Spaced>, trailing: string,
                                    lines: seq<string>, comments: bool)
    requires i <= |line| && line[i..] == Render(items, trailing)
    requires WellSpaced(items) && Blank(trailing)
    ensures var (rest, ok) := StreamOfLines(keywords, lines, comments);
            Stream(keywords, Cursor(line, i, lines), comments) == (TokensOf(keywords, items) + rest, ok)
    decreases |items|
  {
    hide NextToken, Stream, TokenOf, WellSpaced, TokensOf, Blank;
    var (rest, ok) := StreamOfLines(keywords, lines, comments);
    if items == [] {
      LineDone(keywords, line, i, trailing, lines, comments);
      TokensOfNone(keywords);
      assert [] + rest == rest;
    } else {
      var token := TokenOf(keywords, items[0].item);
      var next := FirstItemLexes(keywords, line, i, items, trailing, lines, comments);
      hide Render;
      ItemsLex(keywords, line, next, items[1..], trailing, lines, comments);
      DsnStreams.UnfoldStream(keywords, Cursor(line, i, lines), comments, token, Cursor(line, next, lines));
      TokensOfFirst(keywords, items);
      var tail := TokensOf(keywords, items[1..]);
      assert [token] + (tail + rest) == ([token] + tail) + rest;
    }
  }

  lemma TokensOfNone(keywords: Keywords)
    ensures TokensOf(keywords, []) == []
  {}

  lemma TokensOfFirst(keywords: Keywords, items: seq<Spaced>)
    requires items != []
    ensures TokensOf(keywords, items) == [TokenOf(keywords, items[0].item)] + TokensOf(keywords, items[1..])
  {}

  /** Behind the last item only blanks are left: the lexer reads the next line. */
  lemma LineDone(keywords: Keywords, line: string, i: nat, trailing: string, lines: seq<string>, comments: bool)
    requires i <= |line| && line[i..] == trailing && Blank(trailing)
    ensures Stream(keywords, Cursor(line, i, lines), comments) == StreamOfLines(keywords, lines, comments)
  {}

  lemma NextAfterBlanks(keywords: Keywords, line: string, i: nat, j: nat, lines: seq<string>, comments: bool)
    requires i <= |line| && SkipSpace(line, i) == j < |line|
    ensures NextToken(keywords, Cursor(line, i, lines), comments) == TokenAt(keywords, line, j, lines, i)
  {}

  lemma FirstItemLexes(keywords: Keywords, line: string, i: nat, items: seq<Spaced>, trailing: string,
                       lines: seq<string>, comments: bool) returns (next: nat)
    requires i <= |line| && line[i..] == Render(items, trailing)
    requires items != [] && WellSpaced(items) && Blank(trailing)
    ensures next <= |line| && line[next..] == Render(items[1..], trailing) && WellSpaced(items[1..])
    ensures NextToken(keywords, Cursor(line, i, lines), comments) ==
            Lexed(TokenOf(keywords, items[0].item), Cursor(line, next, lines))
  {
    var it, gap := items[0].item, items[0].gap;
    var after := Render(items[1..], trailing);
    var text := Print(it) + after;
    assert line[i..] == gap + text;
    hide TokenAt, TokenOf, Follows, QuotedFrom, Quoted, WellSpaced, Render, NextToken, SkipSpace, IsWord, Blank, Print;
    RestFollows(items, trailing);
    WellSpacedRest(items);
    PrintedStart(it);
    var j := i + |gap|;
    DropFront(line, i, gap, text);
    assert text[0] == Print(it)[0];
    SkipsBlanks(line, i, gap, text);
    NextAfterBlanks(keywords, line, i, j, lines, comments);
    ItemLexes(keywords, line, j, it, after, lines, i);
    next := j + |Print(it)|;
  }

  lemma WellSpacedRest(items: seq<Spaced>)
    requires items != [] && WellSpaced(items)
    ensures WellSpaced(items[1..])
    ensures Blank(items[0].gap) && (items[0].item.Word? ==> IsWord(items[0].item.word))
  {}

  /** A printed line is a comment to the lexer exactly when its first item is such a word. */
  lemma CommentIff(p: PrintedLine)
    requires p.Printable()
    ensures IsCommentLine(Render(p.items, p.trailing)) <==> p.IsComment()
  {
    var line := Render(p.items, p.trailing);
    assert line[0..] == line;
    if p.items == [] {
      assert line == p.trailing + "";
      SkipsBlanks(line, 0, p.trailing, "");
    } else {
      var it := p.items[0].item;
      PrintedStart(it);
      SkipsBlanks(line, 0, p.items[0].gap, Print(it) + Render(p.items[1..], p.trailing));
      assert line[|p.items[0].gap|] == Print(it)[0];
    }
  }

  function PrintLines(ps: seq<PrintedLine>): (lines: seq<string>)
    ensures |lines| == |ps|
  {
    if ps == [] then [] else [Render(ps[0].items, ps[0].trailing)] + PrintLines(ps[1..])
  }

  ghost function TokensOfLines(keywords: Keywords, ps: seq<PrintedLine>): seq<Token> {
    if ps == [] then [] else TokensOf(keywords, ps[0].items) + TokensOfLines(keywords, ps[1..])
  }

  /** Reading a fresh line that is no comment is the same as standing at its start. */
  lemma FreshLine(keywords: Keywords, line: string, lines: seq<string>, comments: bool)
    requires line != "" && !IsCommentLine(line)
    ensures StreamOfLines(keywords, [line] + lines, comments) == Stream(keywords, Cursor(line, 0, lines), comments)
  {}

  /** A comment line is read as one token, or not at all. */
  lemma CommentRead(keywords: Keywords, line: string, lines: seq<string>, comments: bool)
    requires line != "" && IsCommentLine(line)
    ensures var (rest, ok) := StreamOfLines(keywords, lines, comments);
            StreamOfLines(keywords, [line] + lines, comments) ==
            ((if comments then [Token(Comment, Trimmed(line))] else []) + rest, ok)
  {
    var (rest, ok) := StreamOfLines(keywords, lines, comments);
    var all := [line] + lines;
    assert all[0] == line && all[1..] == lines;
    if comments {
      var after := Cursor(Trimmed(line), |Trimmed(line)|, lines);
      DsnStreams.UnfoldStream(keywords, Cursor("", 0, all), true, Token(Comment, Trimmed(line)), after);
      LineDone(keywords, Trimmed(line), |Trimmed(line)|, "", lines, true);
    } else {
      assert NextToken(keywords, Cursor("", 0, all), false) == NextToken(keywords, Cursor("", 0, lines), false);
      assert [] + rest == rest;
    }
  }

  /** What the lexer makes of a printed line. */
  ghost function LineTokens(keywords: Keywords, p: PrintedLine, comments: bool): seq<Token> {
    if !p.IsComment() then TokensOf(keywords, p.items)
    else if comments then [Token(Comment, Trimmed(Render(p.items, p.trailing)))]
    else []
  }

  ghost function ReadBack(keywords: Keywords, ps: seq<PrintedLine>, comments: bool): seq<Token> {
    if ps == [] then [] else LineTokens(keywords, ps[0], comments) + ReadBack(keywords, ps[1..], comments)
  }

  predicate AllPrintable(ps: seq<PrintedLine>) {
    forall k :: 0 <= k < |ps| ==> ps[k].Printable()
  }

  predicate NoComments(ps: seq<PrintedLine>) {
    forall k :: 0 <= k < |ps| ==> !ps[k].IsComment()
  }

  /** One printed line in front of others. */
  lemma LineLexes(keywords: Keywords, p: PrintedLine, lines: seq<string>, comments: bool)
    requires p.Printable()
    ensures var (rest, ok) := StreamOfLines(keywords, lines, comments);
            StreamOfLines(keywords, [Render(p.items, p.trailing)] + lines, comments) ==
            (LineTokens(keywords, p, comments) + rest, ok)
  {
    var line := Render(p.items, p.trailing);
    CommentIff(p);
    if p.IsComment() {
      CommentRead(keywords, line, lines, comments);
    } else {
      FreshLine(keywords, line, lines, comments);
      assert line[0..] == line;
      ItemsLex(keywords, line, 0, p.items, p.trailing, lines, comments);
    }
  }

  /** Print, then lex: any printed lines, to the end, a comment line as one token or none. */
  lemma {:induction false} PrintedLinesLex(keywords: Keywords, ps: seq<PrintedLine>, comments: bool)
    requires AllPrintable(ps)
    ensures StreamOfLines(keywords, PrintLines(ps), comments) == (ReadBack(keywords, ps, comments), true)
    ensures "" !in PrintLines(ps)
    decreases |ps|
  {
    if ps != [] {
      assert ps[0].Printable();
      PrintedLinesLex(keywords, ps[1..], comments);
      LineLexes(keywords, ps[0], PrintLines(ps[1..]), comments);
    }
  }

  lemma {:induction false} ReadBackPlain(keywords: Keywords, ps: seq<PrintedLine>, comments: bool)
    requires NoComments(ps)
    ensures ReadBack(keywords, ps, comments) == TokensOfLines(keywords, ps)
    decreases |ps|
  {
    if ps != [] { ReadBackPlain(keywords, ps[1..], comments); }
  }

  /** Print, then lex: the stream is exactly what was printed, whether or not comments count as
      tokens. */
  lemma PrintThenLex(keywords: Keywords, ps: seq<PrintedLine>, comments: bool)
    requires forall k :: 0 <= k < |ps| ==> ps[k].Valid()
    ensures StreamOfLines(keywords, PrintLines(ps), comments) == (TokensOfLines(keywords, ps), true)
    ensures "" !in PrintLines(ps)
  {
    PrintedLinesLex(keywords, ps, comments);
    ReadBackPlain(keywords, ps, comments);
  }

  ghost predicate HasComment(tokens: seq<Token>) {
    exists i :: 0 <= i < |tokens| && tokens[i].kind == Comment
  }

  lemma {:induction false} ItemsAreNoComments(keywords: Keywords, items: seq<Spaced>)
    ensures !HasComment(TokensOf(keywords, items)) && |TokensOf(keywords, items)| == |items|
    decreases |items|
  {
    if items != [] { ItemsAreNoComments(keywords, items[1..]); }
  }

  lemma HasCommentAppend(a: seq<Token>, b: seq<Token>)
    ensures HasComment(a + b) <==> HasComment(a) || HasComment(b)
  {
    if i :| 0 <= i < |a| && a[i].kind == Comment { assert (a + b)[i].kind == Comment; }
    if i :| 0 <= i < |b| && b[i].kind == Comment { assert (a + b)[|a| + i].kind == Comment; }
  }

  /** A comment line leaves its mark: a token too few, or one of a kind that is not printed. */
  lemma {:induction false} CommentsShow(keywords: Keywords, ps: seq<PrintedLine>, comments: bool)
    ensures !HasComment(TokensOfLines(keywords, ps))
    ensures comments ==> (HasComment(ReadBack(keywords, ps, comments)) <==> !NoComments(ps))
    ensures !comments ==> |ReadBack(keywords, ps, comments)| <= |TokensOfLines(keywords, ps)|
    ensures !comments && !NoComments(ps) ==> |ReadBack(keywords, ps, comments)| < |TokensOfLines(keywords, ps)|
    decreases |ps|
  {
    if ps != [] {
      CommentsShow(keywords, ps[1..], comments);
      NoCommentsFirst(ps);
      ItemsAreNoComments(keywords, ps[0].items);
      LineComment(keywords, ps[0], comments);
      hide TokensOf, LineTokens, HasComment, NoComments;
      HasCommentAppend(TokensOf(keywords, ps[0].items), TokensOfLines(keywords, ps[1..]));
      HasCommentAppend(LineTokens(keywords, ps[0], comments), ReadBack(keywords, ps[1..], comments));
    }
  }

  lemma NoCommentsFirst(ps: seq<PrintedLine>)
    requires ps != []
    ensures NoComments(ps) <==> !ps[0].IsComment() && NoComments(ps[1..])
  {
    assert ps == [ps[0]] + ps[1..];
  }

  lemma LineComment(keywords: Keywords, p: PrintedLine, comments: bool)
    ensures !p.IsComment() ==> LineTokens(keywords, p, comments) == TokensOf(keywords, p.items)
    ensures p.IsComment() && comments ==> HasComment(LineTokens(keywords, p, comments))
    ensures p.IsComment() && !comments ==> |LineTokens(keywords, p, comments)| == 0 < |p.items|
  {
    if p.IsComment() && comments { assert LineTokens(keywords, p, comments)[0].kind == Comment; }
  }

  /** The tokens of a printed line, spelled out: parentheses, strings with their text, and words, which
      are numbers exactly when they are numerals and otherwise keywords if they are known as such. */
  lemma PrintedTokens(keywords: Keywords, p: PrintedLine, lines: seq<string>, comments: bool, k: nat)
    requires p.Printable() && !p.IsComment() && k < |p.items|
    ensures var tokens := StreamOfLines(keywords, [Render(p.items, p.trailing)] + lines, comments).0;
            && k < |tokens|
            && match p.items[k].item
               case Open => tokens[k] == Token(Left, "(")
               case Close => tokens[k] == Token(Right, ")")
               case Text(s) => tokens[k] == Token(String, s)
               case Word(w) =>
                 && tokens[k].text == w
                 && (tokens[k].kind == Number <==> IsNumeral(w))
                 && (!IsNumeral(w) && w in keywords ==> tokens[k].kind == Keyword(keywords[w]))
                 && (!IsNumeral(w) && w !in keywords ==> tokens[k].kind == Symbol)
  {
    LineLexes(keywords, p, lines, comments);
    ItemToken(keywords, p.items, k);
    hide StreamOfLines, TokensOf, IsNumeral;
  }

  lemma {:induction false} ItemToken(keywords: Keywords, items: seq<Spaced>, k: nat)
    requires k < |items|
    ensures |TokensOf(keywords, items)| == |items| && TokensOf(keywords, items)[k] == TokenOf(keywords, items[k].item)
    decreases |items|
  {
    hide TokenOf;
    if k > 0 {
      ItemToken(keywords, items[1..], k - 1);
    } else {
      ItemsAreNoComments(keywords, items);
    }
  }

  /** Printed lines lex back to what was printed exactly when none of them starts a comment. */
  lemma PrintThenLexIff(keywords: Keywords, ps: seq<PrintedLine>, comments: bool)
    requires AllPrintable(ps)
    ensures StreamOfLines(keywords, PrintLines(ps), comments) == (TokensOfLines(keywords, ps), true) <==> NoComments(ps)
  {
    hide NoComments, IsCommentLine, AllPrintable;
    PrintedLinesLex(keywords, ps, comments);
    CommentsShow(keywords, ps, comments);
    if NoComments(ps) { ReadBackPlain(keywords, ps, comments); }
  }

  /** The layout with one blank between items and an end of line. */
  function SingleSpaced(items: seq<Item>, first: bool): seq<Spaced> {
    if items == [] then [] else [Spaced(if first then "" else " ", items[0])] + SingleSpaced(items[1..], false)
  }

  lemma {:induction false} SingleSpacedValid(items: seq<Item>, first: bool)
    requires forall i :: 0 <= i < |items| && items[i].Word? ==> IsWord(items[i].word)
    ensures var ss := SingleSpaced(items, first);
            && WellSpaced(ss) && |ss| == |items|
            && (ss != [] ==> ss[0].item == items[0] && (!first ==> ss[0].gap == " "))
    ensures (items != [] && items[0].Word? ==> items[0].word[0] != '#') ==>
              PrintedLine(SingleSpaced(items, first), "\n").Valid()
  {
    var ss := SingleSpaced(items, first);
    if items != [] {
      SingleSpacedValid(items[1..], false);
      var rest := SingleSpaced(items[1..], false);
      assert forall i :: 0 < i < |ss| ==> ss[i] == rest[i - 1];
      assert ss[0] == Spaced(if first then "" else " ", items[0]);
      forall i | 0 < i < |ss|
        ensures Separated(ss[i - 1].item, ss[i].gap, ss[i].item)
      {
        if i > 1 { assert Separated(rest[i - 2].item, rest[i - 1].gap, rest[i - 1].item); }
      }
      PrintedStart(items[0]);
    }
  }

  /** The whole way: a lexer over the printed lines hands out the printed tokens, but for comment lines,
      and then the end. */
  method LexPrinted(keywords: Keywords, ps: seq<PrintedLine>) returns (tokens: seq<Token>, ok: bool)
    requires AllPrintable(ps)
    ensures ok && tokens == ReadBack(keywords, ps, false)
    ensures NoComments(ps) <==> tokens == TokensOfLines(keywords, ps)
  {
    PrintedLinesLex(keywords, ps, false);
    PrintThenLexIff(keywords, ps, false);
    var lexer := new DsnLexer.Lexer(keywords, PrintLines(ps));
    tokens, ok := DsnLexer.Drain(lexer);
  }
}
