/** common/dsnlexer.cpp in KiCad mode: what a token is, said over lines of characters. */
module DsnTokens {
  import opened Wrappers
  import opened DsnNumber

  datatype Kind = NoToken | Comment | Symbol | Number | Right | Left | String | Eof | Keyword(index: nat)

  type Keywords = map<string, nat>

  const NUL := '\0'

  predicate IsSpace(c: char) {
    c == ' ' || c == '\n' || c == '\r' || c == '\t' || c == NUL
  }

  predicate IsSep(c: char) {
    IsSpace(c) || c == '(' || c == ')'
  }

  /** A line buffer is followed by a NUL. */
  function At(line: string, i: nat): char
    requires i <= |line|
  {
    if i < |line| then line[i] else NUL
  }

  function SkipSpace(line: string, i: nat): (e: nat)
    requires i <= |line|
    ensures i <= e <= |line| && (e < |line| ==> !IsSpace(line[e]))
    decreases |line| - i
  {
    if i < |line| && IsSpace(line[i]) then SkipSpace(line, i + 1) else i
  }

  // ----- escapes -----

  predicate IsHex(c: char) {
    '0' <= c <= '9' || 'a' <= c <= 'f' || 'A' <= c <= 'F'
  }

  predicate IsOctal(c: char) {
    '0' <= c <= '7'
  }

  function DigitValue(c: char): (v: nat)
    requires IsHex(c)
    ensures v < 16
  {
    if c <= '9' then c as int - '0' as int
    else if c <= 'F' then c as int - 'A' as int + 10
    else c as int - 'a' as int + 10
  }

  /** How many digits of the radix, at most n, start at h. */
  function Run(line: string, h: nat, octal: bool, n: nat): (k: nat)
    requires h <= |line|
    ensures k <= n && h + k <= |line|
    ensures forall i :: h <= i < h + k ==> if octal then IsOctal(line[i]) else IsHex(line[i])
    decreases n
  {
    if n > 0 && (if octal then IsOctal(At(line, h)) else IsHex(At(line, h))) then 1 + Run(line, h + 1, octal, n - 1)
    else 0
  }

  function NumberOf(line: string, h: nat, k: nat, radix: nat): nat
    requires h + k <= |line| && forall i :: h <= i < h + k ==> IsHex(line[i])
    decreases k
  {
    if k == 0 then 0 else NumberOf(line, h, k - 1, radix) * radix + DigitValue(line[h + k - 1])
  }

  /** A number stored into a `char`. */
  function Narrow(v: nat): char {
    (v % 256) as char
  }

  /** The escape whose character after the backslash is at h: what it stands for, and where to go on. */
  function Escape(line: string, h: nat): (r: (char, nat))
    requires h < |line|
    ensures h <= r.1 <= |line|
  {
    match line[h]
    case '"' => ('"', h + 1)
    case '\\' => ('\\', h + 1)
    case 'a' => (7 as char, h + 1)
    case 'b' => (8 as char, h + 1)
    case 'f' => (12 as char, h + 1)
    case 'n' => ('\n', h + 1)
    case 'r' => ('\r', h + 1)
    case 't' => (9 as char, h + 1)
    case 'v' => (11 as char, h + 1)
    case 'x' =>
      var k := Run(line, h + 1, false, 2);
      (if k == 0 then 'x' else Narrow(NumberOf(line, h + 1, k, 16)), h + 1 + k)
    case _ =>
      var k := Run(line, h, true, 3);
      (if k == 0 then '\\' else Narrow(NumberOf(line, h, k, 8)), h + k)
  }

  /** The rest of a quoted string from h: its text, and the place behind the closing quote. */
  function QuotedFrom(line: string, h: nat): (r: Option<(string, nat)>)
    requires h <= |line|
    ensures r.Some? ==> h < r.value.1 <= |line|
    decreases |line| - h
  {
    if h == |line| then None
    else if line[h] == '"' then Some(("", h + 1))
    else
      var (c, next) := if line[h] == '\\' then
                         if h + 1 == |line| then (NUL, |line|) else Escape(line, h + 1)
                       else (line[h], h + 1);
      match QuotedFrom(line, next)
      case None => None
      case Some((text, end)) => Some(([c] + text, end))
  }

  /** What has been read of a string when the line ends without its closing quote. */
  function OpenText(line: string, h: nat): string
    requires h <= |line|
    decreases |line| - h
  {
    if h == |line| || line[h] == '"' then ""
    else if line[h] != '\\' then [line[h]] + OpenText(line, h + 1)
    else if h + 1 == |line| then ""
    else [Escape(line, h + 1).0] + OpenText(line, Escape(line, h + 1).1)
  }

  function WordEnd(line: string, h: nat): (e: nat)
    requires h <= |line|
    ensures h <= e <= |line| && (forall i :: h <= i < e ==> !IsSep(line[i])) && (e < |line| ==> IsSep(line[e]))
    decreases |line| - h
  {
    if h < |line| && !IsSep(line[h]) then WordEnd(line, h + 1) else h
  }

  ghost function WordKind(keywords: Keywords, word: string): Kind {
    if IsNumeral(word) then Number
    else if word in keywords then Keyword(keywords[word])
    else Symbol
  }

  // ----- one token -----

  datatype Token = Token(kind: Kind, text: string)

  /** Where the lexer is: the part of the line buffer in use, the place in it, the lines to come. */
  datatype Cursor = Cursor(line: string, next: nat, lines: seq<string>)

  datatype Outcome =
    | Lexed(token: Token, after: Cursor)
    | AtEnd
    | Unterminated(at: Cursor, text: string)  // an open string, as far as it was read

  /** The token starting at the non-blank i of the line; `retry` is where a failed call leaves off. */
  ghost function TokenAt(keywords: Keywords, line: string, i: nat, lines: seq<string>, retry: nat): Outcome
    requires i < |line|
  {
    if line[i] == '(' then Lexed(Token(Left, "("), Cursor(line, i + 1, lines))
    else if line[i] == ')' then Lexed(Token(Right, ")"), Cursor(line, i + 1, lines))
    else if line[i] == '"' then
      match QuotedFrom(line, i + 1)
      case None => Unterminated(Cursor(line, retry, lines), OpenText(line, i + 1))
      case Some((text, end)) => Lexed(Token(String, text), Cursor(line, end, lines))
    else
      var word := line[i..WordEnd(line, i)];
      Lexed(Token(WordKind(keywords, word), word), Cursor(line, WordEnd(line, i), lines))
  }

  /** A comment line without its end-of-line characters. */
  function Trimmed(line: string): (t: string)
    ensures t <= line
  {
    if line != "" && (line[|line| - 1] == '\n' || line[|line| - 1] == '\r') then Trimmed(line[..|line| - 1]) else line
  }

  predicate IsCommentLine(line: string) {
    var i := SkipSpace(line, 0);
    i < |line| && line[i] == '#'
  }

  /** That is the line but for line ends, and does not end with one. */
  lemma {:induction false} TrimmedMeans(line: string) returns (tail: string)
    ensures line == Trimmed(line) + tail && (forall i :: 0 <= i < |tail| ==> tail[i] == '\n' || tail[i] == '\r')
    ensures var t := Trimmed(line); t != "" ==> t[|t| - 1] != '\n' && t[|t| - 1] != '\r'
  {
    if line != "" && (line[|line| - 1] == '\n' || line[|line| - 1] == '\r') {
      var rest := TrimmedMeans(line[..|line| - 1]);
      tail := rest + [line[|line| - 1]];
      assert line == line[..|line| - 1] + [line[|line| - 1]];
    } else {
      tail := "";
    }
  }

  /** Reading on with the next line. */
  ghost function FromLines(keywords: Keywords, lines: seq<string>, comments: bool): Outcome
    decreases |lines|
  {
    if lines == [] then AtEnd
    else
      var line, rest := lines[0], lines[1..];
      var i := SkipSpace(line, 0);
      if IsCommentLine(line) then
        if comments then Lexed(Token(Comment, Trimmed(line)), Cursor(Trimmed(line), |Trimmed(line)|, rest))
        else FromLines(keywords, rest, comments)
      else if i == |line| then FromLines(keywords, rest, comments)
      else TokenAt(keywords, line, i, rest, 0)
  }

  /** The next token from anywhere. */
  ghost function NextToken(keywords: Keywords, c: Cursor, comments: bool): Outcome {
    if c.next >= |c.line| || SkipSpace(c.line, c.next) == |c.line| then FromLines(keywords, c.lines, comments)
    else TokenAt(keywords, c.line, SkipSpace(c.line, c.next), c.lines, c.next)
  }

  // ----- the stream of tokens -----

  /** The characters and lines still unread. */
  function Unread(c: Cursor): nat {
    (if c.next < |c.line| then |c.line| - c.next else 0) + UnreadLines(c.lines)
  }

  function UnreadLines(lines: seq<string>): nat {
    if lines == [] then 0 else |lines[0]| + 1 + UnreadLines(lines[1..])
  }

  lemma {:induction false} LinesProgress(keywords: Keywords, lines: seq<string>, comments: bool)
    ensures var r := FromLines(keywords, lines, comments);
            r.Lexed? ==> Unread(r.after) < UnreadLines(lines) && r.after.next <= |r.after.line|
    decreases |lines|
  {
    if lines != [] {
      var line := lines[0];
      if IsCommentLine(line) {
        if !comments { LinesProgress(keywords, lines[1..], comments); }
      } else if SkipSpace(line, 0) == |line| {
        LinesProgress(keywords, lines[1..], comments);
      }
    }
  }

  /** Every token consumes input, and the place never passes the end of the line. */
  lemma Progress(keywords: Keywords, c: Cursor, comments: bool)
    ensures var r := NextToken(keywords, c, comments);
            r.Lexed? ==> Unread(r.after) < Unread(c) && r.after.next <= |r.after.line|
  {
    LinesProgress(keywords, c.lines, comments);
  }

  /** All the tokens, and whether the end was reached without an unterminated string. */
  ghost function Stream(keywords: Keywords, c: Cursor, comments: bool): (seq<Token>, bool)
    decreases Unread(c)
  {
    Progress(keywords, c, comments);
    match NextToken(keywords, c, comments)
    case AtEnd => ([], true)
    case Unterminated(_, _) => ([], false)
    case Lexed(token, after) =>
      var (tokens, ok) := Stream(keywords, after, comments);
      ([token] + tokens, ok)
  }

  ghost function StreamOfLines(keywords: Keywords, lines: seq<string>, comments: bool): (seq<Token>, bool) {
    Stream(keywords, Cursor("", 0, lines), comments)
  }
}
