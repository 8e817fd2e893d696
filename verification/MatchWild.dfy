/** common/common.cpp: matchWild, the in-place wildcard matcher for directory entries. */
module MatchWild {
  import opened Glob

  const NUL := '\0'

  /** A C string holds no NUL before its terminator. */
  predicate CString(s: string) {
    forall i :: 0 <= i < |s| ==> s[i] != NUL
  }

  /** The character a C pointer sees at offset i; the terminator at the end. */
  function At(s: string, i: nat): char
    requires i <= |s|
  {
    if i < |s| then s[i] else NUL
  }

  /** How matchWild reads a pattern: `*`, `?`, and a backslash that quotes the next character. */
  function Elems(p: string): seq<Elem> {
    if p == "" then []
    else if p[0] == '*' then [Star] + Elems(p[1..])
    else if p[0] == '?' then [One] + Elems(p[1..])
    else if p[0] == '\\' then
      if |p| == 1 then [Never] else [Lit(p[1])] + Elems(p[2..])
    else [Lit(p[0])] + Elems(p[1..])
  }

  /** What matchWild promises, including its two special cases. */
  predicate Accepts(pat: string, text: string, dotSpecial: bool) {
    if text == "" then pat == ""
    else if dotSpecial && text[0] == '.' then false
    else Matches(Elems(pat), text)
  }

  /** A piece of a pattern: a star, a question mark, a quoted character or any other. */
  predicate IsToken(token: string) {
    (|token| == 1 && token[0] != '\\') || (|token| == 2 && token[0] == '\\')
  }

  /** What one piece stands for. */
  predicate TokenTakes(token: string, part: string)
    requires IsToken(token)
  {
    if token == "*" then true
    else if token == "?" then |part| == 1
    else part == [token[|token| - 1]]
  }

  function TokenElem(token: string): Elem
    requires IsToken(token)
  {
    if token == "*" then Star else if token == "?" then One else Lit(token[|token| - 1])
  }

  lemma {:induction false} ElemsOfTokens(tokens: seq<string>, rest: string) returns (es: seq<Elem>)
    requires forall i :: 0 <= i < |tokens| ==> IsToken(tokens[i])
    ensures |es| == |tokens| && forall i :: 0 <= i < |tokens| ==> es[i] == TokenElem(tokens[i])
    ensures Elems(Concat(tokens) + rest) == es + Elems(rest)
    decreases |tokens|
  {
    if tokens == [] {
      es := [];
      assert "" + rest == rest && [] + Elems(rest) == Elems(rest);
    } else {
      var more := ElemsOfTokens(tokens[1..], rest);
      var token, tail := tokens[0], Concat(tokens[1..]) + rest;
      es := [TokenElem(token)] + more;
      assert Concat(tokens) + rest == token + tail;
      TokenRead(token, tail);
      assert [TokenElem(token)] + (more + Elems(rest)) == es + Elems(rest);
    }
  }

  lemma TokenRead(token: string, tail: string)
    requires IsToken(token)
    ensures Elems(token + tail) == [TokenElem(token)] + Elems(tail)
  {
    var p := token + tail;
    assert p[0] == token[0];
    if |token| == 2 {
      assert p[1] == token[1] && p[2..] == tail;
    } else {
      assert p[1..] == tail;
    }
  }

  /** The text cut into one part for each piece, which takes it. */
  predicate TakesParts(tokens: seq<string>, parts: seq<string>, text: string) {
    && |parts| == |tokens| && Concat(parts) == text
    && forall i :: 0 <= i < |tokens| ==> IsToken(tokens[i]) && TokenTakes(tokens[i], parts[i])
  }

  lemma TakesIffSplits(tokens: seq<string>, es: seq<Elem>, parts: seq<string>, text: string)
    requires |es| == |tokens| && forall i :: 0 <= i < |tokens| ==> IsToken(tokens[i]) && es[i] == TokenElem(tokens[i])
    ensures TakesParts(tokens, parts, text) <==> Splits(es, parts, text)
  {
    if |parts| == |tokens| {
      forall i | 0 <= i < |tokens|
        ensures TokenTakes(tokens[i], parts[i]) <==> Fits(es[i], parts[i])
      {}
    }
  }

  /** Which texts a pattern accepts, said of its pieces: those that can be cut so that each piece takes
      its part. A pattern that breaks off in an escape accepts none. */
  lemma AcceptsMeans(tokens: seq<string>, text: string)
    requires text != "" && forall i :: 0 <= i < |tokens| ==> IsToken(tokens[i])
    ensures Accepts(Concat(tokens), text, false) <==> exists parts :: TakesParts(tokens, parts, text)
    ensures !Accepts(Concat(tokens) + "\\", text, false)
  {
    var es := ElemsOfTokens(tokens, "");
    assert Concat(tokens) + "" == Concat(tokens) && es + [] == es;
    var fs := ElemsOfTokens(tokens, "\\");
    DanglingAccepts(fs, text);
    assert Elems("") == [];
    hide Elems, Matches, TakesParts, Splits, IsToken;
    MatchesIffSplits(es, text);
    forall parts
      ensures TakesParts(tokens, parts, text) <==> Splits(es, parts, text)
    {
      TakesIffSplits(tokens, es, parts, text);
    }
  }

  lemma DanglingAccepts(es: seq<Elem>, text: string)
    ensures !Matches(es + Elems("\\"), text)
  {
    var all := es + [Never];
    MatchesIffSplits(all, text);
    forall parts
      ensures !Splits(all, parts, text)
    {
      if |parts| == |all| { assert all[|es|] == Never && !Fits(all[|es|], parts[|es|]); }
    }
  }

  /** Some start after `from` lets the pattern match the rest of the text. */
  ghost predicate LaterStart(es: seq<Elem>, text: string, from: nat) {
    exists k :: from < k <= |text| && Matches(es, text[k..])
  }

  /** The segment read since the last star matched text[na..n]: what backtracking relies on. */
  ghost predicate Segment(seg: seq<Elem>, rest: seq<Elem>, whole: seq<Elem>, text: string, na: nat, n: nat) {
    && na <= n <= |text|
    && StarFree(seg)
    && |seg| == n - na
    && whole == seg + rest
  }

  /** Giving up on earlier stars is safe: a later start of the old segment also feeds the new star. */
  lemma NewStarSubsumes(seg: seq<Elem>, rest: seq<Elem>, whole: seq<Elem>, text: string, na: nat, n: nat)
    requires Segment(seg, rest, whole, text, na, n)
    requires rest != [] && rest[0].Star?
    requires LaterStart(whole, text, na)
    ensures Matches(rest, text[n..])
  {
    var k :| na < k <= |text| && Matches(whole, text[k..]);
    StarFreeFront(seg, rest, text[k..]);
    var d := k - na;
    assert text[k..][|seg|..] == text[n..][d..];
    StarAbsorbs(rest, text[n..], d);
  }

  /** With the text used up, no later start leaves enough characters for the segment. */
  lemma NoRoomLater(seg: seq<Elem>, rest: seq<Elem>, whole: seq<Elem>, text: string, na: nat)
    requires Segment(seg, rest, whole, text, na, |text|)
    ensures !LaterStart(whole, text, na)
  {
    forall k | na < k <= |text|
      ensures !Matches(whole, text[k..])
    {
      StarFreeFront(seg, rest, text[k..]);
    }
  }

  /** A star followed only by `?` may slide to the end of the text. */
  lemma SlideToEnd(seg: seq<Elem>, text: string, na: nat, n: nat)
    requires na <= n < |text| && |seg| == n - na
    requires forall i :: 0 <= i < |seg| ==> seg[i] == One
    ensures LaterStart(seg, text, na)
  {
    var k := na + (|text| - n);
    AllOnes(seg, text[k..]);
    assert na < k <= |text| && Matches(seg, text[k..]);
  }

  lemma {:induction false} AllOnes(seg: seq<Elem>, t: string)
    requires |seg| == |t|
    requires forall i :: 0 <= i < |seg| ==> seg[i] == One
    ensures Matches(seg, t)
  {
    if seg != [] {
      AllOnes(seg[1..], t[1..]);
    }
  }

  /** Moving to the next start: what may match from the starts after na. */
  lemma NextStart(es: seq<Elem>, text: string, na: nat)
    requires na < |text|
    ensures LaterStart(es, text, na) <==> Matches(es, text[na + 1..]) || LaterStart(es, text, na + 1)
  {}

  lemma ReadsOneElement(pat: string, m: nat)
    requires m < |pat| && CString(pat)
    ensures pat[m] == '*' ==> Elems(pat[m..]) == [Star] + Elems(pat[m + 1..])
    ensures pat[m] == '?' ==> Elems(pat[m..]) == [One] + Elems(pat[m + 1..])
    ensures pat[m] == '\\' && m + 1 == |pat| ==> Elems(pat[m..]) == [Never]
    ensures pat[m] == '\\' && m + 1 < |pat| ==> Elems(pat[m..]) == [Lit(pat[m + 1])] + Elems(pat[m + 2..])
    ensures pat[m] !in {'*', '?', '\\'} ==> Elems(pat[m..]) == [Lit(pat[m])] + Elems(pat[m + 1..])
  {}

  /** A dangling escape after a star-free segment defeats every start. */
  lemma DanglingNeverMatches(seg: seq<Elem>, whole: seq<Elem>, text: string, na: nat)
    requires StarFree(seg) && whole == seg + [Never]
    ensures !LaterStart(whole, text, na)
  {
    forall k | na < k <= |text|
      ensures !Matches(whole, text[k..])
    {
      StarFreeFront(seg, [Never], text[k..]);
    }
  }

  /** Reading a star: the rest matches here, or from some later start. */
  lemma StarSplit(es: seq<Elem>, text: string, n: nat)
    requires es != [] && es[0].Star? && n <= |text|
    ensures Matches(es, text[n..]) <==> Matches(es[1..], text[n..]) || LaterStart(es[1..], text, n)
  {
    if Matches(es, text[n..]) {
      var k := StarGivesSuffix(es, text[n..]);
      assert text[n..][k..] == text[n + k..];
    }
    if LaterStart(es[1..], text, n) {
      var k :| n < k <= |text| && Matches(es[1..], text[k..]);
      assert text[n..][k - n..] == text[k..];
      StarAbsorbs(es, text[n..], k - n);
    }
  }

  /** Where the matcher stands: pattern and text positions, the last star, and whether only `?`
      followed it. */
  datatype Position = Position(m: nat, n: nat, ma: int, na: int, just: bool)

  /** The loop invariant. `seg` is the list of elements read since the last star. */
  ghost predicate Invariant(pat: string, text: string, p: Position, seg: seq<Elem>) {
    && p.m <= |pat| && p.n <= |text|
    && -1 <= p.ma <= p.m && -1 <= p.na <= p.n && (p.ma == -1 <==> p.na == -1)
    && (Matches(Elems(pat), text) <==>
        Matches(Elems(pat[p.m..]), text[p.n..]) || (p.ma >= 0 && LaterStart(Elems(pat[p.ma..]), text, p.na)))
    && (p.ma >= 0 ==> Segment(seg, Elems(pat[p.m..]), Elems(pat[p.ma..]), text, p.na, p.n))
    && (p.just ==> p.ma >= 0 && forall i :: 0 <= i < |seg| ==> seg[i] == One)
  }

  lemma StarStep(pat: string, text: string, p: Position, seg: seq<Elem>)
    requires CString(pat) && Invariant(pat, text, p, seg) && At(pat, p.m) == '*'
    ensures Invariant(pat, text, Position(p.m + 1, p.n, p.m + 1, p.n, true), [])
  {
    ReadsOneElement(pat, p.m);
    if p.ma >= 0 && LaterStart(Elems(pat[p.ma..]), text, p.na) {
      NewStarSubsumes(seg, Elems(pat[p.m..]), Elems(pat[p.ma..]), text, p.na, p.n);
    }
    StarSplit(Elems(pat[p.m..]), text, p.n);
  }

  lemma ElementReadsCharacter(e: Elem, rest: seq<Elem>, text: string, n: nat)
    requires n < |text| && !e.Star?
    ensures Matches([e] + rest, text[n..]) <==> Fits(e, [text[n]]) && Matches(rest, text[n + 1..])
  {}

  lemma SegmentGrows(seg: seq<Elem>, e: Elem, rest: seq<Elem>, whole: seq<Elem>, text: string, na: nat, n: nat)
    requires Segment(seg, [e] + rest, whole, text, na, n) && n < |text| && !e.Star?
    ensures Segment(seg + [e], rest, whole, text, na, n + 1)
  {}

  /** One character of text is read by one element of the pattern, ending at position `m`. */
  lemma ReadStep(pat: string, text: string, p: Position, seg: seq<Elem>, e: Elem, m: nat, just: bool)
    requires Invariant(pat, text, p, seg) && p.n < |text| && p.m < m <= |pat|
    requires Elems(pat[p.m..]) == [e] + Elems(pat[m..]) && !e.Star? && Fits(e, [text[p.n]])
    requires just ==> p.just && e == One
    ensures Invariant(pat, text, Position(m, p.n + 1, p.ma, p.na, just), seg + [e])
  {
    var rest := Elems(pat[m..]);
    ElementReadsCharacter(e, rest, text, p.n);
    if p.ma >= 0 {
      SegmentGrows(seg, e, rest, Elems(pat[p.ma..]), text, p.na, p.n);
    }
  }

  /** What the character at the text position must be for the rest of the pattern to go on. */
  ghost predicate Stuck(pat: string, text: string, m: nat, n: nat)
    requires m <= |pat| && n <= |text|
  {
    if m == |pat| then n < |text|
    else if pat[m] == '?' then n == |text|
    else if pat[m] == '\\' then m + 1 == |pat| || n == |text| || pat[m + 1] != text[n]
    else pat[m] != '*' && (n == |text| || pat[m] != text[n])
  }

  lemma StuckCannotMatch(pat: string, text: string, m: nat, n: nat)
    requires CString(pat) && m <= |pat| && n <= |text| && Stuck(pat, text, m, n)
    ensures !Matches(Elems(pat[m..]), text[n..])
  {}

  lemma {:induction false} QuestionStep(pat: string, text: string, p: Position, seg: seq<Elem>)
    requires CString(pat) && Invariant(pat, text, p, seg) && p.n < |text| && At(pat, p.m) == '?'
    ensures Invariant(pat, text, Position(p.m + 1, p.n + 1, p.ma, p.na, p.just), seg + [One])
  {
    ReadsOneElement(pat, p.m);
    ReadStep(pat, text, p, seg, One, p.m + 1, p.just);
  }

  lemma LiteralStep(pat: string, text: string, p: Position, seg: seq<Elem>, m: nat)
    requires CString(pat) && Invariant(pat, text, p, seg) && p.n < |text| && p.m <= m < |pat|
    requires if pat[p.m] == '\\' then m == p.m + 1 else m == p.m && pat[m] !in {'*', '?'}
    requires pat[m] == text[p.n]
    ensures Invariant(pat, text, Position(m + 1, p.n + 1, p.ma, p.na, false), seg + [Lit(pat[m])])
  {
    ReadsOneElement(pat, p.m);
    ReadStep(pat, text, p, seg, Lit(pat[m]), m + 1, false);
  }

  /** The rest cannot match here: go back to the last star and let it take one more character. */
  lemma BacktrackStep(pat: string, text: string, p: Position, seg: seq<Elem>)
    requires CString(pat) && Invariant(pat, text, p, seg) && p.n < |text| && Stuck(pat, text, p.m, p.n)
    ensures if p.ma >= 0 then Invariant(pat, text, Position(p.ma, p.na + 1, p.ma, p.na + 1, false), [])
            else !Matches(Elems(pat), text)
  {
    StuckCannotMatch(pat, text, p.m, p.n);
    if p.ma >= 0 {
      NextStart(Elems(pat[p.ma..]), text, p.na);
    }
  }

  /** The text is used up, or an escape dangles, and the rest cannot match: no match at all. */
  lemma NoMatchLeft(pat: string, text: string, p: Position, seg: seq<Elem>)
    requires CString(pat) && Invariant(pat, text, p, seg) && Stuck(pat, text, p.m, p.n)
    requires p.n == |text| || (p.m + 1 == |pat| && pat[p.m] == '\\')
    ensures !Matches(Elems(pat), text)
  {
    StuckCannotMatch(pat, text, p.m, p.n);
    if p.ma >= 0 {
      if p.n == |text| {
        NoRoomLater(seg, Elems(pat[p.m..]), Elems(pat[p.ma..]), text, p.na);
      } else {
        DanglingNeverMatches(seg, Elems(pat[p.ma..]), text, p.na);
      }
    }
  }

  lemma PatternExhausted(pat: string, text: string, p: Position, seg: seq<Elem>)
    requires Invariant(pat, text, p, seg) && p.m == |pat|
    requires p.n == |text| || p.just
    ensures Matches(Elems(pat), text)
  {
    if p.n < |text| {
      assert Elems(pat[p.ma..]) == seg;
      SlideToEnd(seg, text, p.na, p.n);
    }
  }

  /** The matcher, backtracking only to the last star seen, decides the declarative relation. */
  method Match(pat: string, text: string, dotSpecial: bool) returns (matched: bool)
    requires CString(pat) && CString(text)
    ensures matched == Accepts(pat, text, dotSpecial)
  {
    hide Matches, Elems, LaterStart, Segment;
    if At(text, 0) == NUL {
      return At(pat, 0) == NUL;
    }
    var m, n: nat := 0, 0;
    var ma: int, na: int := -1, -1;  // the position after the last star, and the text position it was read at
    var just := false;
    if dotSpecial && At(text, n) == '.' {
      return false;
    }
    ghost var seg: seq<Elem> := [];
    assert pat[0..] == pat && text[0..] == text;
    while true
      invariant Invariant(pat, text, Position(m, n, ma, na, just), seg)
      decreases |pat| - ma, |text| - na, |pat| - m
    {
      ghost var p := Position(m, n, ma, na, just);
      if At(pat, m) == '*' {
        StarStep(pat, text, p, seg);
        m := m + 1;
        ma, na, just, seg := m, n, true, [];
      } else if At(pat, m) == '?' {
        m := m + 1;
        if At(text, n) == NUL {
          NoMatchLeft(pat, text, p, seg);
          return false;
        }
        n := n + 1;
        QuestionStep(pat, text, p, seg);
        seg := seg + [One];
      } else {
        if At(pat, m) == '\\' {
          m := m + 1;
          if At(pat, m) == NUL {
            NoMatchLeft(pat, text, p, seg);
            return false;
          }
        }
        var mismatch := true;
        if At(pat, m) == NUL {
          if At(text, n) == NUL || just {
            PatternExhausted(pat, text, p, seg);
            return true;
          }
        } else {
          just := false;
          if At(pat, m) == At(text, n) {
            LiteralStep(pat, text, p, seg, m);
            seg := seg + [Lit(pat[m])];
            m, n, mismatch := m + 1, n + 1, false;
          }
        }
        if mismatch {
          if At(text, n) == NUL {
            NoMatchLeft(pat, text, p, seg);
            return false;
          }
          BacktrackStep(pat, text, p, seg);
          if ma < 0 {
            return false;
          }
          na := na + 1;
          m, n, seg := ma, na, [];
        }
      }
    }
  }
}
