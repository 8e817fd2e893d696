/** common/common.cpp: ExpandTextVars, the replacement of `${name}` in a text. */
module TextVars {
  import opened Wrappers

  type Resolver = string -> Option<string>

  /** The first closing brace from i on, or the end of the text. */
  function CloseAt(s: string, i: nat): (e: nat)
    requires i <= |s|
    ensures i <= e <= |s| && '}' !in s[i..e] && (e < |s| ==> s[e] == '}')
    decreases |s| - i
  {
    if i < |s| && s[i] != '}' then
      var e := CloseAt(s, i + 1);
      assert s[i..e] == [s[i]] + s[i + 1..e];
      e
    else i
  }

  predicate OpensAt(s: string, i: nat) {
    i + 1 < |s| && s[i] == '$' && s[i + 1] == '{'
  }

  /** What a reference is written as: its value, the reference again, or nothing for an empty name. */
  function Written(resolver: Resolver, name: string): string {
    if name == "" then ""
    else match resolver(name)
         case Some(value) => value
         case None => "${" + name + "}"
  }

  function ExpandFrom(s: string, i: nat, resolver: Resolver): string
    requires i <= |s|
    decreases |s| - i
  {
    if i == |s| then ""
    else if OpensAt(s, i) then
      var e := CloseAt(s, i + 2);
      Written(resolver, s[i + 2..e]) + ExpandFrom(s, After(s, e), resolver)
    else [s[i]] + ExpandFrom(s, i + 1, resolver)
  }

  function After(s: string, e: nat): (n: nat)
    requires e <= |s|
    ensures e <= n <= |s|
  {
    if e < |s| then e + 1 else e
  }

  lemma UnfoldReference(s: string, i: nat, resolver: Resolver)
    requires OpensAt(s, i)
    ensures var e := CloseAt(s, i + 2);
            ExpandFrom(s, i, resolver) == Written(resolver, s[i + 2..e]) + ExpandFrom(s, After(s, e), resolver)
  {}

  lemma UnfoldChar(s: string, i: nat, resolver: Resolver)
    requires i < |s| && !OpensAt(s, i)
    ensures ExpandFrom(s, i, resolver) == [s[i]] + ExpandFrom(s, i + 1, resolver)
  {}

  lemma UnfoldEnd(s: string, resolver: Resolver)
    ensures ExpandFrom(s, |s|, resolver) == ""
  {}

  method ExpandTextVars(source: string, resolver: Resolver) returns (newbuf: string)
    ensures newbuf == ExpandFrom(source, 0, resolver)
  {
    hide ExpandFrom;
    newbuf := "";
    var i: nat := 0;
    assert newbuf + ExpandFrom(source, 0, resolver) == ExpandFrom(source, 0, resolver);
    while i < |source|
      invariant i <= |source|
      invariant newbuf + ExpandFrom(source, i, resolver) == ExpandFrom(source, 0, resolver)
    {
      ghost var before, at := newbuf, i;
      if source[i] == '$' && i + 1 < |source| && source[i + 1] == '{' {
        var token;
        token, i := ReadToken(source, i + 2);
        UnfoldReference(source, at, resolver);
        var written := Write(token, resolver);
        newbuf := newbuf + written;
        if i < |source| {
          i := i + 1;
        }
        Regroup(before, written, ExpandFrom(source, i, resolver));
      } else {
        UnfoldChar(source, i, resolver);
        newbuf := newbuf + [source[i]];
        i := i + 1;
        Regroup(before, [source[at]], ExpandFrom(source, i, resolver));
      }
    }
    UnfoldEnd(source, resolver);
    assert newbuf + "" == newbuf;
  }

  /** The name up to the closing brace or the end of the text. */
  method ReadToken(source: string, start: nat) returns (token: string, i: nat)
    requires start <= |source|
    ensures i == CloseAt(source, start) && token == source[start..i]
  {
    token, i := "", start;
    while i < |source| && source[i] != '}'
      invariant start <= i <= |source| && token == source[start..i]
      invariant CloseAt(source, i) == CloseAt(source, start)
    {
      token := token + [source[i]];
      i := i + 1;
    }
  }

  method Write(token: string, resolver: Resolver) returns (written: string)
    ensures written == Written(resolver, token)
  {
    written := "";
    if token != "" {
      var value := resolver(token);
      if value.Some? {
        written := value.value;
      } else {
        written := "${" + token + "}";
      }
    }
  }

  lemma Regroup(a: string, b: string, c: string)
    ensures a + (b + c) == a + b + c
  {}

  // ----- texts as lists of parts -----

  datatype Part = Char(c: char) | Reference(name: string)

  function Show(p: Part): string {
    match p
    case Char(c) => [c]
    case Reference(name) => "${" + name + "}"
  }

  function Render(parts: seq<Part>): string {
    if parts == [] then "" else Show(parts[0]) + Render(parts[1..])
  }

  function Resolve(p: Part, resolver: Resolver): string {
    match p
    case Char(c) => [c]
    case Reference(name) => Written(resolver, name)
  }

  function RenderResolved(parts: seq<Part>, resolver: Resolver): string {
    if parts == [] then "" else Resolve(parts[0], resolver) + RenderResolved(parts[1..], resolver)
  }

  /** References have a name without a brace, and no two characters look like the start of one. */
  predicate WellFormed(parts: seq<Part>) {
    && (forall k :: 0 <= k < |parts| && parts[k].Reference? ==> parts[k].name != "" && '}' !in parts[k].name)
    && (forall k :: 0 <= k < |parts| - 1 && parts[k] == Char('$') ==> parts[k + 1] != Char('{'))
  }

  lemma {:induction false} CloseIs(s: string, i: nat, e: nat)
    requires i <= e < |s| && '}' !in s[i..e] && s[e] == '}'
    ensures CloseAt(s, i) == e
    decreases e - i
  {
    if i < e {
      assert s[i..e][0] == s[i] && s[i + 1..e] == s[i..e][1..];
      CloseIs(s, i + 1, e);
    }
  }

  lemma DropFront(s: string, i: nat, a: string, b: string)
    requires i <= |s| && s[i..] == a + b
    ensures i + |a| <= |s| && s[i + |a|..] == b && s[i..i + |a|] == a
  {
    assert s[i + |a|..] == s[i..][|a|..];
    assert s[i..i + |a|] == s[i..][..|a|];
  }

  /** A reference in front of anything. */
  lemma ExpandReference(s: string, i: nat, name: string, rest: string, resolver: Resolver)
    requires i <= |s| && s[i..] == Show(Reference(name)) + rest && '}' !in name
    ensures ExpandFrom(s, i, resolver) == Written(resolver, name) + ExpandFrom(s, i + |name| + 3, resolver)
    ensures i + |name| + 3 <= |s| && s[i + |name| + 3..] == rest
  {
    hide ExpandFrom, CloseAt, Written, OpensAt;
    ShowLength(name);
    hide Show;
    DropFront(s, i, Show(Reference(name)), rest);
    ReferenceText(s, i, name);
    CloseIs(s, i + 2, i + 2 + |name|);
    UnfoldReference(s, i, resolver);
  }

  lemma ShowLength(name: string)
    ensures |Show(Reference(name))| == |name| + 3
  {}

  lemma ReferenceText(s: string, i: nat, name: string)
    requires i + |name| + 3 <= |s| && s[i..i + |name| + 3] == Show(Reference(name))
    ensures OpensAt(s, i) && s[i + 2..i + 2 + |name|] == name && s[i + 2 + |name|] == '}'
  {
    var t := "${" + name + "}";
    assert forall k :: 0 <= k < |t| ==> s[i + k] == s[i..i + |t|][k] == t[k];
    assert s[i + 0] == t[0] && s[i + 1] == t[1] && s[i + (|name| + 2)] == t[|name| + 2];
    assert forall k :: 0 <= k < |name| ==> s[i + (k + 2)] == t[k + 2] == name[k];
  }

  lemma ExpandChar(s: string, i: nat, c: char, rest: string, resolver: Resolver)
    requires i <= |s| && s[i..] == [c] + rest && (c == '$' && rest != "" ==> rest[0] != '{')
    ensures i + 1 <= |s| && s[i + 1..] == rest
    ensures ExpandFrom(s, i, resolver) == [c] + ExpandFrom(s, i + 1, resolver)
  {
    hide ExpandFrom;
    DropFront(s, i, [c], rest);
    assert s[i] == s[i..][0];
    if i + 1 < |s| { assert s[i + 1] == s[i + 1..][0]; }
    UnfoldChar(s, i, resolver);
  }

  lemma RenderedStart(parts: seq<Part>)
    ensures Render(parts) != "" && Render(parts)[0] == '{' ==> parts != [] && parts[0] == Char('{')
  {}

  lemma FirstPart(parts: seq<Part>)
    requires parts != [] && WellFormed(parts)
    ensures WellFormed(parts[1..]) && Render(parts) == Show(parts[0]) + Render(parts[1..])
    ensures parts[0].Reference? ==> '}' !in parts[0].name
    ensures parts[0] == Char('$') && Render(parts[1..]) != "" ==> Render(parts[1..])[0] != '{'
  {
    RenderedStart(parts[1..]);
  }

  /** The first part, and where the others start. */
  lemma ExpandsFirst(s: string, i: nat, parts: seq<Part>, resolver: Resolver) returns (next: nat)
    requires parts != [] && WellFormed(parts) && i <= |s| && s[i..] == Render(parts)
    ensures next <= |s| && s[next..] == Render(parts[1..]) && WellFormed(parts[1..])
    ensures ExpandFrom(s, i, resolver) == Resolve(parts[0], resolver) + ExpandFrom(s, next, resolver)
  {
    hide ExpandFrom, Written, Render, WellFormed;
    FirstPart(parts);
    match parts[0] {
      case Reference(name) =>
        ExpandReference(s, i, name, Render(parts[1..]), resolver);
        next := i + |name| + 3;
      case Char(c) =>
        ExpandChar(s, i, c, Render(parts[1..]), resolver);
        next := i + 1;
    }
  }

  /** A text made of parts expands part by part. */
  lemma {:induction false} ExpandsByParts(s: string, i: nat, parts: seq<Part>, resolver: Resolver)
    requires WellFormed(parts) && i <= |s| && s[i..] == Render(parts)
    ensures ExpandFrom(s, i, resolver) == RenderResolved(parts, resolver)
    decreases |parts|
  {
    hide ExpandFrom, RenderResolved, WellFormed, Resolve;
    ResolvedFirst(parts, resolver);
    if parts == [] {
      assert i == |s|;
      UnfoldEnd(s, resolver);
    } else {
      var next := ExpandsFirst(s, i, parts, resolver);
      hide Render;
      ExpandsByParts(s, next, parts[1..], resolver);
    }
  }

  lemma ResolvedFirst(parts: seq<Part>, resolver: Resolver)
    ensures RenderResolved(parts, resolver) ==
            if parts == [] then "" else Resolve(parts[0], resolver) + RenderResolved(parts[1..], resolver)
  {}

  // ----- the same, spelled out -----

  /** A reference anywhere in a text: the value of a resolved name, the reference again for another,
      nothing for the empty name. */
  lemma ReferenceExpands(s: string, i: nat, name: string, rest: string, resolver: Resolver)
    requires i <= |s| && s[i..] == "${" + name + "}" + rest && '}' !in name
    ensures i + |name| + 3 <= |s| && s[i + |name| + 3..] == rest
    ensures name == "" ==> ExpandFrom(s, i, resolver) == ExpandFrom(s, i + 3, resolver)
    ensures name != "" && resolver(name).Some? ==>
              ExpandFrom(s, i, resolver) == resolver(name).value + ExpandFrom(s, i + |name| + 3, resolver)
    ensures name != "" && resolver(name).None? ==>
              ExpandFrom(s, i, resolver) == "${" + name + "}" + ExpandFrom(s, i + |name| + 3, resolver)
  {
    ExpandReference(s, i, name, rest, resolver);
    hide ExpandFrom;
    assert "" + ExpandFrom(s, i + |name| + 3, resolver) == ExpandFrom(s, i + |name| + 3, resolver);
  }

  /** A reference that the text breaks off is taken as if it were closed. */
  lemma OpenReferenceExpands(s: string, i: nat, name: string, resolver: Resolver)
    requires i <= |s| && s[i..] == "${" + name && '}' !in name
    ensures ExpandFrom(s, i, resolver) ==
            if name == "" then "" else if resolver(name).Some? then resolver(name).value else "${" + name + "}"
  {
    var t := s[i..];
    assert |t| == |name| + 2 && s[i] == t[0] == '$' && s[i + 1] == t[1] == '{';
    assert s[i + 2..] == t[2..] == name;
    BreaksOff(s, i + 2);
    UnfoldReference(s, i, resolver);
    UnfoldEnd(s, resolver);
    hide ExpandFrom, CloseAt;
    assert s[i + 2..|s|] == name;
    assert Written(resolver, name) + "" == Written(resolver, name);
  }

  lemma {:induction false} BreaksOff(s: string, i: nat)
    requires i <= |s| && '}' !in s[i..]
    ensures CloseAt(s, i) == |s|
    decreases |s| - i
  {
    if i < |s| {
      assert s[i..][0] == s[i] && s[i + 1..] == s[i..][1..];
      BreaksOff(s, i + 1);
    }
  }

  function Concat(texts: seq<string>): string {
    if texts == [] then "" else texts[0] + Concat(texts[1..])
  }

  /** A text is written as its characters and closed, named references, and no two characters look like
      the start of a reference. Its expansion is made of the same characters, of the values of the names
      that resolve, and of the other references as they were. */
  lemma {:induction false} ExpandsSpelled(parts: seq<Part>, written: seq<string>, results: seq<string>,
                                          resolver: Resolver)
    requires |written| == |results| == |parts|
    requires forall k :: 0 <= k < |parts| - 1 ==> !(parts[k] == Char('$') && parts[k + 1] == Char('{'))
    requires forall k :: 0 <= k < |parts| ==>
               match parts[k]
               case Char(c) => written[k] == [c] && results[k] == [c]
               case Reference(name) =>
                 && name != "" && '}' !in name && written[k] == "${" + name + "}"
                 && results[k] == if resolver(name).Some? then resolver(name).value else "${" + name + "}"
    ensures ExpandFrom(Concat(written), 0, resolver) == Concat(results)
  {
    RenderIsConcat(parts, written, results, resolver);
    var s := Concat(written);
    assert s[0..] == s;
    ExpandsByParts(s, 0, parts, resolver);
  }

  lemma {:induction false} RenderIsConcat(parts: seq<Part>, written: seq<string>, results: seq<string>,
                                          resolver: Resolver)
    requires |written| == |results| == |parts|
    requires forall k :: 0 <= k < |parts| ==> written[k] == Show(parts[k]) && results[k] == Resolve(parts[k], resolver)
    ensures Concat(written) == Render(parts) && Concat(results) == RenderResolved(parts, resolver)
    decreases |parts|
  {
    hide Show, Resolve;
    if parts != [] { RenderIsConcat(parts[1..], written[1..], results[1..], resolver); }
  }

  // ----- when an unresolved text is left alone -----

  function Nothing(name: string): Option<string> {
    None
  }

  /** At most the closing brace of an unterminated reference is added. */
  lemma {:induction false} GrowsByOne(s: string, i: nat)
    requires i <= |s|
    ensures |ExpandFrom(s, i, Nothing)| <= |s| - i + 1
    decreases |s| - i
  {
    hide ExpandFrom, CloseAt;
    if i == |s| {
      UnfoldEnd(s, Nothing);
    } else if OpensAt(s, i) {
      UnfoldReference(s, i, Nothing);
      UnfoldEnd(s, Nothing);
      GrowsByOne(s, After(s, CloseAt(s, i + 2)));
    } else {
      UnfoldChar(s, i, Nothing);
      GrowsByOne(s, i + 1);
    }
  }

  /** The parts of a text that expansion leaves alone. */
  lemma {:induction false} UnchangedHasParts(s: string, i: nat) returns (parts: seq<Part>)
    requires i <= |s| && ExpandFrom(s, i, Nothing) == s[i..]
    ensures WellFormed(parts) && Render(parts) == s[i..]
    decreases |s| - i
  {
    hide ExpandFrom, CloseAt, WellFormed, Show;
    if i == |s| {
      parts := NoParts();
    } else if OpensAt(s, i) {
      var e := CloseAt(s, i + 2);
      UnchangedReference(s, i, e);
      var rest := UnchangedHasParts(s, e + 1);
      parts := [Reference(s[i + 2..e])] + rest;
      PrependPart(Reference(s[i + 2..e]), rest);
    } else {
      UnchangedChar(s, i);
      var rest := UnchangedHasParts(s, i + 1);
      parts := [Char(s[i])] + rest;
      CharBefore(s, i, rest);
      PrependPart(Char(s[i]), rest);
    }
  }

  lemma NoParts() returns (parts: seq<Part>)
    ensures parts == [] && WellFormed(parts) && Render(parts) == ""
  {
    parts := [];
  }

  lemma UnchangedChar(s: string, i: nat)
    requires i < |s| && !OpensAt(s, i) && ExpandFrom(s, i, Nothing) == s[i..]
    ensures ExpandFrom(s, i + 1, Nothing) == s[i + 1..]
  {
    UnfoldChar(s, i, Nothing);
    hide ExpandFrom;
    var t := ExpandFrom(s, i + 1, Nothing);
    assert t == ([s[i]] + t)[1..] == s[i..][1..] == s[i + 1..];
  }

  lemma CharBefore(s: string, i: nat, rest: seq<Part>)
    requires i < |s| && !OpensAt(s, i) && Render(rest) == s[i + 1..]
    ensures s[i] == '$' && rest != [] ==> rest[0] != Char('{')
    ensures Show(Char(s[i])) + Render(rest) == s[i..]
  {
    if rest != [] && rest[0] == Char('{') { assert s[i + 1] == s[i + 1..][0] == Render(rest)[0]; }
  }

  lemma PrependPart(p: Part, rest: seq<Part>)
    requires WellFormed(rest)
    requires p.Reference? ==> p.name != "" && '}' !in p.name
    requires p == Char('$') && rest != [] ==> rest[0] != Char('{')
    ensures WellFormed([p] + rest) && Render([p] + rest) == Show(p) + Render(rest)
  {
    assert ([p] + rest)[1..] == rest;
  }

  lemma WrittenLength(name: string)
    ensures |Written(Nothing, name)| == if name == "" then 0 else |name| + 3
    ensures name != "" ==> Written(Nothing, name) == Show(Reference(name))
  {}

  lemma Cut(s: string, i: nat, front: string, t: string)
    requires i <= |s| && front + t == s[i..]
    ensures i + |front| + |t| == |s| && t == s[i + |front|..]
  {
    assert |front + t| == |s[i..]|;
    assert t == (front + t)[|front|..] == s[i..][|front|..];
  }

  /** What is written for a reference fits the text only if the reference is terminated and named. */
  lemma LeftAlone(s: string, i: nat, e: nat, t: string)
    requires i + 2 <= e <= |s|
    requires Written(Nothing, s[i + 2..e]) + t == s[i..] && |t| <= |s| - After(s, e) + 1
    ensures e < |s| && e > i + 2 && t == s[e + 1..]
    ensures s[i..] == Show(Reference(s[i + 2..e])) + s[e + 1..]
  {
    hide Written, Show;
    WrittenLength(s[i + 2..e]);
    Cut(s, i, Written(Nothing, s[i + 2..e]), t);
  }

  /** A reference left alone is terminated and named. */
  lemma UnchangedReference(s: string, i: nat, e: nat)
    requires i < |s| && OpensAt(s, i) && e == CloseAt(s, i + 2) && ExpandFrom(s, i, Nothing) == s[i..]
    ensures e < |s| && e > i + 2 && ExpandFrom(s, e + 1, Nothing) == s[e + 1..]
    ensures s[i..] == Show(Reference(s[i + 2..e])) + s[e + 1..] && '}' !in s[i + 2..e]
  {
    hide ExpandFrom, Written, Show, CloseAt, OpensAt;
    UnfoldReference(s, i, Nothing);
    GrowsByOne(s, After(s, e));
    LeftAlone(s, i, e, ExpandFrom(s, After(s, e), Nothing));
  }

  /** With nothing resolved a text is left unchanged exactly when all its references are terminated
      and named: `${}` disappears, and an unterminated one is closed. */
  lemma UnresolvedUnchangedIff(s: string)
    ensures ExpandFrom(s, 0, Nothing) == s <==> exists parts :: WellFormed(parts) && Render(parts) == s
  {
    assert s[0..] == s;
    if ExpandFrom(s, 0, Nothing) == s {
      var parts := UnchangedHasParts(s, 0);
    }
    forall parts | WellFormed(parts) && Render(parts) == s
      ensures ExpandFrom(s, 0, Nothing) == s
    {
      ExpandsByParts(s, 0, parts, Nothing);
      UnresolvedRender(parts);
    }
  }

  lemma {:induction false} UnresolvedRender(parts: seq<Part>)
    requires WellFormed(parts)
    ensures RenderResolved(parts, Nothing) == Render(parts)
  {
    if parts != [] { UnresolvedRender(parts[1..]); }
  }
}
