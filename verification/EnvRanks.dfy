/** common/common.cpp: KIwxExpandEnvVars where variables mention only variables of lower rank, so that
    no variable mentions itself, however indirectly. */
module EnvRanks {
  import opened EnvExpansion

  /** A character that a pass copies, or a reference `${name}`. */
  datatype Part = Char(c: char) | Ref(name: string)

  function Show(p: Part): string {
    match p
    case Char(c) => [c]
    case Ref(name) => "${" + name + "}"
  }

  function Render(parts: seq<Part>): string {
    if parts == [] then "" else Show(parts[0]) + Render(parts[1..])
  }

  type Rank = string -> nat

  ghost predicate PartBelow(env: Env, rank: Rank, p: Part, r: nat) {
    match p
    case Char(c) => c != '$' && c != '\\'
    case Ref(name) => IsVariableName(env, name) && (env.lookup(name).Missing? || rank(name) < r)
  }

  /** A text whose known references are to variables of a rank below r. */
  ghost predicate Below(env: Env, rank: Rank, parts: seq<Part>, r: nat) {
    forall i :: 0 <= i < |parts| ==> PartBelow(env, rank, parts[i], r)
  }

  ghost predicate Spells(env: Env, rank: Rank, parts: seq<Part>, r: nat, text: string) {
    Below(env, rank, parts, r) && Render(parts) == text
  }

  /** Every variable stands for a text that mentions only variables of lower rank. */
  ghost predicate Ranked(env: Env, rank: Rank) {
    forall name | IsVariableName(env, name) && env.lookup(name).Value? ::
      exists parts :: Spells(env, rank, parts, rank(name), env.lookup(name).text)
  }

  ghost function PartsOf(env: Env, rank: Rank, name: string): (parts: seq<Part>)
    requires Ranked(env, rank) && IsVariableName(env, name) && env.lookup(name).Value?
    ensures Spells(env, rank, parts, rank(name), env.lookup(name).text)
  {
    var parts :| Spells(env, rank, parts, rank(name), env.lookup(name).text);
    parts
  }

  /** The text with every reference replaced by the full text of its variable. */
  ghost function Full(env: Env, rank: Rank, parts: seq<Part>, r: nat): string
    requires Ranked(env, rank) && Below(env, rank, parts, r)
    decreases r, |parts|
  {
    if parts == [] then ""
    else
      assert PartBelow(env, rank, parts[0], r);
      FullPart(env, rank, parts[0], r) + Full(env, rank, parts[1..], r)
  }

  ghost function FullPart(env: Env, rank: Rank, p: Part, r: nat): string
    requires Ranked(env, rank) && PartBelow(env, rank, p, r)
    decreases r, 0
  {
    match p
    case Char(c) => [c]
    case Ref(name) =>
      match env.lookup(name)
      case Value(_) => Full(env, rank, PartsOf(env, rank, name), rank(name))
      case Missing => Show(p)
      case NoModelDir => "}"
  }

  /** What one pass writes for a part. */
  ghost function PassedPart(env: Env, rank: Rank, p: Part, r: nat): seq<Part>
    requires Ranked(env, rank) && PartBelow(env, rank, p, r)
  {
    match p
    case Char(_) => [p]
    case Ref(name) =>
      match env.lookup(name)
      case Value(_) => PartsOf(env, rank, name)
      case Missing => [p]
      case NoModelDir => [Char('}')]
  }

  ghost function Passed(env: Env, rank: Rank, parts: seq<Part>, r: nat): seq<Part>
    requires Ranked(env, rank) && Below(env, rank, parts, r)
  {
    if parts == [] then []
    else
      assert PartBelow(env, rank, parts[0], r);
      PassedPart(env, rank, parts[0], r) + Passed(env, rank, parts[1..], r)
  }

  function Lower(r: nat): nat {
    if r == 0 then 0 else r - 1
  }

  lemma {:induction false} RenderAppend(a: seq<Part>, b: seq<Part>)
    ensures Render(a + b) == Render(a) + Render(b)
  {
    if a == [] {
      assert a + b == b;
    } else {
      assert (a + b)[1..] == a[1..] + b;
      RenderAppend(a[1..], b);
      Regroup(Show(a[0]), Render(a[1..]), Render(b));
    }
  }

  lemma {:induction false} FullAppend(env: Env, rank: Rank, a: seq<Part>, b: seq<Part>, r: nat)
    requires Ranked(env, rank) && Below(env, rank, a, r) && Below(env, rank, b, r)
    ensures Below(env, rank, a + b, r)
    ensures Full(env, rank, a + b, r) == Full(env, rank, a, r) + Full(env, rank, b, r)
  {
    hide Ranked, PartBelow, FullPart;
    if a == [] {
      assert a + b == b;
    } else {
      assert (a + b)[1..] == a[1..] + b;
      FullAppend(env, rank, a[1..], b, r);
      Regroup(FullPart(env, rank, a[0], r), Full(env, rank, a[1..], r), Full(env, rank, b, r));
    }
  }

  /** The bound on the rank does not matter. */
  lemma {:induction false} FullRaise(env: Env, rank: Rank, parts: seq<Part>, low: nat, high: nat)
    requires Ranked(env, rank) && Below(env, rank, parts, low) && low <= high
    ensures Below(env, rank, parts, high) && Full(env, rank, parts, high) == Full(env, rank, parts, low)
    decreases |parts|
  {
    hide Ranked;
    if parts != [] {
      assert PartBelow(env, rank, parts[0], low);
      FullRaise(env, rank, parts[1..], low, high);
    }
  }

  // ----- a pass -----

  lemma PassedPartKeeps(env: Env, rank: Rank, p: Part, r: nat)
    requires Ranked(env, rank) && PartBelow(env, rank, p, r)
    ensures var after := PassedPart(env, rank, p, r);
            && Below(env, rank, after, Lower(r))
            && Full(env, rank, after, Lower(r)) == FullPart(env, rank, p, r)
            && (r == 0 ==> after == [p])
  {
    hide Ranked;
    if p.Ref? && env.lookup(p.name).Value? {
      FullRaise(env, rank, PartsOf(env, rank, p.name), rank(p.name), Lower(r));
    } else {
      var after := PassedPart(env, rank, p, r);
      assert after[1..] == [] && Full(env, rank, [], Lower(r)) == "";
      assert FullPart(env, rank, after[0], Lower(r)) + "" == FullPart(env, rank, p, r);
    }
  }

  /** A pass lowers the ranks and keeps the full text. */
  lemma {:induction false} PassedKeeps(env: Env, rank: Rank, parts: seq<Part>, r: nat)
    requires Ranked(env, rank) && Below(env, rank, parts, r)
    ensures var after := Passed(env, rank, parts, r);
            && Below(env, rank, after, Lower(r))
            && Full(env, rank, after, Lower(r)) == Full(env, rank, parts, r)
            && (r == 0 ==> after == parts)
    decreases |parts|
  {
    hide Ranked, PartBelow, PassedPart, FullPart;
    if parts != [] {
      assert PartBelow(env, rank, parts[0], r);
      PassedPartKeeps(env, rank, parts[0], r);
      PassedKeeps(env, rank, parts[1..], r);
      FullAppend(env, rank, PassedPart(env, rank, parts[0], r), Passed(env, rank, parts[1..], r), Lower(r));
      assert [parts[0]] + parts[1..] == parts;
    }
  }

  lemma CharacterRead(env: Env, s: string, i: nat, c: char, rest: string)
    requires i <= |s| && s[i..] == [c] + rest && c != '$' && c != '\\'
    ensures i < |s| && s[i + 1..] == rest && PassFrom(env, s, i) == [c] + PassFrom(env, s, i + 1)
  {
    assert s[i] == s[i..][0] == c;
    assert s[i + 1..] == s[i..][1..];
  }

  lemma PartRead(env: Env, rank: Rank, p: Part, r: nat, s: string, i: nat, rest: string) returns (next: nat)
    requires Ranked(env, rank) && PartBelow(env, rank, p, r)
    requires i <= |s| && s[i..] == Show(p) + rest
    ensures next <= |s| && s[next..] == rest
    ensures PassFrom(env, s, i) == Render(PassedPart(env, rank, p, r)) + PassFrom(env, s, next)
  {
    hide Ranked, PassFrom, IsVariableName, Render;
    OnePart(p);
    OnePart(Char('}'));
    match p {
      case Char(c) =>
        next := i + 1;
        CharacterRead(env, s, i, c, rest);
      case Ref(name) =>
        next := i + |name| + 3;
        AnyReference(env, s, i, name, rest);
    }
  }

  lemma OnePart(p: Part)
    ensures Render([p]) == Show(p)
  {
    assert Render([p]) == Show(p) + Render([p][1..]) == Show(p) + "";
  }

  /** A pass over a text writes what its parts become. */
  lemma {:induction false} PassOfParts(env: Env, rank: Rank, parts: seq<Part>, r: nat, s: string, i: nat)
    requires Ranked(env, rank) && Below(env, rank, parts, r)
    requires i <= |s| && s[i..] == Render(parts)
    ensures PassFrom(env, s, i) == Render(Passed(env, rank, parts, r))
    decreases |parts|
  {
    hide Ranked, PartBelow, PassedPart, PassFrom;
    if parts == [] {
      NothingLeft(env, s);
    } else {
      assert PartBelow(env, rank, parts[0], r);
      var next := PartRead(env, rank, parts[0], r, s, i, Render(parts[1..]));
      PassOfParts(env, rank, parts[1..], r, s, next);
      RenderAppend(PassedPart(env, rank, parts[0], r), Passed(env, rank, parts[1..], r));
    }
  }

  // ----- a run -----

  /** What is left of a rank after k passes. */
  function Left(r: nat, k: nat): nat {
    if k <= r then r - k else 0
  }

  lemma {:induction false} AfterPasses(env: Env, rank: Rank, parts: seq<Part>, r: nat, k: nat)
    returns (after: seq<Part>)
    requires Ranked(env, rank) && Below(env, rank, parts, r)
    ensures Below(env, rank, after, Left(r, k)) && Iterate(env, Render(parts), k) == Render(after)
    ensures Full(env, rank, after, Left(r, k)) == Full(env, rank, parts, r)
    ensures Iterate(env, Render(parts), k + 1) == Render(Passed(env, rank, after, Left(r, k)))
  {
    hide Ranked, Below, Render, Full, Passed, Iterate;
    var s := Render(parts);
    if k == 0 {
      after := parts;
      IterateNext(env, s, 0);
    } else {
      var before := AfterPasses(env, rank, parts, r, k - 1);
      after := Passed(env, rank, before, Left(r, k - 1));
      PassedKeeps(env, rank, before, Left(r, k - 1));
    }
    IterateNext(env, s, k);
    WholePass(env, rank, after, Left(r, k));
  }

  lemma WholePass(env: Env, rank: Rank, parts: seq<Part>, r: nat)
    requires Ranked(env, rank) && Below(env, rank, parts, r)
    ensures Pass(env, Render(parts)) == Render(Passed(env, rank, parts, r))
  {
    assert Render(parts)[0..] == Render(parts);
    PassOfParts(env, rank, parts, r, Render(parts), 0);
  }

  /** Without a known reference the text is full. */
  lemma {:induction false} FullAtZero(env: Env, rank: Rank, parts: seq<Part>)
    requires Ranked(env, rank) && Below(env, rank, parts, 0)
    ensures Full(env, rank, parts, 0) == Render(parts)
  {
    hide Ranked;
    if parts != [] {
      assert PartBelow(env, rank, parts[0], 0);
      FullAtZero(env, rank, parts[1..]);
    }
  }

  /** From pass r on, the string is the full text. */
  lemma FullAfterRank(env: Env, rank: Rank, parts: seq<Part>, r: nat, k: nat)
    requires Ranked(env, rank) && Below(env, rank, parts, r) && k >= r
    ensures Iterate(env, Render(parts), k) == Full(env, rank, parts, r)
  {
    hide Ranked, Below, Render, Full, Passed, Iterate;
    var after := AfterPasses(env, rank, parts, r, k);
    FullAtZero(env, rank, after);
  }

  lemma {:induction false} FirstStop(env: Env, s: string, k: nat) returns (stop: nat)
    requires k >= 1 && !GoesOn(env, s, k)
    ensures stop <= k && StopsAt(env, s, stop)
  {
    if i: nat :| 1 <= i < k && !GoesOn(env, s, i) {
      stop := FirstStop(env, s, i);
    } else {
      stop := k;
    }
  }

  lemma {:induction false} Periodic(env: Env, s: string, i: nat, k: nat, j: nat)
    requires Iterate(env, s, i) == Iterate(env, s, k)
    ensures Iterate(env, s, i + j) == Iterate(env, s, k + j)
  {
    hide Iterate, Pass;
    if j > 0 {
      Periodic(env, s, i, k, j - 1);
      IterateNext(env, s, i + j - 1);
      IterateNext(env, s, k + j - 1);
    }
  }

  /** A string seen twice comes back later than any bound. */
  lemma {:induction false} ComesBack(env: Env, s: string, i: nat, k: nat, bound: nat) returns (n: nat)
    requires i < k && Iterate(env, s, i) == Iterate(env, s, k)
    ensures n >= bound && Iterate(env, s, n) == Iterate(env, s, k)
    decreases bound - k
  {
    if k >= bound {
      n := k;
    } else {
      Periodic(env, s, i, k, k - i);
      n := ComesBack(env, s, k, k + (k - i), bound);
    }
  }

  lemma BracketsTrigger(a: string, name: string, b: string)
    ensures Triggers(a + Show(Ref(name)) + b)
  {
    var t := Show(Ref(name));
    var s := a + t + b;
    assert |t| == |name| + 3 && t[1] == '{' && t[|name| + 2] == '}';
    assert s[|a| + 1] == t[1] && s[|a| + (|name| + 2)] == t[|name| + 2];
    assert '{' in OPENERS && '}' in CLOSERS;
  }

  /** A text with a reference in it makes the recursion go on. */
  lemma ReferenceTriggers(parts: seq<Part>, k: nat)
    requires k < |parts| && parts[k].Ref?
    ensures Triggers(Render(parts))
  {
    hide Triggers, Render, Show;
    BracketsTrigger(Render(parts[..k]), parts[k].name, Render(parts[k + 1..]));
    assert parts == parts[..k] + [parts[k]] + parts[k + 1..];
    RenderAppend(parts[..k], [parts[k]]);
    RenderAppend(parts[..k] + [parts[k]], parts[k + 1..]);
    OnePart(parts[k]);
  }

  /** Whenever it stops, the string is the full text: stopping for want of brackets leaves no reference,
      and a string seen twice is the one that all later passes keep. */
  lemma StopsFull(env: Env, rank: Rank, parts: seq<Part>, r: nat, k: nat)
    requires Ranked(env, rank) && Below(env, rank, parts, r) && StopsAt(env, Render(parts), k)
    ensures Iterate(env, Render(parts), k) == Full(env, rank, parts, r)
  {
    hide Ranked, Render, Full, Passed, Iterate, Triggers, PartBelow;
    var s := Render(parts);
    if Triggers(Iterate(env, s, k)) {
      var i: nat :| 1 <= i < k && Iterate(env, s, i) == Iterate(env, s, k);
      var n := ComesBack(env, s, i, k, r);
      FullAfterRank(env, rank, parts, r, n);
    } else {
      var after := AfterPasses(env, rank, parts, r, k);
      NoReferences(env, rank, after, Left(r, k));
      FullRaise(env, rank, after, 0, Left(r, k));
      FullAtZero(env, rank, after);
    }
  }

  lemma NoReferences(env: Env, rank: Rank, parts: seq<Part>, r: nat)
    requires Below(env, rank, parts, r) && !Triggers(Render(parts))
    ensures Below(env, rank, parts, 0)
  {
    forall i | 0 <= i < |parts|
      ensures PartBelow(env, rank, parts[i], 0)
    {
      if parts[i].Ref? { ReferenceTriggers(parts, i); }
    }
  }

  /** Where variables mention only variables of lower rank, every expansion ends, after at most one pass
      more than the ranks involved, or two, and yields the text with every reference replaced by the
      full text of its variable. */
  lemma RankedExpands(env: Env, rank: Rank, parts: seq<Part>, r: nat)
    requires Ranked(env, rank) && Below(env, rank, parts, r)
    ensures Terminates(env, Render(parts))
    ensures forall k: nat :: StopsAt(env, Render(parts), k) ==>
              k <= (if r == 0 then 2 else r + 1) && Iterate(env, Render(parts), k) == Full(env, rank, parts, r)
  {
    hide Ranked, Below, Render, Full, Iterate, Triggers;
    var s, m := Render(parts), if r == 0 then 1 else r;
    FullAfterRank(env, rank, parts, r, m);
    FullAfterRank(env, rank, parts, r, m + 1);
    assert Iterate(env, s, m) == Iterate(env, s, m + 1);
    var stop := FirstStop(env, s, m + 1);
    forall k: nat | StopsAt(env, s, k)
      ensures k <= m + 1 && Iterate(env, s, k) == Full(env, rank, parts, r)
    {
      StopUnique(env, s, k, stop);
      StopsFull(env, rank, parts, r, k);
    }
  }
}
