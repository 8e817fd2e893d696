/** The wildcard language shared by the two wildcard engines.

    A pattern is read into a sequence of elements; what it means for a text to match is
    stated on elements, so the two engines differ only in how they read a pattern. */
module Glob {

  datatype Elem =
    | Star          // any run of characters
    | One           // exactly one character
    | Lit(c: char)  // the character c
    | Never         // a dangling escape: matches nothing

  predicate Fits(e: Elem, part: string) {
    match e
    case Star => true
    case One => |part| == 1
    case Lit(c) => part == [c]
    case Never => false
  }

  function Concat(parts: seq<string>): string {
    if parts == [] then "" else parts[0] + Concat(parts[1..])
  }

  /** `parts` cuts `t` into one piece per element, each piece fitting its element. */
  ghost predicate Splits(es: seq<Elem>, parts: seq<string>, t: string) {
    && |parts| == |es|
    && Concat(parts) == t
    && forall i :: 0 <= i < |es| ==> Fits(es[i], parts[i])
  }

  /** The meaning of a pattern, by recursion. */
  predicate Matches(es: seq<Elem>, t: string)
    decreases |es| + |t|
  {
    if es == [] then t == ""
    else if es[0].Star? then Matches(es[1..], t) || (t != "" && Matches(es, t[1..]))
    else t != "" && Fits(es[0], t[..1]) && Matches(es[1..], t[1..])
  }

  /** The recursive meaning is the declarative one: some cut of the text fits the pattern. */
  lemma {:induction false} MatchesIffSplits(es: seq<Elem>, t: string)
    ensures Matches(es, t) <==> exists parts :: Splits(es, parts, t)
  {
    if Matches(es, t) {
      var parts := Cut(es, t);
    }
    forall parts | Splits(es, parts, t)
      ensures Matches(es, t)
    {
      Join(es, parts, t);
    }
  }

  lemma {:induction false} Cut(es: seq<Elem>, t: string) returns (parts: seq<string>)
    requires Matches(es, t)
    ensures Splits(es, parts, t)
    decreases |es| + |t|
  {
    if es == [] {
      parts := [];
    } else if es[0].Star? && !Matches(es[1..], t) {
      var rest := Cut(es, t[1..]);
      parts := [t[..1] + rest[0]] + rest[1..];
      assert t == t[..1] + t[1..];
    } else {
      var k := if es[0].Star? then 0 else 1;
      var rest := Cut(es[1..], t[k..]);
      parts := [t[..k]] + rest;
      assert t == t[..k] + t[k..];
    }
  }

  lemma {:induction false} Join(es: seq<Elem>, parts: seq<string>, t: string)
    requires Splits(es, parts, t)
    ensures Matches(es, t)
    decreases |es|
  {
    if es != [] {
      var rest := Concat(parts[1..]);
      forall i | 0 <= i < |es[1..]|
        ensures Fits(es[1..][i], parts[1..][i])
      {
        assert Fits(es[i + 1], parts[i + 1]);
      }
      Join(es[1..], parts[1..], rest);
      assert Fits(es[0], parts[0]);
      if es[0].Star? {
        assert t[|parts[0]|..] == rest;
        StarAbsorbs(es, t, |parts[0]|);
      } else {
        assert t[..1] == parts[0] && t[1..] == rest;
      }
    }
  }

  /** A leading star may swallow any prefix of the text. */
  lemma {:induction false} StarAbsorbs(es: seq<Elem>, t: string, k: nat)
    requires es != [] && es[0].Star? && k <= |t|
    requires Matches(es, t[k..]) || Matches(es[1..], t[k..])
    ensures Matches(es, t)
    decreases k
  {
    if k == 0 {
      assert t[0..] == t;
    } else {
      assert t[1..][k - 1..] == t[k..];
      StarAbsorbs(es, t[1..], k - 1);
    }
  }

  /** A leading star matches by giving some suffix of the text to the rest of the pattern. */
  lemma {:induction false} StarGivesSuffix(es: seq<Elem>, t: string) returns (k: nat)
    requires es != [] && es[0].Star? && Matches(es, t)
    ensures k <= |t| && Matches(es[1..], t[k..])
    decreases |t|
  {
    if Matches(es[1..], t) {
      k := 0;
      assert t[0..] == t;
    } else {
      var j := StarGivesSuffix(es, t[1..]);
      k := j + 1;
      assert t[1..][j..] == t[k..];
    }
  }

  predicate StarFree(es: seq<Elem>) {
    forall i :: 0 <= i < |es| ==> !es[i].Star?
  }

  /** A star-free front consumes exactly one character per element. */
  lemma {:induction false} StarFreeFront(front: seq<Elem>, back: seq<Elem>, t: string)
    requires StarFree(front)
    ensures Matches(front + back, t) <==>
            |front| <= |t| && Matches(front, t[..|front|]) && Matches(back, t[|front|..])
  {
    if front == [] {
      assert front + back == back && t[0..] == t;
    } else {
      assert (front + back)[0] == front[0] && (front + back)[1..] == front[1..] + back;
      if t != "" {
        StarFreeFront(front[1..], back, t[1..]);
        if |front| <= |t| {
          assert t[..|front|][1..] == t[1..][..|front| - 1];
          assert t[..|front|][..1] == t[..1];
          assert t[1..][|front| - 1..] == t[|front|..];
        }
      }
    }
  }
}
