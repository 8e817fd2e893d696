/** Substring search as wxString::find and wxString::Find offer it. */
module Substring {

  predicate OccursAt(text: string, sub: string, i: int) {
    0 <= i && i + |sub| <= |text| && text[i..i + |sub|] == sub
  }

  const NOT_FOUND := -1

  ghost predicate IsFirstFrom(text: string, sub: string, from: nat, r: int) {
    if r == NOT_FOUND then forall i | from <= i :: !OccursAt(text, sub, i)
    else from <= r && OccursAt(text, sub, r) && forall i | from <= i < r :: !OccursAt(text, sub, i)
  }

  method FindFrom(text: string, sub: string, from: nat) returns (r: int)
    ensures IsFirstFrom(text, sub, from, r)
    ensures sub == "" && from <= |text| ==> r == from
  {
    r := from;
    while r + |sub| <= |text|
      invariant from <= r && (sub == "" && from <= |text| ==> r == from)
      invariant forall i | from <= i < r :: !OccursAt(text, sub, i)
    {
      if text[r..r + |sub|] == sub {
        return;
      }
      r := r + 1;
    }
    r := NOT_FOUND;
  }
}
