/** common/commit.cpp: the change list of a commit and the item copies it owns. */
module CommitStaging {
  import opened Wrappers

  type Item = nat    // the identity of an item of the edited model
  type Screen = nat

  /** A copy of an item: its allocation, the item it was made from, and what it recorded. */
  datatype Image = Image(id: nat, of: Item, contents: int)

  /** What CHT_TYPE leaves of a change type; Other is every combination that Stage refuses. */
  datatype Kind = Add | Remove | Modify | Other

  datatype Line = Line(item: Item, copy: Option<Image>, kind: Kind, done: bool, screen: Option<Screen>)

  datatype State = State(
    changes: seq<Line>,
    changedItems: set<Item>,
    made: set<nat>,    // all copies handed to the commit so far
    freed: seq<nat>    // copies deleted, in order
  )

  const EMPTY := State([], {}, {}, [])

  /** The operations a client performs; `image` is what makeImage returns, `copy` the client's own. */
  datatype Op =
    | Stage(item: Item, kind: Kind, done: bool, screen: Option<Screen>, image: Option<Image>)
    | Modified(item: Item, copy: Image, screen: Option<Screen>)

  function WithEntry(s: State, line: Line): State {
    s.(changes := s.changes + [line], changedItems := s.changedItems + {line.item})
  }

  function WithModified(parent: Item -> Item, s: State, item: Item, copy: Image, done: bool,
                        screen: Option<Screen>): State
  {
    var t := s.(made := s.made + {copy.id});
    if parent(item) in s.changedItems then t.(freed := s.freed + [copy.id])
    else WithEntry(t, Line(parent(item), Some(copy), Modify, done, screen))
  }

  function Step(parent: Item -> Item, s: State, op: Op): State {
    match op
    case Modified(item, copy, _) => WithModified(parent, s, item, copy, false, None)
    case Stage(item, Modify, done, screen, Some(image)) => WithModified(parent, s, parent(item), image, done, screen)
    case Stage(_, Modify, _, _, None) => s
    case Stage(_, Other, _, _, _) => s
    case Stage(item, kind, done, screen, _) => WithEntry(s, Line(item, None, kind, done, screen))
  }

  /** What the assertions of the source ask of a call, and what makeImage and the allocator do. */
  ghost predicate Allowed(parent: Item -> Item, s: State, op: Op) {
    match op
    case Modified(item, copy, _) => copy.id !in s.made && copy.of == item
    case Stage(item, Add, _, _, _) => item !in s.changedItems
    case Stage(_, Remove, _, _, _) => true
    case Stage(_, Other, _, _, _) => true
    case Stage(item, Modify, done, _, image) =>
      !done && image.Some? && image.value.id !in s.made && image.value.of == parent(item)
  }

  function Run(parent: Item -> Item, ops: seq<Op>): State {
    if ops == [] then EMPTY else Step(parent, Run(parent, ops[..|ops| - 1]), ops[|ops| - 1])
  }

  ghost predicate AllAllowed(parent: Item -> Item, ops: seq<Op>) {
    ops != [] ==>
      && AllAllowed(parent, ops[..|ops| - 1])
      && Allowed(parent, Run(parent, ops[..|ops| - 1]), ops[|ops| - 1])
  }

  // ----- what every run keeps -----

  predicate HasItem(changes: seq<Line>, item: Item) {
    exists i :: 0 <= i < |changes| && changes[i].item == item
  }

  predicate Owns(changes: seq<Line>, id: nat) {
    exists i :: 0 <= i < |changes| && changes[i].copy.Some? && changes[i].copy.value.id == id
  }

  /** A MODIFY line is the first line of its item, so there is at most one. */
  ghost predicate ModifyFirst(changes: seq<Line>) {
    forall i, j :: 0 <= j < i < |changes| && changes[i].kind.Modify? ==> changes[j].item != changes[i].item
  }

  ghost predicate CopyIffModify(parent: Item -> Item, changes: seq<Line>) {
    forall i :: 0 <= i < |changes| ==>
      && (changes[i].copy.Some? <==> changes[i].kind.Modify?)
      && (changes[i].copy.Some? ==> changes[i].item == parent(changes[i].copy.value.of))
  }

  ghost predicate OwnedOnce(changes: seq<Line>) {
    forall i, j :: 0 <= j < i < |changes| && changes[i].copy.Some? && changes[j].copy.Some? ==>
      changes[i].copy.value.id != changes[j].copy.value.id
  }

  ghost predicate Distinct(s: seq<nat>) {
    forall i, j :: 0 <= j < i < |s| ==> s[i] != s[j]
  }

  /** Each copy ever handed over is owned by one line or has been deleted once, and not both. */
  ghost predicate Ownership(s: State) {
    && OwnedOnce(s.changes)
    && Distinct(s.freed)
    && (forall id :: id in s.made <==> Owns(s.changes, id) || id in s.freed)
    && (forall id :: Owns(s.changes, id) ==> id !in s.freed)
  }

  ghost predicate Invariant(parent: Item -> Item, s: State) {
    && (forall item :: item in s.changedItems <==> HasItem(s.changes, item))
    && CopyIffModify(parent, s.changes)
    && ModifyFirst(s.changes)
    && Ownership(s)
  }

  lemma HasItemAppend(changes: seq<Line>, line: Line, item: Item)
    ensures HasItem(changes + [line], item) <==> HasItem(changes, item) || line.item == item
  {
    var all := changes + [line];
    if HasItem(changes, item) {
      var i :| 0 <= i < |changes| && changes[i].item == item;
      assert all[i].item == item;
    }
    assert all[|changes|] == line;
  }

  lemma OwnsAppend(changes: seq<Line>, line: Line, id: nat)
    ensures Owns(changes + [line], id) <==> Owns(changes, id) || (line.copy.Some? && line.copy.value.id == id)
  {
    var all := changes + [line];
    if Owns(changes, id) {
      var i :| 0 <= i < |changes| && changes[i].copy.Some? && changes[i].copy.value.id == id;
      assert all[i].copy.value.id == id;
    }
    assert all[|changes|] == line;
  }

  /** Appending a line that respects the order of its item and brings no copy owned before. */
  lemma AppendKeeps(parent: Item -> Item, s: State, line: Line)
    requires Invariant(parent, s)
    requires line.copy.Some? <==> line.kind.Modify?
    requires line.kind.Modify? ==>
               line.item !in s.changedItems && line.copy.value.id !in s.made && line.item == parent(line.copy.value.of)
    ensures Invariant(parent, WithEntry(if line.copy.Some? then s.(made := s.made + {line.copy.value.id}) else s, line))
  {
    var t := WithEntry(if line.copy.Some? then s.(made := s.made + {line.copy.value.id}) else s, line);
    forall item
      ensures item in t.changedItems <==> HasItem(t.changes, item)
    {
      HasItemAppend(s.changes, line, item);
    }
    forall id
      ensures Owns(t.changes, id) <==> Owns(s.changes, id) || (line.copy.Some? && line.copy.value.id == id)
    {
      OwnsAppend(s.changes, line, id);
    }
    forall j | 0 <= j < |s.changes| && line.kind.Modify?
      ensures s.changes[j].item != line.item
      ensures s.changes[j].copy.Some? ==> s.changes[j].copy.value.id != line.copy.value.id
    {
      assert HasItem(s.changes, s.changes[j].item);
      if s.changes[j].copy.Some? { assert Owns(s.changes, s.changes[j].copy.value.id); }
    }
  }

  lemma StepKeeps(parent: Item -> Item, s: State, op: Op)
    requires Invariant(parent, s) && Allowed(parent, s, op)
    ensures Invariant(parent, Step(parent, s, op))
    ensures s.changes <= Step(parent, s, op).changes
  {
    match op
    case Stage(item, Modify, done, screen, Some(image)) =>
      if parent(parent(item)) !in s.changedItems {
        AppendKeeps(parent, s, Line(parent(parent(item)), Some(image), Modify, done, screen));
      }
    case Stage(_, Other, _, _, _) =>
    case Stage(item, kind, done, screen, _) =>
      AppendKeeps(parent, s, Line(item, None, kind, done, screen));
    case Modified(item, copy, _) =>
      if parent(item) !in s.changedItems {
        AppendKeeps(parent, s, Line(parent(item), Some(copy), Modify, false, None));
      }
  }

  /** Every run keeps the invariant. */
  lemma {:induction false} RunKeeps(parent: Item -> Item, ops: seq<Op>)
    requires AllAllowed(parent, ops)
    ensures Invariant(parent, Run(parent, ops))
  {
    if ops != [] {
      RunKeeps(parent, ops[..|ops| - 1]);
      StepKeeps(parent, Run(parent, ops[..|ops| - 1]), ops[|ops| - 1]);
    }
  }

  /** Lines are only ever added. */
  lemma {:induction false} RunGrows(parent: Item -> Item, ops: seq<Op>, k: nat)
    requires AllAllowed(parent, ops) && k <= |ops|
    ensures AllAllowed(parent, ops[..k]) && Run(parent, ops[..k]).changes <= Run(parent, ops).changes
  {
    if k == |ops| {
      assert ops[..k] == ops;
    } else {
      var n := |ops| - 1;
      assert ops[..n][..k] == ops[..k];
      RunGrows(parent, ops[..n], k);
      RunKeeps(parent, ops[..n]);
      StepKeeps(parent, Run(parent, ops[..n]), ops[n]);
    }
  }

  /** From every run there is a next operation of each kind: a removal, an addition of an item not staged
      before, and a modification of any item with a new copy. */
  lemma RunsGoOn(parent: Item -> Item, ops: seq<Op>, item: Item, done: bool, screen: Option<Screen>, id: nat, c: int)
    requires AllAllowed(parent, ops)
    ensures AllAllowed(parent, ops + [Stage(item, Remove, done, screen, None)])
    ensures item !in Run(parent, ops).changedItems ==> AllAllowed(parent, ops + [Stage(item, Add, done, screen, None)])
    ensures id !in Run(parent, ops).made ==>
              && AllAllowed(parent, ops + [Stage(item, Modify, false, screen, Some(Image(id, parent(item), c)))])
              && AllAllowed(parent, ops + [Op.Modified(item, Image(id, item, c), screen)])
  {
    forall op
      ensures AllAllowed(parent, ops + [op]) <==> Allowed(parent, Run(parent, ops), op)
    {
      assert (ops + [op])[..|ops|] == ops;
    }
    hide Run, AllAllowed;
  }

  // ----- where the lines come from -----

  predicate Modifies(op: Op) {
    op.Modified? || op.kind.Modify?
  }

  /** The item an operation stages: for a modification Stage takes the parent once for the image and,
      in createModified, once more for the line. */
  function Target(parent: Item -> Item, op: Op): Item {
    match op
    case Modified(item, _, _) => parent(item)
    case Stage(item, kind, _, _, _) => if kind.Modify? then parent(parent(item)) else item
  }

  function CopyOf(op: Op): Option<Image> {
    match op
    case Modified(_, copy, _) => Some(copy)
    case Stage(_, kind, _, _, image) => if kind.Modify? then image else None
  }

  /** Operation k added line i. */
  predicate MadeBy(parent: Item -> Item, ops: seq<Op>, i: nat, k: nat) {
    k < |ops| && |Run(parent, ops[..k]).changes| == i < |Run(parent, ops[..k + 1]).changes|
  }

  lemma LastStep(parent: Item -> Item, ops: seq<Op>)
    requires AllAllowed(parent, ops) && ops != []
    ensures var n := |ops| - 1; var s := Run(parent, ops[..n]);
            && Run(parent, ops) == Step(parent, s, ops[n])
            && AllAllowed(parent, ops[..n]) && Allowed(parent, s, ops[n])
  {}

  lemma RunStep(parent: Item -> Item, ops: seq<Op>, k: nat)
    requires AllAllowed(parent, ops) && k < |ops|
    ensures Run(parent, ops[..k + 1]) == Step(parent, Run(parent, ops[..k]), ops[k])
    ensures AllAllowed(parent, ops[..k]) && Allowed(parent, Run(parent, ops[..k]), ops[k])
    ensures Run(parent, ops[..k]).changes <= Run(parent, ops[..k + 1]).changes <= Run(parent, ops).changes
  {
    RunGrows(parent, ops, k + 1);
    LastStep(parent, ops[..k + 1]);
    hide Run, AllAllowed, Invariant, Step, Allowed;
    assert ops[..k + 1][..k] == ops[..k];
    RunKeeps(parent, ops[..k]);
    StepKeeps(parent, Run(parent, ops[..k]), ops[k]);
  }

  /** The line an operation adds, wherever the run goes on to. */
  lemma LineMade(parent: Item -> Item, ops: seq<Op>, i: nat, k: nat)
    requires AllAllowed(parent, ops) && MadeBy(parent, ops, i, k)
    ensures i < |Run(parent, ops).changes|
    ensures var line, op := Run(parent, ops).changes[i], ops[k];
            && line.item == Target(parent, op) && line.copy == CopyOf(op)
            && (line.kind.Modify? <==> Modifies(op))
            && line.screen == (if op.Stage? then op.screen else None)
            && (Modifies(op) ==> !line.done && line.item !in Run(parent, ops[..k]).changedItems)
    ensures var line := Run(parent, ops).changes[i];
            match ops[k]
            case Modified(item, copy, _) => line == Line(parent(item), Some(copy), Modify, false, None)
            case Stage(item, kind, done, screen, image) =>
              && line.kind == kind && line.done == done && line.screen == screen
              && (kind == Modify ==> line.item == parent(parent(item)) && line.copy == image)
              && (kind != Modify ==> line.item == item && line.copy == None)
  {
    RunStep(parent, ops, k);
    assert Run(parent, ops).changes[i] == Run(parent, ops[..k + 1]).changes[i];
    hide Run, AllAllowed;
  }

  /** Which operations add a line: all but those refused, and a modification of an item already staged. */
  lemma AddsLine(parent: Item -> Item, ops: seq<Op>, k: nat)
    requires AllAllowed(parent, ops) && k < |ops|
    ensures var before, after := Run(parent, ops[..k]), Run(parent, ops[..k + 1]);
            var refused := match ops[k]
                           case Modified(item, _, _) => parent(item) in before.changedItems
                           case Stage(item, Modify, _, _, _) => parent(parent(item)) in before.changedItems
                           case Stage(_, kind, _, _, _) => kind == Other;
            |after.changes| == |before.changes| + if refused then 0 else 1
  {
    RunStep(parent, ops, k);
    hide Run, AllAllowed;
  }

  /** Every line was added by some operation. */
  lemma {:induction false} Maker(parent: Item -> Item, ops: seq<Op>, i: nat) returns (k: nat)
    requires AllAllowed(parent, ops) && i < |Run(parent, ops).changes|
    ensures MadeBy(parent, ops, i, k)
  {
    var n := |ops| - 1;
    RunStep(parent, ops, n);
    assert ops[..n + 1] == ops;
    if i < |Run(parent, ops[..n]).changes| {
      k := Maker(parent, ops[..n], i);
      assert ops[..n][..k] == ops[..k] && ops[..n][..k + 1] == ops[..k + 1];
    } else {
      k := n;
    }
  }

  /** The first staging of an item, if for modification, fixes its image, whether the commit made it
      or the client brought it: whatever is staged later, the item's only MODIFY line is the one made
      then, and it is the item's first line. */
  lemma FirstImageKept(parent: Item -> Item, ops: seq<Op>, k: nat)
    requires AllAllowed(parent, ops) && k < |ops| && Modifies(ops[k])
    requires Target(parent, ops[k]) !in Run(parent, ops[..k]).changedItems
    ensures var at := |Run(parent, ops[..k]).changes|; var item := Target(parent, ops[k]);
            var end := Run(parent, ops).changes;
            && at < |end|
            && end[at] == Line(item, CopyOf(ops[k]), Modify, false, if ops[k].Stage? then ops[k].screen else None)
            && (forall j :: 0 <= j < |end| && j != at && end[j].item == item ==> j > at && !end[j].kind.Modify?)
  {
    hide Run, AllAllowed, Step, Allowed, Invariant;
    var s, t := Run(parent, ops[..k]), Run(parent, ops);
    RunStep(parent, ops, k);
    StagingAdds(parent, s, ops[k]);
    LineMade(parent, ops, |s.changes|, k);
    RunKeeps(parent, ops);
    RunKeeps(parent, ops[..k]);
    OnlyModification(parent, s, t);
  }

  /** A line for an item not staged before is its first, and the only one that can be a MODIFY line. */
  lemma OnlyModification(parent: Item -> Item, s: State, t: State)
    requires Invariant(parent, s) && Invariant(parent, t) && s.changes <= t.changes
    requires |s.changes| < |t.changes| && t.changes[|s.changes|].item !in s.changedItems
    ensures forall j :: 0 <= j < |t.changes| && j != |s.changes| && t.changes[j].item == t.changes[|s.changes|].item ==>
              j > |s.changes| && !t.changes[j].kind.Modify?
  {
    hide Ownership, CopyIffModify;
    forall j | 0 <= j < |s.changes|
      ensures t.changes[j].item != t.changes[|s.changes|].item
    {
      assert HasItem(s.changes, s.changes[j].item);
    }
  }

  lemma StagingAdds(parent: Item -> Item, s: State, op: Op)
    requires Allowed(parent, s, op) && Modifies(op) && Target(parent, op) !in s.changedItems
    ensures |Step(parent, s, op).changes| == |s.changes| + 1
  {}

  /** A MODIFY line carries a screen exactly when a Stage with that screen made it: Modified drops the
      screen it is given. */
  lemma ScreenFromStage(parent: Item -> Item, ops: seq<Op>, i: nat, screen: Screen)
    requires AllAllowed(parent, ops) && i < |Run(parent, ops).changes| && Run(parent, ops).changes[i].kind.Modify?
    ensures Run(parent, ops).changes[i].screen == Some(screen) <==>
            exists k: nat :: MadeBy(parent, ops, i, k) && ops[k].Stage? && ops[k].screen == Some(screen)
  {
    var k0 := Maker(parent, ops, i);
    LineMade(parent, ops, i, k0);
    forall k: nat | MadeBy(parent, ops, i, k)
      ensures Run(parent, ops).changes[i].screen == Some(screen) <==> ops[k].Stage? && ops[k].screen == Some(screen)
    {
      LineMade(parent, ops, i, k);
    }
  }

  /** What findEntry returns: the first line for the item on the screen. */
  ghost predicate IsEntry(changes: seq<Line>, item: Item, screen: Option<Screen>, r: int) {
    && -1 <= r < |changes|
    && (r >= 0 ==> changes[r].item == item && changes[r].screen == screen)
    && forall j :: 0 <= j < (if r >= 0 then r else |changes|) ==>
                     !(changes[j].item == item && changes[j].screen == screen)
  }

  /** Operation k is the first to stage the item, and it stages it for modification on the screen. */
  predicate FirstStagesOn(parent: Item -> Item, ops: seq<Op>, item: Item, screen: Screen, k: nat) {
    && k < |ops| && ops[k].Stage? && ops[k].kind.Modify? && ops[k].screen == Some(screen)
    && Target(parent, ops[k]) == item && item !in Run(parent, ops[..k]).changedItems
  }

  /** Asking for an item on a screen reports a modification exactly when the first operation on the
      item was a Stage for modification with that screen. */
  lemma FoundModifiedIff(parent: Item -> Item, ops: seq<Op>, item: Item, screen: Screen, r: int)
    requires AllAllowed(parent, ops) && IsEntry(Run(parent, ops).changes, item, Some(screen), r)
    ensures r >= 0 && Run(parent, ops).changes[r].kind.Modify? <==>
            exists k: nat :: FirstStagesOn(parent, ops, item, screen, k)
  {
    if r >= 0 && Run(parent, ops).changes[r].kind.Modify? {
      var k := Maker(parent, ops, r);
      LineMade(parent, ops, r, k);
      assert FirstStagesOn(parent, ops, item, screen, k);
    }
    if k: nat :| FirstStagesOn(parent, ops, item, screen, k) {
      FirstImageKept(parent, ops, k);
    }
  }

  /** Looking up an item first staged as added or removed, on its screen, reports just that. */
  lemma FirstStagedFound(parent: Item -> Item, ops: seq<Op>, k: nat, r: int)
    requires AllAllowed(parent, ops) && k < |ops| && ops[k].Stage? && (ops[k].kind == Add || ops[k].kind == Remove)
    requires ops[k].item !in Run(parent, ops[..k]).changedItems
    requires IsEntry(Run(parent, ops).changes, ops[k].item, ops[k].screen, r)
    ensures r >= 0
    ensures var line := Run(parent, ops).changes[r]; line.kind == ops[k].kind && line.done == ops[k].done
  {
    hide Run, AllAllowed, Allowed, Invariant;
    var s, t := Run(parent, ops[..k]), Run(parent, ops);
    var at := |s.changes|;
    RunStep(parent, ops, k);
    RunKeeps(parent, ops[..k]);
    assert |Step(parent, s, ops[k]).changes| == at + 1;
    LineMade(parent, ops, at, k);
    hide Step;
    NotAmong(parent, s, ops[k].item);
    assert forall j :: 0 <= j < at ==> t.changes[j] == s.changes[j];
  }

  lemma NotAmong(parent: Item -> Item, s: State, item: Item)
    requires Invariant(parent, s) && item !in s.changedItems
    ensures forall j :: 0 <= j < |s.changes| ==> s.changes[j].item != item
  {
    forall j | 0 <= j < |s.changes|
      ensures s.changes[j].item != item
    {
      assert HasItem(s.changes, s.changes[j].item);
    }
  }

  /** After a first Modified of an item no screen finds the modification. */
  lemma ModifiedNeverFound(parent: Item -> Item, ops: seq<Op>, k: nat, screen: Screen, r: int)
    requires AllAllowed(parent, ops) && k < |ops| && ops[k].Modified?
    requires Target(parent, ops[k]) !in Run(parent, ops[..k]).changedItems
    requires IsEntry(Run(parent, ops).changes, Target(parent, ops[k]), Some(screen), r)
    ensures r >= 0 ==> !Run(parent, ops).changes[r].kind.Modify?
  {
    FirstImageKept(parent, ops, k);
  }

  ghost predicate ImagesOfOwnItems(changes: seq<Line>) {
    forall i :: 0 <= i < |changes| && changes[i].copy.Some? ==> changes[i].copy.value.of == changes[i].item
  }

  predicate OnlyStages(ops: seq<Op>) {
    forall k :: 0 <= k < |ops| ==> ops[k].Stage?
  }

  /** Modified files a copy of the item under the item's parent. That each entry holds an image of its
      own item, whatever is done, needs exactly that every item is its own parent. */
  lemma AllImagesOwnIff(parent: Item -> Item)
    ensures (forall ops | AllAllowed(parent, ops) :: ImagesOfOwnItems(Run(parent, ops).changes)) <==>
            (forall item :: parent(item) == item)
  {
    hide Run, AllAllowed, ImagesOfOwnItems;
    if item :| parent(item) != item {
      var ops := CopyOfChild(parent, item);
    } else {
      forall ops | AllAllowed(parent, ops)
        ensures ImagesOfOwnItems(Run(parent, ops).changes)
      {
        ImagesAtHome(parent, ops);
      }
    }
  }

  lemma ImagesAtHome(parent: Item -> Item, ops: seq<Op>)
    requires AllAllowed(parent, ops) && forall item :: parent(item) == item
    ensures ImagesOfOwnItems(Run(parent, ops).changes)
  {
    RunKeeps(parent, ops);
  }

  lemma CopyOfChild(parent: Item -> Item, item: Item) returns (ops: seq<Op>)
    requires parent(item) != item
    ensures AllAllowed(parent, ops) && !ImagesOfOwnItems(Run(parent, ops).changes)
  {
    var copy := Image(0, item, 0);
    ops := [Op.Modified(item, copy, None)];
    assert ops[..0] == [];
    var line := Line(parent(item), Some(copy), Modify, false, None);
    assert Run(parent, ops).changes == [line] && [line][0] == line;
  }

  /** Stage asks for the parent of an item's parent. With Stage alone, that each entry holds an image of
      its own item needs exactly that this is the parent again. */
  lemma OwnImagesIff(parent: Item -> Item)
    ensures (forall ops | AllAllowed(parent, ops) && OnlyStages(ops) :: ImagesOfOwnItems(Run(parent, ops).changes)) <==>
            (forall item :: parent(parent(item)) == parent(item))
  {
    forall ops | AllAllowed(parent, ops) && OnlyStages(ops) && forall item :: parent(parent(item)) == parent(item)
      ensures ImagesOfOwnItems(Run(parent, ops).changes)
    {
      OwnImages(parent, ops);
    }
    forall item | parent(parent(item)) != parent(item)
      ensures exists ops :: AllAllowed(parent, ops) && OnlyStages(ops) && !ImagesOfOwnItems(Run(parent, ops).changes)
    {
      var ops := ForeignImage(parent, item);
    }
  }

  lemma OwnImages(parent: Item -> Item, ops: seq<Op>)
    requires AllAllowed(parent, ops) && OnlyStages(ops)
    requires forall item :: parent(parent(item)) == parent(item)
    ensures ImagesOfOwnItems(Run(parent, ops).changes)
  {
    forall i | 0 <= i < |Run(parent, ops).changes| && Run(parent, ops).changes[i].copy.Some?
      ensures Run(parent, ops).changes[i].copy.value.of == Run(parent, ops).changes[i].item
    {
      var k := Maker(parent, ops, i);
      LineMade(parent, ops, i, k);
      RunStep(parent, ops, k);
    }
  }

  lemma ForeignImage(parent: Item -> Item, item: Item) returns (ops: seq<Op>)
    requires parent(parent(item)) != parent(item)
    ensures AllAllowed(parent, ops) && OnlyStages(ops)
    ensures !ImagesOfOwnItems(Run(parent, ops).changes)
  {
    var op := Stage(item, Modify, false, None, Some(Image(0, parent(item), 0)));
    ops := [op];
    assert ops[..0] == [];
    var line := Line(parent(parent(item)), op.image, Modify, false, None);
    assert Run(parent, ops).changes == [line] && [line][0] == line;
  }

  // ----- the end of the commit -----

  /** The copies the lines own, in order. */
  function Copies(changes: seq<Line>): seq<nat> {
    if changes == [] then []
    else
      var n := |changes| - 1;
      Copies(changes[..n]) + (if changes[n].copy.Some? then [changes[n].copy.value.id] else [])
  }

  lemma {:induction false} CopiesAreOwned(changes: seq<Line>)
    requires OwnedOnce(changes)
    ensures Distinct(Copies(changes))
    ensures forall id :: id in Copies(changes) <==> Owns(changes, id)
  {
    if changes != [] {
      var n := |changes| - 1;
      CopiesAreOwned(changes[..n]);
      assert changes == changes[..n] + [changes[n]];
      forall id
        ensures Owns(changes, id) <==>
                Owns(changes[..n], id) || (changes[n].copy.Some? && changes[n].copy.value.id == id)
      {
        OwnsAppend(changes[..n], changes[n], id);
      }
      if changes[n].copy.Some? {
        assert !Owns(changes[..n], changes[n].copy.value.id);
      }
    }
  }

  /** The operation hands a copy to the commit: the client's own, or the image made for a Stage. */
  predicate HandsOver(op: Op, id: nat) {
    match op
    case Modified(_, copy, _) => copy.id == id
    case Stage(_, kind, _, _, image) => kind == Modify && image.Some? && image.value.id == id
  }

  lemma {:induction false} MadeIsHandedOver(parent: Item -> Item, ops: seq<Op>, id: nat)
    ensures id in Run(parent, ops).made <==> exists k :: 0 <= k < |ops| && HandsOver(ops[k], id)
  {
    if ops != [] {
      var n := |ops| - 1;
      MadeIsHandedOver(parent, ops[..n], id);
      assert forall k :: 0 <= k < n ==> ops[..n][k] == ops[k];
      if id in Run(parent, ops[..n]).made {
        var k :| 0 <= k < n && HandsOver(ops[..n][k], id);
        assert HandsOver(ops[k], id);
      }
    }
  }

  /** After the destructor every copy ever handed over has been deleted, and none twice. */
  lemma DestructorFreesRest(parent: Item -> Item, ops: seq<Op>)
    requires AllAllowed(parent, ops)
    ensures var s := Run(parent, ops); var freed := s.freed + Copies(s.changes);
            && Distinct(freed) && (forall id :: id in freed <==> id in s.made)
            && forall id :: id in freed <==> exists k :: 0 <= k < |ops| && HandsOver(ops[k], id)
  {
    forall id
      ensures id in Run(parent, ops).made <==> exists k :: 0 <= k < |ops| && HandsOver(ops[k], id)
    {
      MadeIsHandedOver(parent, ops, id);
    }
    RunKeeps(parent, ops);
    var s := Run(parent, ops);
    CopiesAreOwned(s.changes);
    DistinctJoin(s.freed, Copies(s.changes));
  }

  lemma DistinctJoin(a: seq<nat>, b: seq<nat>)
    requires Distinct(a) && Distinct(b) && forall id :: id in b ==> id !in a
    ensures Distinct(a + b) && forall id :: id in a + b <==> id in a || id in b
  {
    forall i, j | 0 <= j < i < |a + b|
      ensures (a + b)[i] != (a + b)[j]
    {
      if j < |a| <= i {
        assert b[i - |a|] in b;
      }
    }
  }

  // ----- the class -----

  class Commit {
    const parentObject: Item -> Item
    var changes: seq<Line>
    var changedItems: set<Item>
    ghost var made: set<nat>
    ghost var freed: seq<nat>

    ghost function Current(): State
      reads this
    {
      State(changes, changedItems, made, freed)
    }

    constructor (parentObject: Item -> Item)
      ensures Current() == EMPTY && this.parentObject == parentObject
    {
      this.parentObject := parentObject;
      changes, changedItems, made, freed := [], {}, {}, [];
    }

    method MakeEntry(item: Item, kind: Kind, done: bool, copy: Option<Image>, screen: Option<Screen>)
      modifies this`changes, this`changedItems
      ensures Current() == WithEntry(old(Current()), Line(item, copy, kind, done, screen))
    {
      changedItems := changedItems + {item};
      changes := changes + [Line(item, copy, kind, done, screen)];
    }

    method Delete(copy: Image)
      modifies this`freed
      ensures freed == old(freed) + [copy.id]
    {
      freed := freed + [copy.id];
    }

    method CreateModified(item: Item, copy: Image, done: bool, screen: Option<Screen>)
      modifies this
      ensures Current() == WithModified(parentObject, old(Current()), item, copy, done, screen)
    {
      made := made + {copy.id};
      var parent := parentObject(item);
      if parent in changedItems {
        Delete(copy);
        return;
      }
      MakeEntry(parent, Modify, done, Some(copy), screen);
    }

    method Modified(item: Item, copy: Image, screen: Option<Screen>)
      modifies this
      ensures Current() == Step(parentObject, old(Current()), Op.Modified(item, copy, screen))
    {
      CreateModified(item, copy, false, None);
    }

    method Stage(item: Item, kind: Kind, done: bool, screen: Option<Screen>, image: Option<Image>)
      modifies this
      ensures Current() == Step(parentObject, old(Current()), Op.Stage(item, kind, done, screen, image))
    {
      match kind {
        case Add =>
          MakeEntry(item, Add, done, None, screen);
        case Remove =>
          MakeEntry(item, Remove, done, None, screen);
        case Modify =>
          var parent := parentObject(item);
          if image.Some? {
            CreateModified(parent, image.value, done, screen);
          }
        case Other =>
      }
    }

    /** findEntry. */
    method FindEntry(item: Item, screen: Option<Screen>) returns (r: int)
      ensures IsEntry(changes, item, screen, r)
      ensures r >= 0 ==> r < |changes| && changes[r].item == item && changes[r].screen == screen
      ensures r < 0 ==> forall j :: 0 <= j < |changes| ==> !(changes[j].item == item && changes[j].screen == screen)
      ensures forall j :: 0 <= j < r ==> !(changes[j].item == item && changes[j].screen == screen)
    {
      for i := 0 to |changes|
        invariant forall j :: 0 <= j < i ==> !(changes[j].item == item && changes[j].screen == screen)
      {
        if changes[i].item == item && changes[i].screen == screen {
          return i;
        }
      }
      return -1;
    }

    /** GetStatus: the type of the item's entry, None for no entry. */
    method GetStatus(item: Item, screen: Option<Screen>) returns (status: Option<(Kind, bool)>)
      ensures exists r :: IsEntry(changes, parentObject(item), screen, r) &&
                          status == if r >= 0 then Some((changes[r].kind, changes[r].done)) else None
    {
      var entry := FindEntry(parentObject(item), screen);
      status := if entry >= 0 then Some((changes[entry].kind, changes[entry].done)) else None;
    }

    /** The destructor. */
    method Destroy()
      modifies this`freed
      ensures freed == old(freed) + Copies(changes)
    {
      for i := 0 to |changes|
        invariant freed == old(freed) + Copies(changes[..i])
      {
        assert changes[..i + 1][..i] == changes[..i];
        if changes[i].copy.Some? {
          Delete(changes[i].copy.value);
        }
      }
      assert changes[..|changes|] == changes;
    }
  }
}
