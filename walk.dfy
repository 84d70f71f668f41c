/** What one configuration does to the rules of a tree, as values: the declaration walk with
    PostCSS's cursor rules, the landscape copy of a rule, one rule, one pass over all rules,
    the passes of every configuration in order, and the landscape media block at the end. */
module RuleWalk {
  import opened Wrappers
  import opened Strings
  import opened Options
  import opened Css
  import opened Policy
  import opened PropListMatcher
  import opened Conversion

  /** A declaration the callback of lines 74-117 converts: its value mentions the unit and
      its property passes the prop list (index.js lines 54-55 and 75-76). Comments never
      are. */
  predicate IsCandidate(o: Options, n: Node) {
    n.Decl? && Contains(n.value, o.unitToConvert) && SatisfyPropList(o.propList, n.prop)
  }

  /** The value a declaration of a rule under `params` is rewritten to (lines 97-108). */
  function ConvertValue(o: Options, params: Option<string>, prop: string, value: string): string
    requires PositiveWidths(o)
  {
    ReplaceUnits(o, value, TargetFor(o, params, prop).unit, TargetFor(o, params, prop).size)
  }

  /** What the callback of `walkDecls` takes from the configuration: `convertible`, the test
      of lines 75-76 on a declaration's property and value; `rewrite`, the value it gets
      (lines 97-108); and `replace`, whether that value replaces the old one or goes into a
      copy inserted after it (lines 112-116). The walk below holds for any such callback;
      `WalkerFor` is the plugin's own. */
  datatype Walker = Walker(
    convertible: (string, string) -> bool,
    rewrite: (string, string) -> string,
    replace: bool)

  /** The callback of one configuration for the rules inside an at-rule with `params`. */
  function WalkerFor(o: Options, params: Option<string>): (w: Walker)
    requires PositiveWidths(o)
    ensures w.replace == o.replace
  {
    Walker((prop, value) => Contains(value, o.unitToConvert) && SatisfyPropList(o.propList, prop),
           (prop, value) => ConvertValue(o, params, prop, value),
           o.replace)
  }

  /** A declaration the walker converts. */
  predicate Converts(w: Walker, n: Node) {
    n.Decl? && w.convertible(n.prop, n.value)
  }

  /** The rewritten value of a declaration. */
  function Rewritten(w: Walker, n: Node): string
    requires n.Decl?
  {
    w.rewrite(n.prop, n.value)
  }

  /** `node.remove()` on the child at `j`. */
  function RemoveAt(nodes: seq<Node>, j: nat): (r: seq<Node>)
    requires j < |nodes|
    ensures |r| == |nodes| - 1
    ensures forall k :: 0 <= k < j ==> r[k] == nodes[k]
    ensures forall k :: j <= k < |r| ==> r[k] == nodes[k + 1]
  {
    nodes[..j] + nodes[j + 1..]
  }

  /** `splice(j, 0, n)`: `n` becomes the child at `j`. */
  function InsertAt(nodes: seq<Node>, j: nat, n: Node): (r: seq<Node>)
    requires j <= |nodes|
    ensures |r| == |nodes| + 1 && r[j] == n
    ensures forall k :: 0 <= k < j ==> r[k] == nodes[k]
    ensures forall k :: j < k < |r| ==> r[k] == nodes[k - 1]
  {
    nodes[..j] + [n] + nodes[j..]
  }

  /** The children of the rule being walked, the iterator's index into them, and the warnings
      raised so far. */
  datatype WalkState = WalkState(nodes: seq<Node>, cursor: nat, warnings: nat)

  predicate Finished(s: WalkState) {
    s.cursor >= |s.nodes|
  }

  /** Lines 97-116 on the declaration at `i`: the children afterwards. The rewrite is
      dropped when a declaration with the same property and the new value is already there;
      otherwise it replaces the value or is inserted right after the declaration. */
  function RewriteAt(w: Walker, nodes: seq<Node>, i: nat): (r: seq<Node>)
    requires i < |nodes| && nodes[i].Decl?
    ensures |nodes| <= |r| <= |nodes| + 1
    ensures w.replace ==> |r| == |nodes|
  {
    if IsDeclarationExists(nodes, nodes[i].prop, Rewritten(w, nodes[i])) then nodes
    else if w.replace then nodes[i := Decl(nodes[i].prop, Rewritten(w, nodes[i]))]
    else InsertAt(nodes, i + 1, Decl(nodes[i].prop, Rewritten(w, nodes[i])))
  }

  /** One call of the callback of lines 74-117 on the child at the cursor, followed by the
      iterator's advance. Removing a child at or before the cursor moves the cursor back by
      one; inserting after the cursor does not move it, so the inserted copy is visited
      next. */
  function Step(w: Walker, s: WalkState): (r: WalkState)
    requires s.cursor < |s.nodes|
    ensures s.cursor <= r.cursor <= |r.nodes|
    ensures |r.nodes| - r.cursor <= |s.nodes| - s.cursor
    ensures r.warnings == s.warnings || r.warnings == s.warnings + 1
  {
    var i := s.cursor;
    if !Converts(w, s.nodes[i]) then s.(cursor := i + 1)
    else if i > 0 && IsIgnoreNext(s.nodes[i - 1]) then
      WalkState(RemoveAt(s.nodes, i - 1), i, s.warnings)
    else if i + 1 < |s.nodes| && IsIgnorePrev(s.nodes[i + 1]) && !OnOwnLine(s.nodes[i + 1]) then
      WalkState(RemoveAt(s.nodes, i + 1), i + 1, s.warnings)
    else if i + 1 < |s.nodes| && IsIgnorePrev(s.nodes[i + 1]) then
      WalkState(RewriteAt(w, s.nodes, i), i + 1, s.warnings + 1)
    else
      WalkState(RewriteAt(w, s.nodes, i), i + 1, s.warnings)
  }

  /** `rule.walkDecls(callback)` from state `s`, for at most `fuel` visits. */
  function Walk(w: Walker, s: WalkState, fuel: nat): (r: WalkState)
    ensures s.warnings <= r.warnings
    decreases fuel
  {
    if Finished(s) || fuel == 0 then s
    else Walk(w, Step(w, s), fuel - 1)
  }

  /** An unfinished walk with visits left is one visit followed by the rest of the walk. */
  lemma WalkAdvances(w: Walker, s: WalkState, next: WalkState, fuel: nat)
    requires !Finished(s) && fuel > 0 && next == Step(w, s)
    ensures Walk(w, next, fuel - 1) == Walk(w, s, fuel)
  {
  }

  /** The walk of a rule's children from the first one. */
  function WalkNodes(w: Walker, nodes: seq<Node>, fuel: nat): WalkState
  {
    Walk(w, WalkState(nodes, 0, 0), fuel)
  }

  // ---- single visits -------------------------------------------------------------------

  /** A declaration preceded by the ignore-next comment stays as it is, the comment goes, and
      the walk goes on with the child that followed the declaration. */
  lemma IgnoreNextKeepsDeclaration(w: Walker, s: WalkState)
    requires 0 < s.cursor < |s.nodes|
    requires Converts(w, s.nodes[s.cursor]) && IsIgnoreNext(s.nodes[s.cursor - 1])
    ensures Step(w, s).nodes == s.nodes[..s.cursor - 1] + s.nodes[s.cursor..]
    ensures Step(w, s).nodes[Step(w, s).cursor - 1] == s.nodes[s.cursor]
    ensures Step(w, s).nodes[Step(w, s).cursor..] == s.nodes[s.cursor + 1..]
    ensures Step(w, s).warnings == s.warnings
  {
  }

  /** A declaration followed on the same line by the ignore comment stays as it is, the
      comment goes, and the walk goes on after where the comment was. */
  lemma IgnorePrevKeepsDeclaration(w: Walker, s: WalkState)
    requires s.cursor + 1 < |s.nodes|
    requires Converts(w, s.nodes[s.cursor]) && IsIgnorePrev(s.nodes[s.cursor + 1])
    requires !OnOwnLine(s.nodes[s.cursor + 1])
    requires s.cursor == 0 || !IsIgnoreNext(s.nodes[s.cursor - 1])
    ensures Step(w, s).nodes == s.nodes[..s.cursor + 1] + s.nodes[s.cursor + 2..]
    ensures Step(w, s).nodes[Step(w, s).cursor..] == s.nodes[s.cursor + 2..]
    ensures Step(w, s).warnings == s.warnings
  {
  }

  /** An ignore comment on a line of its own is kept, raises a warning, and does not stop the
      conversion of the declaration before it. */
  lemma IgnorePrevOnOwnLineWarns(w: Walker, s: WalkState)
    requires w.replace && s.cursor + 1 < |s.nodes|
    requires Converts(w, s.nodes[s.cursor]) && IsIgnorePrev(s.nodes[s.cursor + 1])
    requires OnOwnLine(s.nodes[s.cursor + 1])
    requires s.cursor == 0 || !IsIgnoreNext(s.nodes[s.cursor - 1])
    requires Decl(s.nodes[s.cursor].prop, Rewritten(w, s.nodes[s.cursor])) !in s.nodes
    ensures Step(w, s).warnings == s.warnings + 1
    ensures Step(w, s).nodes[s.cursor + 1] == s.nodes[s.cursor + 1]
    ensures Step(w, s).nodes[s.cursor]
            == Decl(s.nodes[s.cursor].prop, Rewritten(w, s.nodes[s.cursor]))
  {
  }

  /** A declaration whose rewritten value equals its own value is left alone: the duplicate
      test finds the declaration itself. */
  lemma UnchangedValueIsLeftAlone(w: Walker, s: WalkState)
    requires s.cursor < |s.nodes| && s.nodes[s.cursor].Decl?
    requires Rewritten(w, s.nodes[s.cursor]) == s.nodes[s.cursor].value
    requires s.cursor == 0 || !IsIgnoreNext(s.nodes[s.cursor - 1])
    requires s.cursor + 1 == |s.nodes| || !IsIgnorePrev(s.nodes[s.cursor + 1])
    ensures Step(w, s) == s.(cursor := s.cursor + 1)
  {
    var d := s.nodes[s.cursor];
    assert Decl(d.prop, d.value) == d && d in s.nodes;
    assert IsDeclarationExists(s.nodes, d.prop, Rewritten(w, d));
    assert RewriteAt(w, s.nodes, s.cursor) == s.nodes;
  }

  /** The three outcomes of lines 110-116 for the declaration at `i` and its rewrite `d`:
      nothing changes when `d` is already a child; otherwise `d` takes the declaration's
      place (replace mode), or is inserted right after it with every other child kept. */
  lemma RewriteAtEffect(w: Walker, nodes: seq<Node>, i: nat)
    requires i < |nodes| && nodes[i].Decl?
    ensures Decl(nodes[i].prop, Rewritten(w, nodes[i])) in nodes ==> RewriteAt(w, nodes, i) == nodes
    ensures Decl(nodes[i].prop, Rewritten(w, nodes[i])) !in nodes && w.replace ==>
              && |RewriteAt(w, nodes, i)| == |nodes|
              && RewriteAt(w, nodes, i)[i] == Decl(nodes[i].prop, Rewritten(w, nodes[i]))
              && forall k :: 0 <= k < |nodes| && k != i ==> RewriteAt(w, nodes, i)[k] == nodes[k]
    ensures Decl(nodes[i].prop, Rewritten(w, nodes[i])) !in nodes && !w.replace ==>
              && RewriteAt(w, nodes, i)[..i + 1] == nodes[..i + 1]
              && RewriteAt(w, nodes, i)[i + 1] == Decl(nodes[i].prop, Rewritten(w, nodes[i]))
              && RewriteAt(w, nodes, i)[i + 2..] == nodes[i + 1..]
  {
  }

  /** In replace mode every visit brings the walk closer to its end: it either advances the
      cursor or removes a child. */
  lemma ReplaceStepProgresses(w: Walker, s: WalkState)
    requires w.replace && s.cursor < |s.nodes|
    ensures |Step(w, s).nodes| - Step(w, s).cursor < |s.nodes| - s.cursor
  {
  }

  // ---- whole walks ---------------------------------------------------------------------

  /** In replace mode (the default) a walk given as many visits as children finishes, so the
      visit bound never cuts it short. */
  lemma {:induction false} ReplaceWalkFinishes(w: Walker, s: WalkState, fuel: nat)
    requires w.replace && s.cursor <= |s.nodes|
    requires fuel >= |s.nodes| - s.cursor
    ensures Finished(Walk(w, s, fuel))
    decreases fuel
  {
    if s.cursor < |s.nodes| {
      var next := Step(w, s);
      assert Walk(w, s, fuel) == Walk(w, next, fuel - 1);
      ReplaceStepProgresses(w, s);
      ReplaceWalkFinishes(w, next, fuel - 1);
    }
  }

  /** A rule without a declaration to convert comes out of the walk as it went in, ignore
      comments included. */
  lemma {:induction false} WalkWithoutCandidates(w: Walker, s: WalkState, fuel: nat)
    requires forall k :: 0 <= k < |s.nodes| ==> !Converts(w, s.nodes[k])
    ensures Walk(w, s, fuel).nodes == s.nodes
    ensures Walk(w, s, fuel).warnings == s.warnings
    decreases fuel
  {
    if !Finished(s) && fuel > 0 {
      WalkWithoutCandidates(w, Step(w, s), fuel - 1);
    }
  }

  /** No ignore comment among the children. */
  predicate NoMarkers(nodes: seq<Node>) {
    forall k :: 0 <= k < |nodes| ==> !IsIgnoreNext(nodes[k]) && !IsIgnorePrev(nodes[k])
  }

  /** Child `|done|` of `orig` after a replace-mode visit, `done` being the children before
      it as the walk has left them: the rewrite, unless the child is not one to convert or
      the rewrite is already among the children at that moment (lines 110-113). */
  function ReplacedChild(w: Walker, orig: seq<Node>, done: seq<Node>): Node
    requires |done| < |orig|
  {
    var c := orig[|done|];
    if Converts(w, c) && Decl(c.prop, Rewritten(w, c)) !in done + orig[|done|..] then
      Decl(c.prop, Rewritten(w, c))
    else c
  }

  /** The state of a replace-mode walk over `orig` without ignore comments: each child
      before the cursor is what its visit made of it, the others are untouched. */
  predicate InPlace(w: Walker, orig: seq<Node>, s: WalkState)
  {
    && |s.nodes| == |orig| && s.cursor <= |orig| && s.warnings == 0
    && (forall k :: 0 <= k < s.cursor ==> s.nodes[k] == ReplacedChild(w, orig, s.nodes[..k]))
    && (forall k :: s.cursor <= k < |orig| ==> s.nodes[k] == orig[k])
  }

  lemma InPlaceStep(w: Walker, orig: seq<Node>, s: WalkState)
    requires w.replace && NoMarkers(orig)
    requires InPlace(w, orig, s) && s.cursor < |s.nodes|
    ensures InPlace(w, orig, Step(w, s))
    ensures Step(w, s).cursor == s.cursor + 1
  {
    var i := s.cursor;
    assert s.nodes[i] == orig[i];
    assert s.nodes[..i] + orig[i..] == s.nodes;
    if i > 0 {
      assert !IsIgnoreNext(s.nodes[i - 1]) by {
        assert s.nodes[i - 1] == ReplacedChild(w, orig, s.nodes[..i - 1]);
      }
    }
    if i + 1 < |s.nodes| {
      assert s.nodes[i + 1] == orig[i + 1];
    }
    var r := Step(w, s).nodes;
    assert r == s.nodes[i := ReplacedChild(w, orig, s.nodes[..i])];
    forall k | 0 <= k <= i ensures r[..k] == s.nodes[..k] {
    }
  }

  lemma {:induction false} InPlaceWalk(w: Walker, orig: seq<Node>, s: WalkState, fuel: nat)
    requires w.replace && NoMarkers(orig)
    requires InPlace(w, orig, s) && fuel >= |orig| - s.cursor
    ensures InPlace(w, orig, Walk(w, s, fuel))
    ensures Finished(Walk(w, s, fuel))
    decreases fuel
  {
    if s.cursor < |s.nodes| {
      InPlaceStep(w, orig, s);
      InPlaceWalk(w, orig, Step(w, s), fuel - 1);
    }
  }

  /** In replace mode a rule without ignore comments keeps its children in place and raises
      no warning; each child, visited in order, becomes its rewrite exactly when it is a
      declaration to convert whose rewrite is not among the children at its visit. */
  lemma ReplaceWalkConvertsInPlace(w: Walker, nodes: seq<Node>, fuel: nat)
    requires w.replace && NoMarkers(nodes) && fuel >= |nodes|
    ensures |WalkNodes(w, nodes, fuel).nodes| == |nodes|
    ensures WalkNodes(w, nodes, fuel).warnings == 0
    ensures forall k :: 0 <= k < |nodes| ==>
              WalkNodes(w, nodes, fuel).nodes[k]
              == ReplacedChild(w, nodes, WalkNodes(w, nodes, fuel).nodes[..k])
  {
    InPlaceWalk(w, nodes, WalkState(nodes, 0, 0), fuel);
  }

  lemma InsertStepKeeps(w: Walker, s: WalkState)
    requires !w.replace && NoMarkers(s.nodes) && s.cursor < |s.nodes|
    ensures multiset(s.nodes) <= multiset(Step(w, s).nodes)
    ensures NoMarkers(Step(w, s).nodes)
    ensures Step(w, s).warnings == s.warnings
  {
    var i := s.cursor;
    var n := s.nodes[i];
    if Converts(w, n) {
      assert i == 0 || !IsIgnoreNext(s.nodes[i - 1]);
      assert i + 1 == |s.nodes| || !IsIgnorePrev(s.nodes[i + 1]);
      assert Step(w, s) == WalkState(RewriteAt(w, s.nodes, i), i + 1, s.warnings);
      InsertKeepsChildren(s.nodes, i + 1, Decl(n.prop, Rewritten(w, n)));
    }
  }

  /** Inserting a declaration keeps every child and adds no ignore comment. */
  lemma InsertKeepsChildren(nodes: seq<Node>, j: nat, d: Node)
    requires NoMarkers(nodes) && j <= |nodes| && d.Decl?
    ensures multiset(nodes) <= multiset(InsertAt(nodes, j, d))
    ensures NoMarkers(InsertAt(nodes, j, d))
  {
    var r := InsertAt(nodes, j, d);
    assert nodes == nodes[..j] + nodes[j..];
    assert multiset(r) == multiset(nodes[..j]) + multiset{d} + multiset(nodes[j..]);
    forall k | 0 <= k < |r| ensures !IsIgnoreNext(r[k]) && !IsIgnorePrev(r[k]) {
      if k < j { assert r[k] == nodes[k]; } else if k > j { assert r[k] == nodes[k - 1]; }
    }
  }

  /** In copy mode (`replace: false`) on a rule without ignore comments, the walk never loses
      or alters a child: every original child is still there, as often as before. */
  lemma {:induction false} InsertWalkKeepsOriginals(w: Walker, s: WalkState, fuel: nat)
    requires !w.replace && NoMarkers(s.nodes)
    ensures multiset(s.nodes) <= multiset(Walk(w, s, fuel).nodes)
    ensures Walk(w, s, fuel).warnings == s.warnings
    decreases fuel
  {
    if !Finished(s) && fuel > 0 {
      InsertStepKeeps(w, s);
      InsertWalkKeepsOriginals(w, Step(w, s), fuel - 1);
    }
  }

  /** In copy mode, a declaration to convert whose rewrite is not yet a child, with no ignore
      comment around it, gets its rewrite inserted right after it, and that copy is the next
      child visited: `insertAfter` does not move the iterator past it. */
  lemma InsertStepCopiesNext(w: Walker, s: WalkState)
    requires !w.replace && NoMarkers(s.nodes) && s.cursor < |s.nodes|
    requires Converts(w, s.nodes[s.cursor])
    requires Decl(s.nodes[s.cursor].prop, Rewritten(w, s.nodes[s.cursor])) !in s.nodes
    ensures Step(w, s).nodes
            == InsertAt(s.nodes, s.cursor + 1, Decl(s.nodes[s.cursor].prop, Rewritten(w, s.nodes[s.cursor])))
    ensures Step(w, s).cursor == s.cursor + 1
    ensures Step(w, s).nodes[Step(w, s).cursor]
            == Decl(s.nodes[s.cursor].prop, Rewritten(w, s.nodes[s.cursor]))
    ensures Step(w, s).warnings == s.warnings
  {
    var i := s.cursor;
    assert i == 0 || !IsIgnoreNext(s.nodes[i - 1]);
    assert i + 1 == |s.nodes| || !IsIgnorePrev(s.nodes[i + 1]);
  }

  /** The rewrite of a value the callback converts is one it does not convert, or one that
      rewrites to itself. */
  predicate SettlesAt(w: Walker, prop: string, value: string) {
    w.convertible(prop, value) ==>
      || !w.convertible(prop, w.rewrite(prop, value))
      || w.rewrite(prop, w.rewrite(prop, value)) == w.rewrite(prop, value)
  }

  /** A callback whose rewrites settle, on every value. */
  ghost predicate Settles(w: Walker) {
    forall prop, value :: SettlesAt(w, prop, value)
  }

  /** Copy mode as a reference, independent of cursors: the children `rest` are taken in
      order after `done`; each declaration to convert whose rewrite is not among the children
      at that moment is followed by its rewrite. */
  function Copied(w: Walker, done: seq<Node>, rest: seq<Node>): (r: seq<Node>)
    ensures |done| + |rest| <= |r| <= |done| + 2 * |rest|
    decreases |rest|
  {
    if rest == [] then done
    else
      var n := rest[0];
      if Converts(w, n) && Decl(n.prop, Rewritten(w, n)) !in done + rest then
        Copied(w, done + [n, Decl(n.prop, Rewritten(w, n))], rest[1..])
      else Copied(w, done + [n], rest[1..])
  }

  /** The copy-mode walk from the first of `rest` on, for a callback that settles and
      without ignore comments, is `Copied`, and two visits per child finish it. */
  lemma {:induction false} InsertWalkFrom(w: Walker, done: seq<Node>, rest: seq<Node>, warnings: nat, fuel: nat)
    requires !w.replace && Settles(w) && NoMarkers(done + rest) && fuel >= 2 * |rest|
    ensures Walk(w, WalkState(done + rest, |done|, warnings), fuel)
            == WalkState(Copied(w, done, rest), |Copied(w, done, rest)|, warnings)
    decreases |rest|, 1
  {
    if rest == [] {
      assert done + rest == done;
    } else if Converts(w, rest[0]) && Decl(rest[0].prop, Rewritten(w, rest[0])) !in done + rest {
      InsertWalkCopying(w, done, rest, warnings, fuel);
    } else {
      InsertWalkSkipping(w, done, rest, warnings, fuel);
    }
  }

  lemma {:induction false} InsertWalkCopying(w: Walker, done: seq<Node>, rest: seq<Node>, warnings: nat, fuel: nat)
    requires !w.replace && Settles(w) && NoMarkers(done + rest) && fuel >= 2 * |rest| && rest != []
    requires Converts(w, rest[0]) && Decl(rest[0].prop, Rewritten(w, rest[0])) !in done + rest
    ensures Walk(w, WalkState(done + rest, |done|, warnings), fuel)
            == WalkState(Copied(w, done, rest), |Copied(w, done, rest)|, warnings)
    decreases |rest|, 0
  {
    var n := rest[0];
    var d := Decl(n.prop, Rewritten(w, n));
    InsertVisitsTwice(w, done, rest, warnings, fuel);
    NoMarkersAfterCopy(done, n, d, rest);
    assert Copied(w, done, rest) == Copied(w, done + [n, d], rest[1..]);
    InsertWalkFrom(w, done + [n, d], rest[1..], warnings, fuel - 2);
  }

  lemma {:induction false} InsertWalkSkipping(w: Walker, done: seq<Node>, rest: seq<Node>, warnings: nat, fuel: nat)
    requires !w.replace && Settles(w) && NoMarkers(done + rest) && fuel >= 2 * |rest| && rest != []
    requires !(Converts(w, rest[0]) && Decl(rest[0].prop, Rewritten(w, rest[0])) !in done + rest)
    ensures Walk(w, WalkState(done + rest, |done|, warnings), fuel)
            == WalkState(Copied(w, done, rest), |Copied(w, done, rest)|, warnings)
    decreases |rest|, 0
  {
    var n := rest[0];
    InsertVisitSkips(w, done, rest, warnings, fuel);
    MoveFirst(done, rest);
    CopiedSkips(w, done, rest);
    InsertWalkFrom(w, done + [n], rest[1..], warnings, fuel - 1);
  }

  lemma MoveFirst(done: seq<Node>, rest: seq<Node>)
    requires rest != []
    ensures (done + [rest[0]]) + rest[1..] == done + rest
  {
    assert rest == [rest[0]] + rest[1..];
  }

  /** `Copied` past a child that gets no copy. */
  lemma CopiedSkips(w: Walker, done: seq<Node>, rest: seq<Node>)
    requires rest != []
    requires !(Converts(w, rest[0]) && Decl(rest[0].prop, Rewritten(w, rest[0])) !in done + rest)
    ensures Copied(w, done, rest) == Copied(w, done + [rest[0]], rest[1..])
  {
  }

  /** A copy-mode visit of a child that gets no copy only moves the cursor. */
  lemma InsertVisitSkips(w: Walker, done: seq<Node>, rest: seq<Node>, warnings: nat, fuel: nat)
    requires !w.replace && NoMarkers(done + rest) && rest != [] && fuel > 0
    requires !(Converts(w, rest[0]) && Decl(rest[0].prop, Rewritten(w, rest[0])) !in done + rest)
    ensures Walk(w, WalkState(done + rest, |done|, warnings), fuel)
            == Walk(w, WalkState((done + [rest[0]]) + rest[1..], |done + [rest[0]]|, warnings), fuel - 1)
  {
    assert (done + rest)[|done|] == rest[0];
    SkipVisitMoves(w, done + rest, |done|, warnings);
    assert (done + [rest[0]]) + rest[1..] == done + rest;
  }

  /** In a rule without ignore comments, the visit of a child that is not converted, or
      whose rewrite is already a child, changes nothing and moves on. */
  lemma SkipVisitMoves(w: Walker, nodes: seq<Node>, i: nat, warnings: nat)
    requires NoMarkers(nodes) && i < |nodes|
    requires !(Converts(w, nodes[i]) && Decl(nodes[i].prop, Rewritten(w, nodes[i])) !in nodes)
    ensures Step(w, WalkState(nodes, i, warnings)) == WalkState(nodes, i + 1, warnings)
  {
    assert i == 0 || !IsIgnoreNext(nodes[i - 1]);
    assert i + 1 == |nodes| || !IsIgnorePrev(nodes[i + 1]);
    if Converts(w, nodes[i]) {
      assert IsDeclarationExists(nodes, nodes[i].prop, Rewritten(w, nodes[i]));
    }
  }

  /** A copy-mode visit that inserts a copy is followed by the visit of that copy, which
      changes nothing when the callback settles. */
  lemma InsertVisitsTwice(w: Walker, done: seq<Node>, rest: seq<Node>, warnings: nat, fuel: nat)
    requires !w.replace && Settles(w) && NoMarkers(done + rest) && rest != [] && fuel > 1
    requires Converts(w, rest[0]) && Decl(rest[0].prop, Rewritten(w, rest[0])) !in done + rest
    ensures Walk(w, WalkState(done + rest, |done|, warnings), fuel)
            == Walk(w, WalkState((done + [rest[0], Decl(rest[0].prop, Rewritten(w, rest[0]))]) + rest[1..],
                                 |done + [rest[0], Decl(rest[0].prop, Rewritten(w, rest[0]))]|, warnings),
                    fuel - 2)
  {
    var n := rest[0];
    var d := Decl(n.prop, Rewritten(w, n));
    NoMarkersAfterCopy(done, n, d, rest);
    var s := WalkState(done + rest, |done|, warnings);
    assert s.nodes[s.cursor] == n;
    InsertStepCopiesNext(w, s);
    var s1 := Step(w, s);
    assert s1.nodes == (done + [n, d]) + rest[1..];
    CopyVisitIsQuiet(w, n, s1.nodes, |done| + 1, warnings);
  }

  /** In a rule without ignore comments, the visit of a copy the callback made settles: it
      changes nothing and moves on. */
  lemma CopyVisitIsQuiet(w: Walker, n: Node, nodes: seq<Node>, i: nat, warnings: nat)
    requires Settles(w) && NoMarkers(nodes) && i < |nodes| && Converts(w, n)
    requires nodes[i] == Decl(n.prop, Rewritten(w, n))
    ensures Step(w, WalkState(nodes, i, warnings)) == WalkState(nodes, i + 1, warnings)
  {
    var s := WalkState(nodes, i, warnings);
    var d := nodes[i];
    assert i == 0 || !IsIgnoreNext(nodes[i - 1]);
    assert i + 1 == |nodes| || !IsIgnorePrev(nodes[i + 1]);
    if Converts(w, d) {
      assert SettlesAt(w, n.prop, n.value);
      UnchangedValueIsLeftAlone(w, s);
    }
  }

  lemma NoMarkersAfterCopy(done: seq<Node>, n: Node, d: Node, rest: seq<Node>)
    requires NoMarkers(done + rest) && rest != [] && n == rest[0] && d.Decl?
    ensures NoMarkers((done + [n, d]) + rest[1..])
  {
    var a := (done + [n, d]) + rest[1..];
    forall k | 0 <= k < |a| ensures !IsIgnoreNext(a[k]) && !IsIgnorePrev(a[k]) {
      if k < |done| { assert a[k] == (done + rest)[k]; }
      else if k == |done| { assert a[k] == (done + rest)[|done|]; }
      else if k > |done| + 1 { assert a[k] == (done + rest)[k - 1]; }
    }
  }

  /** In copy mode, for a callback that settles and a rule without ignore comments, the walk
      finishes within two visits per child and leaves every original child in order, each
      declaration to convert directly followed by its rewrite unless that rewrite was
      already a child at its visit; no warning is raised. */
  lemma InsertWalkCopies(w: Walker, nodes: seq<Node>, fuel: nat)
    requires !w.replace && Settles(w) && NoMarkers(nodes) && fuel >= 2 * |nodes|
    ensures WalkNodes(w, nodes, fuel) == WalkState(Copied(w, [], nodes), |Copied(w, [], nodes)|, 0)
  {
    assert [] + nodes == nodes;
    InsertWalkFrom(w, [], nodes, 0, fuel);
  }

  // ---- running a walk again ------------------------------------------------------------

  /** Every declaration to convert already has its rewrite among the children. */
  predicate Settled(w: Walker, nodes: seq<Node>) {
    forall k :: 0 <= k < |nodes| && Converts(w, nodes[k]) ==>
      Decl(nodes[k].prop, Rewritten(w, nodes[k])) in nodes
  }

  /** A walk over settled children without ignore comments changes nothing, in either mode. */
  lemma {:induction false} SettledWalkKeeps(w: Walker, s: WalkState, fuel: nat)
    requires NoMarkers(s.nodes) && Settled(w, s.nodes)
    ensures Walk(w, s, fuel).nodes == s.nodes
    ensures Walk(w, s, fuel).warnings == s.warnings
    decreases fuel
  {
    if !Finished(s) && fuel > 0 {
      var i := s.cursor;
      assert i == 0 || !IsIgnoreNext(s.nodes[i - 1]);
      assert i + 1 == |s.nodes| || !IsIgnorePrev(s.nodes[i + 1]);
      if Converts(w, s.nodes[i]) {
        assert IsDeclarationExists(s.nodes, s.nodes[i].prop, Rewritten(w, s.nodes[i]));
      }
      assert Step(w, s) == s.(cursor := i + 1);
      SettledWalkKeeps(w, Step(w, s), fuel - 1);
    }
  }

  /** What a replace-mode walk leaves, for a callback that settles, is settled. */
  lemma ReplaceOutputSettled(w: Walker, orig: seq<Node>, out: seq<Node>)
    requires Settles(w) && |out| == |orig|
    requires forall k :: 0 <= k < |orig| ==> out[k] == ReplacedChild(w, orig, out[..k])
    ensures Settled(w, out)
  {
    forall k | 0 <= k < |out| && Converts(w, out[k])
      ensures Decl(out[k].prop, Rewritten(w, out[k])) in out
    {
      var c := orig[k];
      var d := Decl(c.prop, Rewritten(w, c));
      assert out[k] == ReplacedChild(w, orig, out[..k]);
      if Converts(w, c) {
        assert SettlesAt(w, c.prop, c.value);
        if out[k] == d {
        } else {
          assert out[k] == c && d in out[..k] + orig[k..];
          if d !in out[..k] {
            var j :| k <= j < |orig| && orig[j] == d;
            assert out[j] == ReplacedChild(w, orig, out[..j]);
            assert out[j] == d;
          }
        }
      }
    }
  }

  /** In replace mode, for a callback that settles and a rule without ignore comments, a
      second walk over the first one's result changes nothing: the plugin run twice is the
      plugin run once. */
  lemma ReplaceTwiceIsOnce(w: Walker, nodes: seq<Node>, fuel: nat, again: nat)
    requires w.replace && Settles(w) && NoMarkers(nodes) && fuel >= |nodes|
    ensures WalkNodes(w, WalkNodes(w, nodes, fuel).nodes, again).nodes == WalkNodes(w, nodes, fuel).nodes
  {
    var out := WalkNodes(w, nodes, fuel).nodes;
    ReplaceWalkConvertsInPlace(w, nodes, fuel);
    ReplaceOutputSettled(w, nodes, out);
    forall k | 0 <= k < |out| ensures !IsIgnoreNext(out[k]) && !IsIgnorePrev(out[k]) {
      assert out[k] == ReplacedChild(w, nodes, out[..k]);
    }
    SettledWalkKeeps(w, WalkState(out, 0, 0), again);
  }

  /** With an ignore-next comment the plugin is not idempotent: the first run keeps the
      declaration and removes the comment (line 82), so a second run converts it. */
  lemma IgnoreNextSpentOnFirstRun(w: Walker, c: Node, d: Node)
    requires w.replace && IsIgnoreNext(c) && Converts(w, d) && Rewritten(w, d) != d.value
    ensures WalkNodes(w, [c, d], 2).nodes == [d]
    ensures WalkNodes(w, WalkNodes(w, [c, d], 2).nodes, 1).nodes == [Decl(d.prop, Rewritten(w, d))]
    ensures WalkNodes(w, WalkNodes(w, [c, d], 2).nodes, 1).nodes != WalkNodes(w, [c, d], 2).nodes
  {
    var s0 := WalkState([c, d], 0, 0);
    assert Step(w, s0) == WalkState([c, d], 1, 0);
    var s1 := Step(w, s0);
    assert RemoveAt([c, d], 0) == [d];
    assert Step(w, s1) == WalkState([d], 1, 0);
    var t := WalkState([d], 0, 0);
    assert Decl(d.prop, Rewritten(w, d)) != d;
    assert [d][0 := Decl(d.prop, Rewritten(w, d))] == [Decl(d.prop, Rewritten(w, d))];
    assert Step(w, t) == WalkState([Decl(d.prop, Rewritten(w, d))], 1, 0);
  }

  // ---- landscape copies ----------------------------------------------------------------

  /** The copy of a declaration converted against the landscape width (lines 57-63). */
  function LandscapeDecl(o: Options, n: Node): (r: Node)
    requires n.Decl? && PositiveWidths(o)
    ensures r.Decl? && r.prop == n.prop
  {
    Decl(n.prop, ReplaceUnits(o, n.value, o.landscapeUnit, o.landscapeWidth))
  }

  /** The children appended to the landscape copy of a rule, in order (lines 53-65). */
  function LandscapeNodes(o: Options, nodes: seq<Node>): (r: seq<Node>)
    requires PositiveWidths(o)
    ensures |r| <= |nodes|
  {
    if nodes == [] then []
    else
      LandscapeNodes(o, nodes[..|nodes| - 1])
      + (if IsCandidate(o, nodes[|nodes| - 1]) then [LandscapeDecl(o, nodes[|nodes| - 1])] else [])
  }

  /** One more child looked at extends the copy by its landscape rewrite, if it is to be
      converted. */
  lemma LandscapeNodesExtend(o: Options, nodes: seq<Node>, k: nat)
    requires PositiveWidths(o) && k < |nodes|
    ensures LandscapeNodes(o, nodes[..k + 1])
            == LandscapeNodes(o, nodes[..k]) + (if IsCandidate(o, nodes[k]) then [LandscapeDecl(o, nodes[k])] else [])
  {
    assert nodes[..k + 1][..k] == nodes[..k];
  }

  lemma {:induction false} LandscapeNodesSound(o: Options, nodes: seq<Node>)
    requires PositiveWidths(o)
    ensures forall n :: n in LandscapeNodes(o, nodes) ==>
              exists k :: 0 <= k < |nodes| && IsCandidate(o, nodes[k]) && n == LandscapeDecl(o, nodes[k])
  {
    if nodes != [] {
      var init := nodes[..|nodes| - 1];
      LandscapeNodesSound(o, init);
      forall n | n in LandscapeNodes(o, nodes)
        ensures exists k :: 0 <= k < |nodes| && IsCandidate(o, nodes[k]) && n == LandscapeDecl(o, nodes[k])
      {
        if n in LandscapeNodes(o, init) {
          var k :| 0 <= k < |init| && IsCandidate(o, init[k]) && n == LandscapeDecl(o, init[k]);
          assert init[k] == nodes[k];
        } else {
          assert IsCandidate(o, nodes[|nodes| - 1]) && n == LandscapeDecl(o, nodes[|nodes| - 1]);
        }
      }
    }
  }

  lemma {:induction false} LandscapeNodesComplete(o: Options, nodes: seq<Node>)
    requires PositiveWidths(o)
    ensures forall k :: 0 <= k < |nodes| && IsCandidate(o, nodes[k]) ==>
              LandscapeDecl(o, nodes[k]) in LandscapeNodes(o, nodes)
  {
    if nodes != [] {
      var init := nodes[..|nodes| - 1];
      LandscapeNodesComplete(o, init);
      forall k | 0 <= k < |nodes| && IsCandidate(o, nodes[k])
        ensures LandscapeDecl(o, nodes[k]) in LandscapeNodes(o, nodes)
      {
        if k < |init| {
          assert init[k] == nodes[k];
        }
      }
    }
  }

  /** The landscape copy holds exactly the landscape rewrites of the declarations to convert:
      every child of the copy comes from one, and every one is in the copy. */
  lemma LandscapeNodesCharacterised(o: Options, nodes: seq<Node>)
    requires PositiveWidths(o)
    ensures forall n :: n in LandscapeNodes(o, nodes) ==>
              exists k :: 0 <= k < |nodes| && IsCandidate(o, nodes[k]) && n == LandscapeDecl(o, nodes[k])
    ensures forall k :: 0 <= k < |nodes| && IsCandidate(o, nodes[k]) ==>
              LandscapeDecl(o, nodes[k]) in LandscapeNodes(o, nodes)
    ensures LandscapeNodes(o, nodes) == [] <==> forall k :: 0 <= k < |nodes| ==> !IsCandidate(o, nodes[k])
  {
    LandscapeNodesSound(o, nodes);
    LandscapeNodesComplete(o, nodes);
  }

  // ---- one rule ------------------------------------------------------------------------

  /** The three filters of lines 46-48: the rule's file passes `include` and `exclude` and
      its selector is not blacklisted. */
  predicate RuleSelected(o: Options, rule: Rule) {
    && ShouldFileInclude(o.includeFiles, rule.file)
    && !ShouldFileExclude(o.excludeFiles, rule.file)
    && !IsBlacklistedSelector(o.selectorBlackList, Some(rule.selector))
  }

  /** The landscape copy a selected rule contributes: one when `landscape` is on, the rule is
      not inside an at-rule with parameters, and the copy is not empty (lines 50-70). */
  function LandscapeClones(o: Options, rule: Rule): (r: seq<Rule>)
    requires PositiveWidths(o)
    ensures |r| <= 1
  {
    if o.landscape && !Truthy(rule.parentParams) && LandscapeNodes(o, rule.nodes) != [] then
      [rule.(nodes := LandscapeNodes(o, rule.nodes))]
    else []
  }

  /** What visiting one rule produces: the rule afterwards, the landscape copies it adds,
      and the warnings it raises. */
  datatype Visit = Visit(rule: Rule, clones: seq<Rule>, warnings: nat)

  /** Same selector, file and enclosing at-rule: only the children may differ. */
  predicate SameRule(a: Rule, b: Rule) {
    a.selector == b.selector && a.file == b.file && a.parentParams == b.parentParams
  }

  /** `walkRuleFunction(rule)`. */
  function VisitRule(o: Options, rule: Rule, fuel: nat): (v: Visit)
    requires PositiveWidths(o)
    ensures SameRule(rule, v.rule)
  {
    if !RuleSelected(o, rule) then Visit(rule, [], 0)
    else if !IsValidateParams(rule.parentParams, o.mediaQuery) then
      Visit(rule, LandscapeClones(o, rule), 0)
    else
      Visit(rule.(nodes := WalkNodes(WalkerFor(o, rule.parentParams), rule.nodes, fuel).nodes),
            LandscapeClones(o, rule),
            WalkNodes(WalkerFor(o, rule.parentParams), rule.nodes, fuel).warnings)
  }

  /** A landscape copy keeps the selector, file and at-rule of the rule it copies. */
  lemma VisitRuleCopies(o: Options, rule: Rule, fuel: nat)
    requires PositiveWidths(o)
    ensures forall c :: c in VisitRule(o, rule, fuel).clones ==> SameRule(rule, c)
  {
  }

  /** A rule the file or selector filters reject is left exactly as it is and adds nothing. */
  lemma UnselectedRuleUntouched(o: Options, rule: Rule, fuel: nat)
    requires PositiveWidths(o) && !RuleSelected(o, rule)
    ensures VisitRule(o, rule, fuel) == Visit(rule, [], 0)
  {
  }

  /** A rule inside an at-rule with parameters is converted only with `mediaQuery` on, and
      never gets a landscape copy. */
  lemma NestedRuleNeedsMediaQuery(o: Options, rule: Rule, fuel: nat)
    requires PositiveWidths(o) && Truthy(rule.parentParams) && !o.mediaQuery
    ensures VisitRule(o, rule, fuel) == Visit(rule, [], 0)
  {
  }

  /** A rule gets a landscape copy exactly when it is selected, `landscape` is on, it is not
      inside an at-rule with parameters, and it has a declaration to convert; the copy keeps
      the selector and holds the landscape rewrites. */
  lemma LandscapeCopyWhen(o: Options, rule: Rule, fuel: nat)
    requires PositiveWidths(o)
    ensures VisitRule(o, rule, fuel).clones != []
            <==> RuleSelected(o, rule) && o.landscape && !Truthy(rule.parentParams)
                 && exists k :: 0 <= k < |rule.nodes| && IsCandidate(o, rule.nodes[k])
    ensures VisitRule(o, rule, fuel).clones != [] ==>
              VisitRule(o, rule, fuel).clones == [rule.(nodes := LandscapeNodes(o, rule.nodes))]
  {
    LandscapeNodesCharacterised(o, rule.nodes);
  }

  // ---- one pass, every pass ------------------------------------------------------------

  /** The rules of the tree after some passes, the landscape copies collected, and the
      warnings raised. */
  datatype Outcome = Outcome(rules: seq<Rule>, clones: seq<Rule>, warnings: nat)

  /** Every rule of `after` is the rule of `before` at the same place, children aside. */
  predicate SameRules(before: seq<Rule>, after: seq<Rule>) {
    |after| == |before| && forall k :: 0 <= k < |before| ==> SameRule(before[k], after[k])
  }

  /** `c` has the selector, file and at-rule of one of `rules`. */
  predicate CopyOfOne(c: Rule, rules: seq<Rule>) {
    exists k :: 0 <= k < |rules| && SameRule(rules[k], c)
  }

  /** `css.walkRules(walkRuleFunction)`: every rule, in document order. */
  function Pass(o: Options, rules: seq<Rule>, fuel: nat): (r: Outcome)
    requires PositiveWidths(o)
    ensures |r.rules| == |rules|
  {
    if rules == [] then Outcome([], [], 0)
    else
      var init := Pass(o, rules[..|rules| - 1], fuel);
      var v := VisitRule(o, rules[|rules| - 1], fuel);
      Outcome(init.rules + [v.rule], init.clones + v.clones, init.warnings + v.warnings)
  }

  /** A pass changes only the children of rules, and every copy it collects has the
      selector, file and at-rule of one of the rules it walked. */
  lemma {:induction false} PassKeepsRules(o: Options, rules: seq<Rule>, fuel: nat)
    requires PositiveWidths(o)
    ensures SameRules(rules, Pass(o, rules, fuel).rules)
    ensures forall c :: c in Pass(o, rules, fuel).clones ==> CopyOfOne(c, rules)
  {
    if rules != [] {
      var init := rules[..|rules| - 1];
      PassKeepsRules(o, init, fuel);
      var last := rules[|rules| - 1];
      var v := VisitRule(o, last, fuel);
      VisitRuleCopies(o, last, fuel);
      forall c | c in Pass(o, rules, fuel).clones ensures CopyOfOne(c, rules) {
        if c in Pass(o, init, fuel).clones {
          var k :| 0 <= k < |init| && SameRule(init[k], c);
          assert SameRule(rules[k], c);
        } else {
          assert c in v.clones;
          assert SameRule(rules[|rules| - 1], c);
        }
      }
      var r := Pass(o, rules, fuel).rules;
      forall k | 0 <= k < |rules| ensures SameRule(rules[k], r[k]) {
        if k < |init| {
          assert r[k] == Pass(o, init, fuel).rules[k] && rules[k] == init[k];
        }
      }
    }
  }

  /** One more rule visited extends the pass by that rule's visit. */
  lemma PassExtend(o: Options, rules: seq<Rule>, k: nat, fuel: nat)
    requires PositiveWidths(o) && k < |rules|
    ensures Pass(o, rules[..k + 1], fuel)
            == Outcome(Pass(o, rules[..k], fuel).rules + [VisitRule(o, rules[k], fuel).rule],
                       Pass(o, rules[..k], fuel).clones + VisitRule(o, rules[k], fuel).clones,
                       Pass(o, rules[..k], fuel).warnings + VisitRule(o, rules[k], fuel).warnings)
  {
    assert rules[..k + 1][..k] == rules[..k];
  }

  predicate AllPositive(configs: seq<Options>) {
    forall i :: 0 <= i < |configs| ==> PositiveWidths(configs[i])
  }

  /** The walk functions of every configuration, in order, over the same tree (lines 122-124);
      the copies from every pass go to one list. */
  function RunAll(configs: seq<Options>, rules: seq<Rule>, fuel: nat): (r: Outcome)
    requires AllPositive(configs)
    ensures |r.rules| == |rules|
  {
    if configs == [] then Outcome(rules, [], 0)
    else
      var init := RunAll(configs[..|configs| - 1], rules, fuel);
      var p := Pass(configs[|configs| - 1], init.rules, fuel);
      Outcome(p.rules, init.clones + p.clones, init.warnings + p.warnings)
  }

  /** All the passes together change only the children of rules, and every copy collected
      has the selector, file and at-rule of one of the tree's rules. */
  lemma {:induction false} RunAllKeepsRules(configs: seq<Options>, rules: seq<Rule>, fuel: nat)
    requires AllPositive(configs)
    ensures SameRules(rules, RunAll(configs, rules, fuel).rules)
    ensures forall c :: c in RunAll(configs, rules, fuel).clones ==> CopyOfOne(c, rules)
  {
    if configs != [] {
      var init := configs[..|configs| - 1];
      var o := configs[|configs| - 1];
      RunAllKeepsRules(init, rules, fuel);
      var before := RunAll(init, rules, fuel).rules;
      PassKeepsRules(o, before, fuel);
      forall c | c in RunAll(configs, rules, fuel).clones ensures CopyOfOne(c, rules) {
        if c !in RunAll(init, rules, fuel).clones {
          assert c in Pass(o, before, fuel).clones;
          var k :| 0 <= k < |before| && SameRule(before[k], c);
          assert SameRule(rules[k], before[k]);
        }
      }
    }
  }

  /** One more configuration run extends the passes by that configuration's pass. */
  lemma RunAllExtend(configs: seq<Options>, c: nat, rules: seq<Rule>, fuel: nat)
    requires AllPositive(configs) && c < |configs|
    ensures AllPositive(configs[..c]) && AllPositive(configs[..c + 1])
    ensures RunAll(configs[..c + 1], rules, fuel)
            == Outcome(Pass(configs[c], RunAll(configs[..c], rules, fuel).rules, fuel).rules,
                       RunAll(configs[..c], rules, fuel).clones
                         + Pass(configs[c], RunAll(configs[..c], rules, fuel).rules, fuel).clones,
                       RunAll(configs[..c], rules, fuel).warnings
                         + Pass(configs[c], RunAll(configs[..c], rules, fuel).rules, fuel).warnings)
  {
    assert forall i :: 0 <= i < c + 1 ==> configs[..c + 1][i] == configs[i];
    assert configs[..c + 1][..c] == configs[..c];
  }

  /** The parameters of the landscape block. */
  const LandscapeParams := "(orientation: landscape)"

  /** What processing one tree gives: its rules, the media block appended at its end if any,
      the warnings, and the copies the plugin still holds afterwards. */
  datatype Processed = Processed(rules: seq<Rule>, media: Option<MediaBlock>, warnings: nat, held: seq<Rule>)

  /** The block appended at the end: none when the collected list is empty (lines 125-130). */
  function MediaFor(held: seq<Rule>): (m: Option<MediaBlock>)
    ensures m.Some? <==> held != []
    ensures m.Some? ==> m.value == MediaBlock(LandscapeParams, held)
  {
    if held == [] then None else Some(MediaBlock(LandscapeParams, held))
  }

  /** The function returned by the plugin, applied to a tree while the plugin already holds
      the copies `held` from earlier trees: the list is created once per plugin (line 30) and
      only ever grows. */
  function Transform(configs: seq<Options>, held: seq<Rule>, rules: seq<Rule>, fuel: nat): (r: Processed)
    requires AllPositive(configs)
  {
    var out := RunAll(configs, rules, fuel);
    Processed(out.rules, MediaFor(held + out.clones), out.warnings, held + out.clones)
  }

  /** The tree processed by a plugin that has not seen another one. */
  function TransformFresh(configs: seq<Options>, rules: seq<Rule>, fuel: nat): (r: Processed)
    requires AllPositive(configs)
  {
    Transform(configs, [], rules, fuel)
  }

  /** A plugin used on a second tree appends the landscape copies of the first one to it,
      even when the second tree has no rule of its own to copy. */
  lemma EarlierCopiesReappear(configs: seq<Options>, held: seq<Rule>, rules: seq<Rule>, fuel: nat)
    requires AllPositive(configs) && held != []
    ensures Transform(configs, held, rules, fuel).media.Some?
    ensures Transform(configs, held, rules, fuel).media.value.rules[..|held|] == held
  {
  }

  /** A tree processed by a fresh plugin gets a landscape block exactly when one of its own
      rules was copied, and every rule in the block is a copy of one of its rules. */
  lemma FreshMediaHoldsOnlyOwnCopies(configs: seq<Options>, rules: seq<Rule>, fuel: nat)
    requires AllPositive(configs)
    ensures TransformFresh(configs, rules, fuel).media.Some? <==> RunAll(configs, rules, fuel).clones != []
    ensures TransformFresh(configs, rules, fuel).media.Some? ==>
              forall c :: c in TransformFresh(configs, rules, fuel).media.value.rules ==> CopyOfOne(c, rules)
  {
    var clones := RunAll(configs, rules, fuel).clones;
    RunAllKeepsRules(configs, rules, fuel);
    assert [] + clones == clones;
    assert TransformFresh(configs, rules, fuel).media == MediaFor(clones);
  }

  // ---- the visit bound -----------------------------------------------------------------

  /** Visits beyond the end of a walk change nothing. */
  lemma {:induction false} WalkPastEnd(w: Walker, s: WalkState, fuel: nat, more: nat)
    requires Finished(Walk(w, s, fuel)) && fuel <= more
    ensures Walk(w, s, more) == Walk(w, s, fuel)
    decreases fuel
  {
    if !Finished(s) {
      WalkPastEnd(w, Step(w, s), fuel - 1, more - 1);
    }
  }

  /** A replace-mode walk never adds a child. */
  lemma {:induction false} ReplaceWalkShrinks(w: Walker, s: WalkState, fuel: nat)
    requires w.replace
    ensures |Walk(w, s, fuel).nodes| <= |s.nodes|
    decreases fuel
  {
    if !Finished(s) && fuel > 0 {
      ReplaceWalkShrinks(w, Step(w, s), fuel - 1);
    }
  }

  /** In replace mode a visit bound of at least the rule's number of children gives the
      rule's full visit: a larger bound gives the same, and the rule has no more children
      afterwards than before. */
  lemma VisitRuleEnoughFuel(o: Options, rule: Rule, fuel: nat, more: nat)
    requires PositiveWidths(o) && o.replace && |rule.nodes| <= fuel <= more
    ensures VisitRule(o, rule, more) == VisitRule(o, rule, fuel)
    ensures |VisitRule(o, rule, fuel).rule.nodes| <= |rule.nodes|
  {
    var w := WalkerFor(o, rule.parentParams);
    var s := WalkState(rule.nodes, 0, 0);
    ReplaceWalkFinishes(w, s, fuel);
    WalkPastEnd(w, s, fuel, more);
    ReplaceWalkShrinks(w, s, fuel);
  }

  /** No rule has more children than the visit bound. */
  predicate FuelCovers(rules: seq<Rule>, fuel: nat) {
    forall k :: 0 <= k < |rules| ==> |rules[k].nodes| <= fuel
  }

  /** The same for a pass over all rules. */
  lemma {:induction false} PassEnoughFuel(o: Options, rules: seq<Rule>, fuel: nat, more: nat)
    requires PositiveWidths(o) && o.replace && FuelCovers(rules, fuel) && fuel <= more
    ensures Pass(o, rules, more) == Pass(o, rules, fuel)
    ensures FuelCovers(Pass(o, rules, fuel).rules, fuel)
  {
    if rules != [] {
      var init := rules[..|rules| - 1];
      var last := rules[|rules| - 1];
      assert FuelCovers(init, fuel) by {
        forall k | 0 <= k < |init| ensures |init[k].nodes| <= fuel {
          assert init[k] == rules[k];
        }
      }
      PassEnoughFuel(o, init, fuel, more);
      VisitRuleEnoughFuel(o, last, fuel, more);
      var r := Pass(o, rules, fuel).rules;
      forall k | 0 <= k < |r| ensures |r[k].nodes| <= fuel {
        if k < |init| {
          assert r[k] == Pass(o, init, fuel).rules[k];
        }
      }
    }
  }

  /** Every configuration replaces in place. */
  predicate AllReplace(configs: seq<Options>) {
    forall i :: 0 <= i < |configs| ==> configs[i].replace
  }

  /** The same for the passes of every configuration. */
  lemma {:induction false} RunAllEnoughFuel(configs: seq<Options>, rules: seq<Rule>, fuel: nat, more: nat)
    requires AllPositive(configs) && AllReplace(configs) && FuelCovers(rules, fuel) && fuel <= more
    ensures RunAll(configs, rules, more) == RunAll(configs, rules, fuel)
    ensures FuelCovers(RunAll(configs, rules, fuel).rules, fuel)
  {
    if configs != [] {
      var init := configs[..|configs| - 1];
      var o := configs[|configs| - 1];
      assert AllReplace(init) && AllPositive(init) by {
        forall i | 0 <= i < |init| ensures init[i] == configs[i] { }
      }
      RunAllEnoughFuel(init, rules, fuel, more);
      PassEnoughFuel(o, RunAll(init, rules, fuel).rules, fuel, more);
    }
  }

  /** With replace-mode configurations and a visit bound of at least the largest number of
      children of a rule, processing a tree does not depend on the bound: every walk ran to
      its end. */
  lemma TransformEnoughFuel(configs: seq<Options>, held: seq<Rule>, rules: seq<Rule>, fuel: nat, more: nat)
    requires AllPositive(configs) && AllReplace(configs) && FuelCovers(rules, fuel) && fuel <= more
    ensures Transform(configs, held, rules, more) == Transform(configs, held, rules, fuel)
  {
    RunAllEnoughFuel(configs, rules, fuel, more);
  }
}
