/** The plugin as it runs: a tree whose rules are changed in place through the container
    operations PostCSS offers, and a plugin object that keeps its configurations and the
    landscape copies it has collected. */
module Plugin {
  import opened Wrappers
  import opened Options
  import opened Css
  import opened Policy
  import opened Conversion
  import opened RuleWalk

  /** Replacing the element just after `done` in `done + rest` by `v`. */
  lemma SplitAtBoundary(done: seq<Rule>, rest: seq<Rule>, v: Rule)
    requires rest != []
    ensures (done + rest)[|done|] == rest[0]
    ensures (done + rest)[|done| := v] == done + [v] + rest[1..]
  {
    assert ((done + rest)[|done| := v])[..|done|] == done;
  }

  /** The tree being processed: its rules in document order, the blocks appended at its end,
      and the warnings reported on its result. */
  class Root {
    var rules: seq<Rule>
    var appended: seq<MediaBlock>
    var warnings: nat

    constructor (rules: seq<Rule>)
      ensures this.rules == rules && appended == [] && warnings == 0
    {
      this.rules := rules;
      appended := [];
      warnings := 0;
    }

    /** `node.remove()` on child `j` of rule `i`. */
    method RemoveChild(i: nat, j: nat)
      requires i < |rules| && j < |rules[i].nodes|
      modifies this
      ensures rules == old(rules)[i := old(rules)[i].(nodes := RemoveAt(old(rules)[i].nodes, j))]
      ensures appended == old(appended) && warnings == old(warnings)
    {
      rules := rules[i := rules[i].(nodes := RemoveAt(rules[i].nodes, j))];
    }

    /** `rule.insertAfter(j, n)`: `n` becomes child `j + 1` of rule `i`. */
    method InsertAfter(i: nat, j: nat, n: Node)
      requires i < |rules| && j < |rules[i].nodes|
      modifies this
      ensures rules == old(rules)[i := old(rules)[i].(nodes := InsertAt(old(rules)[i].nodes, j + 1, n))]
      ensures appended == old(appended) && warnings == old(warnings)
    {
      rules := rules[i := rules[i].(nodes := InsertAt(rules[i].nodes, j + 1, n))];
    }

    /** `decl.value = value` on child `j` of rule `i`. */
    method SetValue(i: nat, j: nat, value: string)
      requires i < |rules| && j < |rules[i].nodes| && rules[i].nodes[j].Decl?
      modifies this
      ensures rules == old(rules)[i := old(rules)[i].(nodes :=
                old(rules)[i].nodes[j := Decl(old(rules)[i].nodes[j].prop, value)])]
      ensures appended == old(appended) && warnings == old(warnings)
    {
      rules := rules[i := rules[i].(nodes := rules[i].nodes[j := Decl(rules[i].nodes[j].prop, value)])];
    }

    /** `result.warn(...)`. */
    method Warn()
      modifies this
      ensures warnings == old(warnings) + 1
      ensures rules == old(rules) && appended == old(appended)
    {
      warnings := warnings + 1;
    }

    /** `css.append(block)`. */
    method Append(block: MediaBlock)
      modifies this
      ensures appended == old(appended) + [block]
      ensures rules == old(rules) && warnings == old(warnings)
    {
      appended := appended + [block];
    }
  }

  /** The plugin built from a list of configurations (lines 28-120): the configurations, each
      merged with the defaults and validated, and the list of landscape copies, created once
      with the plugin. */
  class Plugin {
    const configs: seq<Options>
    var landscapeRules: seq<Rule>

    constructor (configs: seq<Options>)
      requires ValidateAll(configs).None?
      ensures this.configs == configs && landscapeRules == []
    {
      this.configs := configs;
      landscapeRules := [];
    }

    /** The plugin function: the configurations are validated in order and the first one that
        fails throws its error; otherwise a plugin is built. */
    static method Create(pluginOptions: seq<Options>) returns (r: Result<Plugin, ConfigError>)
      ensures r.Err? <==> ValidateAll(pluginOptions).Some?
      ensures r.Err? ==> r.error == ValidateAll(pluginOptions).value
      ensures r.Ok? ==> fresh(r.value) && r.value.configs == pluginOptions && r.value.landscapeRules == []
    {
      for c := 0 to |pluginOptions|
        invariant forall j :: 0 <= j < c ==> Validate(pluginOptions[j]).Ok?
      {
        var checked := Validate(pluginOptions[c]);
        if checked.Err? {
          ValidateAllFindsFirst(pluginOptions, c);
          return Err(checked.error);
        }
      }
      var p := new Plugin(pluginOptions);
      return Ok(p);
    }

    /** The callback of lines 74-117 on child `cursor` of rule `i`, then the iterator's
        advance; `next` is where the iterator stands afterwards. `w` holds the tests and the
        rewriting the plugin closes over, and the warnings are counted from `base`. */
    method VisitDecl(css: Root, w: Walker, i: nat, cursor: nat, ghost s: WalkState, ghost base: nat)
        returns (next: nat)
      requires i < |css.rules| && s.nodes == css.rules[i].nodes && s.cursor == cursor
      requires cursor < |s.nodes| && css.warnings == base + s.warnings
      modifies css
      ensures |css.rules| == |old(css.rules)|
      ensures css.rules == old(css.rules)[i := old(css.rules)[i].(nodes := css.rules[i].nodes)]
      ensures css.rules[i].nodes == Step(w, s).nodes && next == Step(w, s).cursor
      ensures css.warnings == base + Step(w, s).warnings
      ensures css.appended == old(css.appended)
    {
      var nodes := css.rules[i].nodes;
      next := cursor + 1;
      var decl := nodes[cursor];
      if !decl.Decl? || !w.convertible(decl.prop, decl.value) {
        return;
      }
      if cursor > 0 && IsIgnoreNext(nodes[cursor - 1]) {
        css.RemoveChild(i, cursor - 1);
        next := cursor;
        return;
      }
      if cursor + 1 < |nodes| && IsIgnorePrev(nodes[cursor + 1]) {
        if OnOwnLine(nodes[cursor + 1]) {
          css.Warn();
        } else {
          css.RemoveChild(i, cursor + 1);
          return;
        }
      }
      RewriteDecl(css, w, i, cursor);
    }

    /** Lines 97-116 on declaration `cursor` of rule `i`: the rewritten value, the duplicate
        test, then the new value in place or a copy after it. */
    method RewriteDecl(css: Root, w: Walker, i: nat, cursor: nat)
      requires i < |css.rules| && cursor < |css.rules[i].nodes|
      requires css.rules[i].nodes[cursor].Decl?
      modifies css
      ensures css.rules == old(css.rules)[i := old(css.rules)[i].(nodes :=
                RewriteAt(w, old(css.rules)[i].nodes, cursor))]
      ensures css.warnings == old(css.warnings) && css.appended == old(css.appended)
    {
      var decl := css.rules[i].nodes[cursor];
      var value := w.rewrite(decl.prop, decl.value);
      if IsDeclarationExists(css.rules[i].nodes, decl.prop, value) {
        return;
      }
      if w.replace {
        css.SetValue(i, cursor, value);
      } else {
        css.InsertAfter(i, cursor, Decl(decl.prop, value));
      }
    }

    /** `rule.walkDecls(...)` of lines 74-117 on rule `i` of the tree, at most `fuel` visits. */
    method WalkDecls(css: Root, w: Walker, i: nat, fuel: nat)
      requires i < |css.rules|
      modifies css
      ensures css.rules == old(css.rules)[i := old(css.rules)[i].(nodes :=
                WalkNodes(w, old(css.rules)[i].nodes, fuel).nodes)]
      ensures css.warnings == old(css.warnings) + WalkNodes(w, old(css.rules)[i].nodes, fuel).warnings
      ensures css.appended == old(css.appended)
    {
      ghost var rule := css.rules[i];
      ghost var base := css.warnings;
      ghost var goal := WalkNodes(w, rule.nodes, fuel);
      ghost var s := WalkState(rule.nodes, 0, 0);
      var cursor: nat := 0;
      var left := fuel;
      while cursor < |css.rules[i].nodes| && left > 0
        invariant |css.rules| == |old(css.rules)|
        invariant css.rules == old(css.rules)[i := rule.(nodes := css.rules[i].nodes)]
        invariant css.appended == old(css.appended)
        invariant s.nodes == css.rules[i].nodes && s.cursor == cursor && css.warnings == base + s.warnings
        invariant Walk(w, s, left) == goal
        decreases left
      {
        cursor := VisitDecl(css, w, i, cursor, s, base);
        WalkAdvances(w, s, Step(w, s), left);
        s := Step(w, s);
        left := left - 1;
      }
    }

    /** Lines 51-69: the landscape copy of rule `i`, kept when it has children. */
    method CollectLandscape(css: Root, o: Options, i: nat)
      requires PositiveWidths(o) && i < |css.rules|
      modifies this
      ensures landscapeRules == old(landscapeRules)
                + (if LandscapeNodes(o, css.rules[i].nodes) != []
                   then [css.rules[i].(nodes := LandscapeNodes(o, css.rules[i].nodes))] else [])
    {
      var rule := css.rules[i];
      var copy: seq<Node> := [];
      for k := 0 to |rule.nodes|
        invariant copy == LandscapeNodes(o, rule.nodes[..k])
        invariant landscapeRules == old(landscapeRules)
      {
        LandscapeNodesExtend(o, rule.nodes, k);
        var decl := rule.nodes[k];
        if IsCandidate(o, decl) {
          copy := copy + [Decl(decl.prop, ReplaceUnits(o, decl.value, o.landscapeUnit, o.landscapeWidth))];
        }
      }
      assert rule.nodes[..|rule.nodes|] == rule.nodes;
      assert copy == LandscapeNodes(o, rule.nodes);
      if |copy| > 0 {
        landscapeRules := landscapeRules + [rule.(nodes := copy)];
      }
    }

    /** `walkRuleFunction(rule)` on rule `i` of the tree (lines 42-118). */
    method WalkRule(css: Root, o: Options, i: nat, fuel: nat)
      requires PositiveWidths(o) && i < |css.rules|
      modifies this, css
      ensures css.rules == old(css.rules)[i := VisitRule(o, old(css.rules)[i], fuel).rule]
      ensures landscapeRules == old(landscapeRules) + VisitRule(o, old(css.rules)[i], fuel).clones
      ensures css.warnings == old(css.warnings) + VisitRule(o, old(css.rules)[i], fuel).warnings
      ensures css.appended == old(css.appended)
    {
      var rule := css.rules[i];
      if !ShouldFileInclude(o.includeFiles, rule.file) {
        return;
      }
      if ShouldFileExclude(o.excludeFiles, rule.file) {
        return;
      }
      if IsBlacklistedSelector(o.selectorBlackList, Some(rule.selector)) {
        return;
      }
      if o.landscape && !Truthy(rule.parentParams) {
        CollectLandscape(css, o, i);
      }
      if !IsValidateParams(rule.parentParams, o.mediaQuery) {
        return;
      }
      WalkDecls(css, WalkerFor(o, rule.parentParams), i, fuel);
    }

    /** One round of `css.walkRules`: the rules before `k` are the pass's output so far,
        and visiting rule `k` extends that pass by one rule. */
    method WalkRulesStep(css: Root, o: Options, ghost start: seq<Rule>, k: nat, fuel: nat,
                         ghost held: seq<Rule>, ghost reported: nat)
      requires PositiveWidths(o) && k < |start|
      requires css.rules == Pass(o, start[..k], fuel).rules + start[k..]
      requires landscapeRules == held + Pass(o, start[..k], fuel).clones
      requires css.warnings == reported + Pass(o, start[..k], fuel).warnings
      modifies this, css
      ensures css.rules == Pass(o, start[..k + 1], fuel).rules + start[k + 1..]
      ensures landscapeRules == held + Pass(o, start[..k + 1], fuel).clones
      ensures css.warnings == reported + Pass(o, start[..k + 1], fuel).warnings
      ensures css.appended == old(css.appended)
    {
      ghost var done := Pass(o, start[..k], fuel);
      ghost var v := VisitRule(o, start[k], fuel);
      PassExtend(o, start, k, fuel);
      SplitAtBoundary(done.rules, start[k..], v.rule);
      assert start[k..][1..] == start[k + 1..];
      WalkRule(css, o, k, fuel);
      assert done.rules + [v.rule] + start[k + 1..] == Pass(o, start[..k + 1], fuel).rules + start[k + 1..];
      assert held + done.clones + v.clones == held + Pass(o, start[..k + 1], fuel).clones;
    }

    /** `css.walkRules(walkRuleFunction)`: every rule of the tree, in order. */
    method WalkRules(css: Root, o: Options, fuel: nat)
      requires PositiveWidths(o)
      modifies this, css
      ensures css.rules == Pass(o, old(css.rules), fuel).rules
      ensures landscapeRules == old(landscapeRules) + Pass(o, old(css.rules), fuel).clones
      ensures css.warnings == old(css.warnings) + Pass(o, old(css.rules), fuel).warnings
      ensures css.appended == old(css.appended)
    {
      ghost var start := css.rules;
      ghost var held := landscapeRules;
      ghost var reported := css.warnings;
      var count := |css.rules|;
      assert start[..0] == [];
      for k := 0 to count
        invariant |start| == count
        invariant css.rules == Pass(o, start[..k], fuel).rules + start[k..]
        invariant landscapeRules == held + Pass(o, start[..k], fuel).clones
        invariant css.warnings == reported + Pass(o, start[..k], fuel).warnings
        invariant css.appended == old(css.appended)
      {
        WalkRulesStep(css, o, start, k, fuel, held, reported);
      }
      assert start[..|start|] == start;
    }

    /** The function the plugin returns, applied to one tree (lines 121-130): every
        configuration's pass in order, then the landscape block if the plugin holds any
        copy. */
    method Apply(css: Root, fuel: nat)
      requires AllPositive(configs)
      modifies this, css
      ensures css.rules == Transform(configs, old(landscapeRules), old(css.rules), fuel).rules
      ensures landscapeRules == Transform(configs, old(landscapeRules), old(css.rules), fuel).held
      ensures css.warnings == old(css.warnings) + Transform(configs, old(landscapeRules), old(css.rules), fuel).warnings
      ensures css.appended == old(css.appended)
                + match Transform(configs, old(landscapeRules), old(css.rules), fuel).media
                  case None => []
                  case Some(block) => [block]
    {
      ghost var start := css.rules;
      for c := 0 to |configs|
        invariant AllPositive(configs[..c])
        invariant css.rules == RunAll(configs[..c], start, fuel).rules
        invariant landscapeRules == old(landscapeRules) + RunAll(configs[..c], start, fuel).clones
        invariant css.warnings == old(css.warnings) + RunAll(configs[..c], start, fuel).warnings
        invariant css.appended == old(css.appended)
      {
        RunAllExtend(configs, c, start, fuel);
        WalkRules(css, configs[c], fuel);
      }
      assert configs[..|configs|] == configs;
      if |landscapeRules| == 0 {
        return;
      }
      css.Append(MediaBlock(LandscapeParams, landscapeRules));
    }

    /** `Apply` with the landscape list emptied first, as a plugin used on one tree sees it. */
    method ApplyFresh(css: Root, fuel: nat)
      requires AllPositive(configs)
      modifies this, css
      ensures css.rules == TransformFresh(configs, old(css.rules), fuel).rules
      ensures landscapeRules == TransformFresh(configs, old(css.rules), fuel).held
      ensures css.warnings == old(css.warnings) + TransformFresh(configs, old(css.rules), fuel).warnings
      ensures css.appended == old(css.appended)
                + match TransformFresh(configs, old(css.rules), fuel).media
                  case None => []
                  case Some(block) => [block]
    {
      landscapeRules := [];
      Apply(css, fuel);
    }
  }
}
