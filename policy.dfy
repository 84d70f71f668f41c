/** The small decisions the rule walker takes: which files and selectors it skips, whether
    a rule inside an at-rule is converted, which unit and width a declaration gets, and the
    duplicate test before a converted value is written. */
module Policy {
  import opened Wrappers
  import opened Strings
  import opened Options
  import opened Css

  /** JavaScript truthiness of a string that may be undefined: the empty string is falsy. */
  predicate Truthy(s: Option<string>) {
    s.Some? && s.value != ""
  }

  /** `option.some(item => item.test(file))` over an `include`/`exclude` array. An element
      that is not a regular expression never matches here; validation rejects such arrays
      before any file is looked at. */
  function SomeItemMatches(items: seq<FileItem>, file: string): (r: bool)
    ensures r <==> exists i :: 0 <= i < |items| && items[i].ItemRegExp? && items[i].test(file)
  {
    if items == [] then false
    else if items[0].ItemRegExp? && items[0].test(file) then true
    else
      var rest := SomeItemMatches(items[1..], file);
      assert forall i :: 1 <= i < |items| ==> items[i] == items[1..][i - 1];
      rest
  }

  /** `isFileMatchOption(option, file)`: a regular expression is tested, an array matches when
      one of its expressions does, and any other value gives `undefined`, which is falsy. */
  predicate IsFileMatchOption(option: FileOption, file: string) {
    match option
    case RegExp(test) => test(file)
    case ArrayOption(items) => SomeItemMatches(items, file)
    case _ => false
  }

  /** `shouldFileInclude(option, file)`. */
  predicate ShouldFileInclude(option: FileOption, file: Option<string>) {
    option.Unset? || !Truthy(file) || IsFileMatchOption(option, file.value)
  }

  /** `shouldFileExclude(option, file)`. */
  predicate ShouldFileExclude(option: FileOption, file: Option<string>) {
    !option.Unset? && Truthy(file) && IsFileMatchOption(option, file.value)
  }

  /** Without an option or without a file name, every rule is included and none excluded. */
  lemma FileFiltersOffWithoutOptionOrFile(option: FileOption, file: Option<string>)
    requires option.Unset? || !Truthy(file)
    ensures ShouldFileInclude(option, file) && !ShouldFileExclude(option, file)
  {
  }

  /** With both an option and a file name the two filters ask the same question:
      `include` keeps exactly the files `exclude` would drop. */
  lemma FileFiltersAgreeOnNamedFiles(option: FileOption, file: string)
    requires !option.Unset? && file != ""
    ensures ShouldFileInclude(option, Some(file)) <==> IsFileMatchOption(option, file)
    ensures ShouldFileExclude(option, Some(file)) <==> IsFileMatchOption(option, file)
  {
  }

  /** An array option matches a file exactly when one of its expressions accepts it. */
  lemma ArrayOptionMatchesByElement(items: seq<FileItem>, file: string)
    requires file != ""
    ensures ShouldFileInclude(ArrayOption(items), Some(file))
            <==> exists i :: 0 <= i < |items| && items[i].ItemRegExp? && items[i].test(file)
    ensures !ShouldFileInclude(ArrayOption([]), Some(file))
  {
  }

  /** One entry of `selectorBlackList` applied to a selector: a string by substring, a
      regular expression by match. */
  predicate EntryMatches(entry: BlackListEntry, selector: string) {
    match entry
    case Substring(text) => Contains(selector, text)
    case Pattern(matches) => matches(selector)
  }

  /** `isBlacklistedSelector(blacklist, selector)`; a selector that is not a string (`None`)
      gives `undefined`, which is falsy. */
  function IsBlacklistedSelector(blacklist: seq<BlackListEntry>, selector: Option<string>): (r: bool)
    ensures r <==> selector.Some? && exists i :: 0 <= i < |blacklist| && EntryMatches(blacklist[i], selector.value)
  {
    if selector.None? || blacklist == [] then false
    else if EntryMatches(blacklist[0], selector.value) then true
    else
      var rest := IsBlacklistedSelector(blacklist[1..], selector);
      assert forall i :: 1 <= i < |blacklist| ==> blacklist[i] == blacklist[1..][i - 1];
      rest
  }

  /** A string entry blacklists every selector that contains it, wherever it stands in
      the list; the empty list blacklists nothing. */
  lemma SubstringEntryBlacklists(blacklist: seq<BlackListEntry>, k: nat, selector: string)
    requires k < |blacklist| && blacklist[k].Substring? && Contains(selector, blacklist[k].text)
    ensures IsBlacklistedSelector(blacklist, Some(selector))
    ensures !IsBlacklistedSelector([], Some(selector))
  {
    assert EntryMatches(blacklist[k], selector);
  }

  /** `isValidateParams(params, mediaQuery)`: a rule outside an at-rule (or under one with
      empty parameters) is always converted; inside one, only when `mediaQuery` is set. */
  predicate IsValidateParams(params: Option<string>, mediaQuery: bool) {
    !Truthy(params) || mediaQuery
  }

  /** `getUnit(prop, options)`: properties whose name contains "font" take
      `fontViewportUnit`, all others `viewportUnit`. */
  function GetUnit(prop: string, o: Options): (u: string)
    ensures u == (if Contains(prop, "font") then o.fontViewportUnit else o.viewportUnit)
    ensures u == o.viewportUnit || u == o.fontViewportUnit
  {
    if IndexOf(prop, "font") == -1 then o.viewportUnit else o.fontViewportUnit
  }

  /** The unit and the width a declaration is converted with (index.js lines 97-106). */
  datatype Target = Target(unit: string, size: real)

  /** A rule whose at-rule parameters mention "landscape", with `landscape` on, is converted
      against the landscape width; every other rule against the viewport width. */
  predicate InLandscapeMedia(o: Options, params: Option<string>) {
    o.landscape && Truthy(params) && Contains(params.value, "landscape")
  }

  function TargetFor(o: Options, params: Option<string>, prop: string): (t: Target)
    ensures InLandscapeMedia(o, params) ==> t == Target(o.landscapeUnit, o.landscapeWidth)
    ensures !InLandscapeMedia(o, params) ==> t == Target(GetUnit(prop, o), o.viewportWidth)
    ensures PositiveWidths(o) ==> t.size > 0.0
  {
    if InLandscapeMedia(o, params) then Target(o.landscapeUnit, o.landscapeWidth)
    else Target(GetUnit(prop, o), o.viewportWidth)
  }

  /** With the defaults every declaration of every rule is converted to `vw` against 320. */
  lemma DefaultTarget(params: Option<string>, prop: string)
    ensures TargetFor(Defaults(), params, prop) == Target("vw", 320.0)
  {
  }

  /** A font property gets the font unit outside landscape media. */
  lemma FontPropertyGetsFontUnit(o: Options, params: Option<string>, prop: string)
    requires !InLandscapeMedia(o, params) && Contains(prop, "font")
    ensures TargetFor(o, params, prop).unit == o.fontViewportUnit
  {
  }

  /** `isDeclarationExists(decl.parent, prop, value)`: some declaration of the rule already
      has this property and this value. */
  function IsDeclarationExists(nodes: seq<Node>, prop: string, value: string): (r: bool)
    ensures r <==> Decl(prop, value) in nodes
  {
    if nodes == [] then false
    else if nodes[0] == Decl(prop, value) then true
    else
      var rest := IsDeclarationExists(nodes[1..], prop, value);
      assert forall n :: n in nodes[1..] ==> n in nodes;
      assert Decl(prop, value) in nodes ==> Decl(prop, value) in nodes[1..];
      rest
  }

  /** The comment that keeps the NEXT declaration as it is. */
  const IgnoreNextComment := "px-to-viewport-ignore-next"
  /** The comment that keeps the PREVIOUS declaration as it is. */
  const IgnorePrevComment := "px-to-viewport-ignore"

  predicate IsIgnoreNext(n: Node) {
    n.Comment? && n.text == IgnoreNextComment
  }

  predicate IsIgnorePrev(n: Node) {
    n.Comment? && n.text == IgnorePrevComment
  }

  /** `/\n/.test(next.raws.before)`: the ignore comment starts on a line of its own. */
  predicate OnOwnLine(n: Node) {
    n.Comment? && Contains(n.before, "\n")
  }
}
