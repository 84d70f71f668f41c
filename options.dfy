/** One configuration of the plugin, its defaults, and the shape check on `include` and
    `exclude` that runs before any tree is walked. User-supplied regular expressions are
    opaque tests on strings. */
module Options {
  import opened Wrappers

  /** An entry of `selectorBlackList`: a string (blacklists by substring) or a regular
      expression (blacklists by match). */
  datatype BlackListEntry = Substring(text: string) | Pattern(matches: string -> bool)

  /** An element of an `include`/`exclude` array. */
  datatype FileItem = ItemRegExp(test: string -> bool) | ItemOther

  /** The value of `include` or `exclude`: unset (any falsy value), one regular expression,
      an array, or some other truthy value. */
  datatype FileOption =
    | Unset
    | RegExp(test: string -> bool)
    | ArrayOption(items: seq<FileItem>)
    | OtherValue

  datatype Options = Options(
    unitToConvert: string,
    viewportWidth: real,
    viewportHeight: real,
    unitPrecision: nat,
    viewportUnit: string,
    fontViewportUnit: string,
    selectorBlackList: seq<BlackListEntry>,
    propList: seq<string>,
    minPixelValue: real,
    mediaQuery: bool,
    replace: bool,
    landscape: bool,
    landscapeUnit: string,
    landscapeWidth: real,
    includeFiles: FileOption,
    excludeFiles: FileOption)

  /** The `defaults` record. */
  function Defaults(): (o: Options)
    ensures o.unitToConvert == "px" && o.viewportWidth == 320.0 && o.unitPrecision == 5
    ensures o.propList == ["*"] && o.minPixelValue == 1.0 && o.replace && !o.landscape
  {
    Options(
      unitToConvert := "px", viewportWidth := 320.0, viewportHeight := 568.0,
      unitPrecision := 5, viewportUnit := "vw", fontViewportUnit := "vw",
      selectorBlackList := [], propList := ["*"], minPixelValue := 1.0,
      mediaQuery := false, replace := true, landscape := false,
      landscapeUnit := "vw", landscapeWidth := 568.0,
      includeFiles := Unset, excludeFiles := Unset)
  }

  /** `isRegExpOrRegExpArray(option)`. */
  predicate IsRegExpOrRegExpArray(option: FileOption) {
    match option
    case RegExp(_) => true
    case ArrayOption(items) => forall i :: 0 <= i < |items| ==> items[i].ItemRegExp?
    case _ => false
  }

  /** The two errors the constructor throws. */
  datatype ConfigError = ExcludeNotRegExp | IncludeNotRegExp

  /** The checks of index.js lines 34-39, exclude first: a set `include`/`exclude` must be
      a regular expression or an array of them. */
  function Validate(o: Options): (r: Result<Options, ConfigError>)
    ensures r.Ok? <==> (o.excludeFiles.Unset? || IsRegExpOrRegExpArray(o.excludeFiles))
                        && (o.includeFiles.Unset? || IsRegExpOrRegExpArray(o.includeFiles))
    ensures r.Ok? ==> r.value == o
    ensures r == Err(IncludeNotRegExp) ==> o.excludeFiles.Unset? || IsRegExpOrRegExpArray(o.excludeFiles)
  {
    if !o.excludeFiles.Unset? && !IsRegExpOrRegExpArray(o.excludeFiles) then Err(ExcludeNotRegExp)
    else if !o.includeFiles.Unset? && !IsRegExpOrRegExpArray(o.includeFiles) then Err(IncludeNotRegExp)
    else Ok(o)
  }

  /** The first failing configuration of a list, in order, or none. */
  function ValidateAll(configs: seq<Options>): (r: Option<ConfigError>)
    ensures r.None? <==> forall i :: 0 <= i < |configs| ==> Validate(configs[i]).Ok?
    ensures r.Some? ==> exists i :: 0 <= i < |configs| && Validate(configs[i]) == Err(r.value)
  {
    if configs == [] then None
    else match Validate(configs[0])
      case Err(e) => Some(e)
      case Ok(_) =>
        var rest := ValidateAll(configs[1..]);
        assert forall i :: 1 <= i < |configs| ==> configs[i] == configs[1..][i - 1];
        rest
  }

  /** The widths the conversion divides by are positive (the source would produce
      `Infinity` or `NaN` otherwise). */
  predicate PositiveWidths(o: Options) {
    o.viewportWidth > 0.0 && o.landscapeWidth > 0.0
  }

  /** When every configuration before `c` is valid and `c` is not, `c`'s error is the one
      reported for the whole list. */
  lemma {:induction false} ValidateAllFindsFirst(configs: seq<Options>, c: nat)
    requires c < |configs| && Validate(configs[c]).Err?
    requires forall j :: 0 <= j < c ==> Validate(configs[j]).Ok?
    ensures ValidateAll(configs) == Some(Validate(configs[c]).error)
  {
    if c > 0 {
      assert Validate(configs[0]).Ok?;
      assert configs[1..][c - 1] == configs[c];
      ValidateAllFindsFirst(configs[1..], c - 1);
    }
  }
}
