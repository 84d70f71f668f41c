# postcss-px-to-viewport, modelled in Dafny

A model of the conversion core of `postcss-px-to-viewport`, a PostCSS plugin. The plugin
rewrites pixel lengths in a stylesheet (or lengths in another configured unit) into viewport
units such as `vw`. The model covers five parts:

- **Prop list** (`PropListMatcher`, prop_list.dfy). The patterns of `propList` are sorted
  into eight buckets. The closure built from the buckets decides which properties are
  converted.
- **Unit scanner** (`PixelUnitRegexp`, unit_regexp.dfy). The global regular expression
  `"[^"]+"|'[^']+'|url\([^)]+\)|(\d*\.?\d+)unit` becomes a left-to-right scanner. The
  scanner cuts a value into quoted runs, `url(...)` runs, numbers followed by the unit, and
  literal text.
- **Numbers** (`Conversion`, `Decimal`; conversion.dfy, decimal.dfy). These are the replace
  callback of `createPxReplace` and the two-stage rounding of `toFixed`, over exact
  rationals. Numbers are printed in decimal the way JavaScript prints a value with at most
  `unitPrecision` decimals.
- **Rule policy** (`Policy`, `Options`; policy.dfy, options.dfy). These are the defaults
  and the option validation. They also cover the `include`/`exclude` file filters, the
  selector blacklist, the media-query gate, the choice of unit and width, and the
  duplicate-declaration test.
- **Walk** (`RuleWalk`, `Plugin`; walk.dfy, plugin.dfy). This is the per-rule function and
  the `walkDecls` callback with its ignore comments. It also covers collecting landscape
  copies, running every configuration over the tree in turn, and appending the
  `@media (orientation: landscape)` block.

The walk is stated twice:

- as functions on values, in `RuleWalk`;
- as methods of two classes, in `Plugin`. `Plugin.Root` is the tree, changed in place
  through PostCSS's container operations. `Plugin.Plugin` holds the configurations and the
  landscape list the plugin function closes over.

Each method is proved to compute what the corresponding function states. `walkDecls`
follows PostCSS's iterator exactly:

- removing a child at or before the cursor moves the cursor back;
- inserting after the cursor does not move it, so an inserted copy is visited next;
- the cursor advances after every callback.

The callback is described by a `Walker` record. The record holds the property/value test of
lines 75-76 and the rewrite of lines 97-108 (the source's `satisfyPropList` and
`createPxReplace` closures), plus `replace`. The walk lemmas hold for every such callback,
and `RuleWalk.WalkerFor` is the plugin's own.

Regular expressions supplied by the user (in `include`, `exclude` and `selectorBlackList`)
are opaque tests `string -> bool`. Warnings raised through `result.warn` are counted.

## Model

| member | source | states |
|---|---|---|
| Options.Defaults | index.js:8-23 | the default record: `px`, width 320, precision 5, `propList ["*"]`, `minPixelValue` 1, replace on, landscape off |
| Options.Validate | index.js:34-39 | accepted exactly when each of `exclude`/`include` is unset or a regular expression or an array of them; `exclude` is checked first; an accepted configuration is returned unchanged |
| Options.ValidateAll | index.js:32-39 | no error exactly when every configuration validates; an error reported is the error of some configuration |
| Options.ValidateAllFindsFirst | index.js:32-39 | the error reported for a list is the error of its first invalid configuration |
| Plugin.Plugin.Create | index.js:28-39 | fails exactly when some configuration is invalid, with the first one's error; otherwise a fresh plugin holding the configurations and an empty landscape list |
| Strings.IndexFromFirst | index.js:164 | the search returns the first occurrence at or after the start, and -1 exactly when there is none |
| Strings.IndexOfFirst | index.js:164 | `indexOf` is -1 exactly when the needle does not occur, and otherwise finds its first occurrence |
| Strings.IndexOfZeroIsPrefix | src/prop-list-matcher.js:80-82 | `indexOf(m) === 0` holds exactly when `m` is a prefix |
| Strings.FoundAtFirstLead | src/prop-list-matcher.js:76-85 | a needle that occurs where its first character first appears is found at that index |
| Strings.NotFoundWithMissingChar | src/prop-list-matcher.js:76-85 | a needle holding a character the string lacks gives -1 |
| PropListMatcher.FilterMembers | src/prop-list-matcher.js:1-56 | a bucket holds exactly the stripped forms of the patterns of the list that its regular expression admits |
| PropListMatcher.CreatePropListMatcher | src/prop-list-matcher.js:58-70 | `hasWild` exactly when `*` is listed; `matchAll` exactly when the list is `["*"]`; each of the eight buckets is the filter of its shape |
| PropListMatcher.LoneWildcardHasNoBucket | src/prop-list-matcher.js:1-56 | the pattern `*` enters no bucket |
| PropListMatcher.MatchAllAcceptsEverything | src/prop-list-matcher.js:58-72 | the list `["*"]` accepts every property |
| PropListMatcher.WildcardLeavesOnlyExclusion | src/prop-list-matcher.js:59-98 | with `*` in the list, a property passes exactly when no exclusion bucket rejects it |
| PropListMatcher.ListOfWildcardExcludesNothing | src/prop-list-matcher.js:58-70 | the list `["*"]` has no exclusion that applies |
| PropListMatcher.ExclusionOverridesInclusion | src/prop-list-matcher.js:73-99 | a property an exclusion bucket rejects never passes, whatever the inclusion buckets say |
| PropListMatcher.NoWildcardMeansPositiveBucket | src/prop-list-matcher.js:73-99 | without `*`, a property passes exactly when some inclusion bucket accepts it and no exclusion bucket rejects it |
| PropListMatcher.NegatedPrefixFillsTwoBuckets | src/prop-list-matcher.js:28-55 | a pattern `!x*` enters both `notExact` (as `x*`) and `notStartWith` (as `x`) |
| PropListMatcher.InnerWildcardHasNoBucket | src/prop-list-matcher.js:1-56 | a pattern `x*y` with a wildcard inside enters no bucket |
| PropListMatcher.UnbucketedPatternIsIgnored | src/prop-list-matcher.js:58-100 | adding a pattern that enters no bucket (other than `*`) changes no decision |
| PropListMatcher.EndsAtCharacterised | src/prop-list-matcher.js:83-97 | the source's ends-with test holds exactly when the name is one character longer than the property, or when the name's first occurrence is the one ending the property |
| PropListMatcher.EndWithMatchesLongerAbsentPattern | src/prop-list-matcher.js:83-85 | `["*ab"]` accepts `x`, which does not end with `ab` |
| PropListMatcher.EndWithShadowedByEarlierOccurrence | src/prop-list-matcher.js:83-85 | `["*a"]` rejects `aba`, which ends with `a` |
| PropListMatcher.EndsWithIsSuffix | src/prop-list-matcher.js:14-20 | the documented ends-with test is the suffix relation |
| PropListMatcher.EndsAtVersusEndsWith | src/prop-list-matcher.js:83-85 | the source's test equals the suffix test on a name with no earlier occurrence, plus the case of a name one character longer than the property |
| PropListMatcher.EndPatternAcceptsSuffix | src/prop-list-matcher.js:14-20 | the documented closure accepts, for a pattern `*x`, every property ending with `x` that no exclusion rejects |
| PropListMatcher.AsDocumentedAgreesWithoutEndPatterns | src/prop-list-matcher.js:71-100 | without ends-with patterns, the documented closure and the source's closure decide alike |
| PropListMatcher.LonePatternDecides | src/prop-list-matcher.js:14-20 | with the documented closure, the lone pattern `*x` accepts a property exactly when it ends with `x` |
| PropListMatcher.AsDocumentedEndWithExamples | src/prop-list-matcher.js:83-85 | the documented closure rejects `x` for `["*ab"]` and accepts `aba` for `["*a"]` |
| PropListMatcher.LonePatternBuckets | src/prop-list-matcher.js:14-20 | the list `["*x"]` has `x` in `endWith` and every other bucket empty |
| PropListMatcher.MixedListBuckets | src/prop-list-matcher.js:58-70 | the buckets of `['*font*','margin*','!margin-left','*-right','pad']` |
| PropListMatcher.MixedListScenario | src/prop-list-matcher.js:71-100 | with that list, `font-size`, `margin` and `padding-right` pass; `margin-left` and `padding` do not |
| PixelUnitRegexp.UnitPartPattern | src/pixel-unit-regexp.js:9-17 | a string unit is used as it is; a one-element array gives its element; a longer array gives the parenthesised `|`-join |
| PixelUnitRegexp.SplitJoin | src/pixel-unit-regexp.js:16 | splitting a `|`-join of `|`-free spellings gives the spellings back |
| PixelUnitRegexp.AlternationListsEverySpelling | src/pixel-unit-regexp.js:13-16 | the alternation built from two or more spellings lists exactly those spellings |
| PixelUnitRegexp.NumRun | src/pixel-unit-regexp.js:22 | the length of the maximal leading run of digits and dots |
| PixelUnitRegexp.MatchQuoted | src/pixel-unit-regexp.js:22 | a quoted alternative matches exactly when the string opens with the quote and closes it after at least one other character, with no quote in between |
| PixelUnitRegexp.MatchUrl | src/pixel-unit-regexp.js:22 | a `url(` match ends at the first `)` after a non-empty body, and fails only when no such `)` exists |
| PixelUnitRegexp.MatchNumber | src/pixel-unit-regexp.js:22 | the number alternative matches exactly when the maximal run of digits and dots is a number followed by the unit; the capture spells that number |
| PixelUnitRegexp.CaptureIsWholeRun | src/pixel-unit-regexp.js:22 | for a letter unit, any number followed by the unit is the whole run of digits and dots (backtracking finds no other capture) |
| PixelUnitRegexp.MatchAt | src/pixel-unit-regexp.js:22 | alternatives are tried in order; no match exactly when none of the four matches; a numeric match is taken only when the three exclusions fail |
| PixelUnitRegexp.ScanSpellsValue | src/pixel-unit-regexp.js:21-24 | the tokens of a scan put back together spell the value |
| PixelUnitRegexp.CapturesAreNumbers | src/pixel-unit-regexp.js:22 | every captured number is a number |
| PixelUnitRegexp.AbsentUnitNoNumber | src/pixel-unit-regexp.js:22 | a value in which the unit does not occur yields no numeric match |
| PixelUnitRegexp.NoUnitNoNumber | index.js:75 | `indexOf(unit) === -1` implies the scan has no numeric match |
| PixelUnitRegexp.UppercaseUnitIsNotMatched | spec/px-to-viewport.spec.js:61-67 | `14PX` and `12Px` have no match for `px` |
| PixelUnitRegexp.LoneNumberScans | src/pixel-unit-regexp.js:22 | a number followed by a letter unit scans as one numeric match |
| Decimal.NatToString | index.js:173 | the decimal spelling of a natural number has the number's value |
| Decimal.PadZeros | index.js:173 | left-padding with zeros keeps the value and reaches the width |
| Decimal.TrimZeros | index.js:173 | dropping trailing zeros leaves a prefix with no trailing zero whose value is scaled down by the dropped digits |
| Decimal.FormatScaled | index.js:173 | the printed form of `k / 10^precision` is a number the scanner reads |
| Decimal.FormatScaledValue | index.js:172-173 | the printed form of `k / 10^precision` parses back to exactly that value |
| Decimal.SplitDigits | index.js:173 | the integer part and trimmed fraction are digit strings that spell `k` at the right scale |
| Decimal.Pow10Add | index.js:186 | `10^(a+b) == 10^a * 10^b` |
| Decimal.DigitsAppend | index.js:170 | the value of a concatenation of digit strings |
| Conversion.ToFixed | index.js:185-189 | `toFixed` is rounding half up at the scale `10^precision` |
| Conversion.TwoStageRound | index.js:186-188 | flooring at one more decimal and then rounding that decimal is rounding half up |
| Conversion.TwoStages | index.js:186-188 | the two stages of `toFixed` equal one rounding, over the reals |
| Conversion.RoundAtScaleIsClose | index.js:185-189 | the rounded value is within half a unit of the last decimal of the number |
| Conversion.ToFixedAtScale | index.js:185-189 | `toFixed` is within half a unit of the last place, and is 0 exactly when the number scaled is below one half |
| Conversion.RoundAtScaleZero | index.js:188 | rounding gives 0 exactly when the scaled number is below one half |
| Conversion.Ratio | index.js:172 | `pixels / viewportSize * 100` is non-negative |
| Conversion.PxReplaceConverts | index.js:167-175 | a number above `minPixelValue` becomes the bare `0` when it rounds to zero, otherwise the rounded percentage printed in decimal followed by the unit |
| Conversion.ConvertRatioAtScale | index.js:172-173 | the converted text for a ratio, at the scale `10^precision` |
| Conversion.PxReplacePrintsToFixed | index.js:172-173 | the printed number reads back as `toFixed` of the ratio |
| Conversion.PxReplaceKeepsMatch | index.js:169-171 | quoted runs, `url(...)` runs and numbers at or below `minPixelValue` (an inclusive bound) are returned as matched |
| Conversion.RewriteWithoutNumbers | index.js:108 | a value with no numeric match is unchanged by the replace |
| Conversion.ReplaceWithoutUnitIsIdentity | index.js:75-108 | a value that does not contain the unit is unchanged by the replace |
| Conversion.RewriteBelowThreshold | index.js:167-175 | a value whose numbers are all at or below `minPixelValue` is unchanged |
| Policy.SomeItemMatches | index.js:159 | true exactly when some regular expression of the array matches the file |
| Policy.FileFiltersOffWithoutOptionOrFile | index.js:141-153 | without an option or a file name, a rule is included and not excluded |
| Policy.FileFiltersAgreeOnNamedFiles | index.js:141-161 | with both, `include` keeps exactly the files `exclude` drops |
| Policy.ArrayOptionMatchesByElement | index.js:155-161 | an array option matches a file exactly when one of its expressions does; the empty array matches nothing |
| Policy.IsBlacklistedSelector | index.js:191-197 | a selector is blacklisted exactly when it is a string and some entry matches it (substring for a string entry, match for an expression) |
| Policy.SubstringEntryBlacklists | index.js:194 | a string entry that occurs in the selector blacklists it; the empty blacklist blacklists nothing |
| Policy.GetUnit | index.js:163-165 | `fontViewportUnit` exactly when the property contains `font`, otherwise `viewportUnit` |
| Policy.TargetFor | index.js:97-106 | landscape unit and width inside landscape media with `landscape` on, otherwise `getUnit` and `viewportWidth`; the width is positive for a valid configuration |
| Policy.DefaultTarget | index.js:97-106 | with the defaults every declaration targets `vw` against 320 |
| Policy.FontPropertyGetsFontUnit | index.js:163-165 | a font property outside landscape media gets `fontViewportUnit` |
| Policy.IsDeclarationExists | index.js:199-203 | true exactly when the rule already holds a declaration with that property and value |
| RuleWalk.WalkerFor | index.js:74-117 | the callback of one configuration replaces exactly when `replace` is set |
| RuleWalk.RemoveAt | index.js:78-95 | removing child `j` shifts the later children down by one and keeps the earlier ones |
| RuleWalk.InsertAt | index.js:115 | inserting at `j` keeps the earlier children, shifts the later ones up, and adds exactly the new node to the multiset |
| RuleWalk.RewriteAt | index.js:110-116 | at most one child is added, and none in replace mode |
| RuleWalk.RewriteAtEffect | index.js:110-116 | a rewrite already among the children changes nothing; otherwise replace mode puts it in the declaration's place and keeps every other child, and copy mode inserts it right after the declaration and keeps every child before and after |
| RuleWalk.Step | index.js:74-117 | one callback and advance never moves the cursor back past the visited child, never grows the unvisited part, and raises at most one warning |
| RuleWalk.Walk | index.js:74-117 | the walk never loses a warning |
| RuleWalk.IgnoreNextKeepsDeclaration | index.js:78-84 | an ignore-next comment before a converted declaration is removed, the declaration is kept as is, and the walk goes on with the child that followed it |
| RuleWalk.IgnorePrevKeepsDeclaration | index.js:85-95 | an ignore comment on the same line after a converted declaration is removed, the declaration is kept, and the walk goes on after it |
| RuleWalk.IgnorePrevOnOwnLineWarns | index.js:85-113 | an ignore comment on its own line raises one warning and does not stop the conversion |
| RuleWalk.UnchangedValueIsLeftAlone | index.js:110 | a declaration whose rewrite equals its value is found as a duplicate of itself and left as it is |
| RuleWalk.ReplaceStepProgresses | index.js:112-113 | in replace mode every visit shrinks the unvisited part |
| RuleWalk.ReplaceWalkFinishes | index.js:74-117 | in replace mode the walk finishes within as many visits as there are children |
| RuleWalk.WalkWithoutCandidates | index.js:75-76 | a rule with no declaration to convert is untouched and raises no warning |
| RuleWalk.InPlaceStep | index.js:110-113 | without ignore comments, a replace-mode visit sets the visited child to its rewrite exactly when it is a declaration to convert whose rewrite is not among the children, and leaves every other child |
| RuleWalk.InPlaceWalk | index.js:74-117 | the same over the whole walk, which finishes |
| RuleWalk.ReplaceWalkConvertsInPlace | index.js:74-117 | in replace mode without ignore comments, the walk keeps the number of children and raises no warning; each child, taken in order, becomes its rewrite exactly when it is a declaration to convert whose rewrite is not among the children at its visit, and is unchanged otherwise |
| RuleWalk.InsertStepKeeps | index.js:114-116 | in insert mode without ignore comments, a visit keeps every existing child |
| RuleWalk.InsertKeepsChildren | index.js:115 | inserting a declaration keeps every child and adds no comment |
| RuleWalk.InsertWalkKeepsOriginals | index.js:74-117 | in insert mode without ignore comments, every original child survives the walk and no warning is raised |
| RuleWalk.InsertStepCopiesNext | index.js:114-116 | in copy mode, a declaration to convert whose rewrite is not yet a child gets the rewrite inserted right after it, and the cursor stops on that copy, so it is visited next |
| RuleWalk.Copied | index.js:74-117 | the reference output of copy mode, each child followed by at most one copy, has between one and two children per original |
| RuleWalk.InsertVisitSkips | index.js:110 | a copy-mode visit of a child that gets no copy only moves the cursor |
| RuleWalk.InsertVisitsTwice | index.js:110-116 | a copy-mode visit that inserts a copy is followed by the visit of the copy, which changes nothing for a callback that settles |
| RuleWalk.CopyVisitIsQuiet | index.js:74-110 | in a rule without ignore comments, visiting a copy the callback made (of a value it converts) leaves the children and warnings as they are and moves the cursor by one, for a callback that settles |
| RuleWalk.SkipVisitMoves | index.js:74-110 | in a rule without ignore comments, visiting a child that is not converted, or whose rewrite is already a child, changes nothing but the cursor |
| RuleWalk.InsertWalkFrom | index.js:74-117 | from any child on, the copy-mode walk of a callback that settles, without ignore comments, gives the reference output and finishes within two visits per child |
| RuleWalk.InsertWalkCopies | index.js:74-117 | in copy mode, for a callback that settles and a rule without ignore comments, the walk finishes within two visits per child, raises no warning, and leaves every original in order, each declaration to convert directly followed by its rewrite unless that rewrite was already a child at its visit |
| RuleWalk.SettledWalkKeeps | index.js:110 | a walk over children whose rewrites are all already present changes nothing and raises no warning |
| RuleWalk.ReplaceOutputSettled | index.js:110-113 | after a replace-mode walk with a callback that settles, every declaration to convert has its rewrite among the children |
| RuleWalk.ReplaceTwiceIsOnce | index.js:74-117 | in replace mode without ignore comments, for a callback that settles, walking the result again changes nothing |
| RuleWalk.IgnoreNextSpentOnFirstRun | index.js:78-84 | an ignore-next comment is removed on the first run, so a second run converts the declaration it protected |
| RuleWalk.LandscapeDecl | index.js:57-63 | a landscape copy of a declaration keeps its property |
| RuleWalk.LandscapeNodesSound | index.js:53-65 | every landscape child is the landscape copy of some converted declaration of the rule |
| RuleWalk.LandscapeNodesComplete | index.js:53-65 | every converted declaration of the rule has its landscape copy in the clone |
| RuleWalk.LandscapeNodesCharacterised | index.js:53-69 | the clone is empty exactly when no declaration of the rule is converted |
| RuleWalk.LandscapeClones | index.js:50-70 | a rule contributes at most one landscape copy |
| RuleWalk.VisitRule | index.js:42-118 | a visit changes only the children of the rule |
| RuleWalk.VisitRuleCopies | index.js:51 | a landscape copy has the rule's selector, file and at-rule |
| RuleWalk.UnselectedRuleUntouched | index.js:46-48 | a rule filtered out by file or selector is untouched and copies nothing |
| RuleWalk.NestedRuleNeedsMediaQuery | index.js:72 | a rule inside an at-rule with parameters is untouched without `mediaQuery` |
| RuleWalk.LandscapeCopyWhen | index.js:46-70 | a rule is copied exactly when it is selected, `landscape` is on, it is not inside an at-rule with parameters, and one of its declarations is converted; the copy holds the landscape children |
| RuleWalk.Pass | index.js:124 | a pass keeps the number of rules |
| RuleWalk.PassKeepsRules | index.js:124 | a pass changes only children, and every copy it collects is a copy of one of its rules |
| RuleWalk.RunAll | index.js:122-125 | the passes of all configurations keep the number of rules |
| RuleWalk.RunAllKeepsRules | index.js:122-125 | all passes together change only children, and collect only copies of the tree's rules |
| RuleWalk.MediaFor | index.js:126-129 | a block is appended exactly when the landscape list is not empty, and it holds that list under `(orientation: landscape)` |
| RuleWalk.WalkPastEnd | index.js:74-117 | once a walk has finished, more visits change nothing |
| RuleWalk.ReplaceWalkShrinks | index.js:82-113 | a replace-mode walk never adds a child |
| RuleWalk.VisitRuleEnoughFuel | index.js:42-118 | in replace mode a visit bound of at least the rule's number of children gives the same visit as any larger bound, and the rule keeps at most its number of children |
| RuleWalk.PassEnoughFuel | index.js:124 | the same for a pass over all rules |
| RuleWalk.RunAllEnoughFuel | index.js:122-125 | the same for the passes of all replace-mode configurations |
| RuleWalk.TransformEnoughFuel | index.js:122-130 | with replace-mode configurations and a visit bound of at least the largest number of children, processing a tree does not depend on the bound |
| RuleWalk.EarlierCopiesReappear | index.js:30 | a plugin that already holds copies from an earlier tree appends them to the next tree's block |
| RuleWalk.FreshMediaHoldsOnlyOwnCopies | index.js:122-130 | a tree processed by a fresh plugin gets a block exactly when one of its rules was copied, and the block holds only copies of its own rules |
| Fixtures.FifteenPixels | spec/px-to-viewport.spec.js:22-27 | `15px` becomes `4.6875vw` with the defaults |
| Fixtures.ThirtyTwoPixels | spec/px-to-viewport.spec.js:14-20 | `32px` becomes `10vw` with the defaults |
| Fixtures.OnePixelIsKept | spec/px-to-viewport.spec.js:14-20 | `1px` stays as it is with the defaults |
| Fixtures.HalfPixelWithoutLeadingZero | spec/px-to-viewport.spec.js:29-38 | `.5px` becomes `0.15625vw` with `minPixelValue: 0` |
| Fixtures.FifteenPixelsAtTwoDecimals | spec/px-to-viewport.spec.js:109-118 | `15px` becomes `4.69vw` with `unitPrecision: 2` |
| Fixtures.NegativeFraction | spec/px-to-viewport.spec.js:29-38 | `-0.2px` becomes `-0.0625vw` with `minPixelValue: 0`: the minus sign stays as text |
| Fixtures.PrefixedNumberRewrite | index.js:108 | a value that is one character kept as text and then one number followed by the unit is that character followed by the callback's result for the number |
| Fixtures.LoneNumberRewrite | index.js:108 | a value that is one number followed by the unit is rewritten to the callback's result for that number |
| Fixtures.OneDeclarationRule | index.js:42-118 | a selected top-level rule with one converted declaration ends up holding that declaration's rewrite alone |
| Fixtures.BasicRuleConverted | spec/px-to-viewport.spec.js:22-27 | `.rule { font-size: 15px }` becomes `.rule { font-size: 4.6875vw }` with no copy and no warning |
| Plugin.Root.RemoveChild | index.js:78-95 | `node.remove()`: the child is gone and nothing else changes |
| Plugin.Root.InsertAfter | index.js:115 | `insertAfter(i, clone)`: the clone becomes the next child |
| Plugin.Root.SetValue | index.js:113 | `decl.value = value` on one child |
| Plugin.Root.Warn | index.js:89 | one more warning |
| Plugin.Root.Append | index.js:129 | one more block at the end of the tree |
| Plugin.Plugin.VisitDecl | index.js:74-117 | the callback and the iterator's advance on one child leave the rule and cursor that `Step` gives |
| Plugin.Plugin.RewriteDecl | index.js:97-116 | the children become what `RewriteAt` gives |
| Plugin.Plugin.WalkDecls | index.js:74-117 | the rule's children and the warnings become those of `WalkNodes` |
| Plugin.Plugin.CollectLandscape | index.js:50-70 | the landscape list grows by the rule's landscape copy exactly when that copy has children |
| Plugin.Plugin.WalkRule | index.js:42-118 | the tree, the landscape list and the warnings change as `VisitRule` states |
| Plugin.Plugin.WalkRules | index.js:124 | the tree, the landscape list and the warnings change as `Pass` states |
| Plugin.Plugin.WalkRulesStep | index.js:124 | visiting rule `k` turns the state left by the pass over the first `k` rules into the state left by the pass over the first `k + 1` |
| Plugin.Plugin.Apply | index.js:122-130 | the tree, the block appended and the plugin's landscape list are those `Transform` gives from the list the plugin already held |
| Plugin.Plugin.ApplyFresh | index.js:122-130 | the same from an empty landscape list, as `TransformFresh` gives |

## Left out

- Parsing and printing CSS, reading files, and registering the plugin with PostCSS are not modelled. The tree is a list of rules, each with its children, selector, file and enclosing at-rule parameters.
- Rules nested more deeply than one at-rule, and declarations directly inside at-rules, are not modelled: `walkRules` is modelled as a walk over a flat list in document order.
- At-rule parameters are not converted. index.js never walks at-rules, although spec/px-to-viewport.spec.js:182-191 expects `@media (min-width: 500px)` to be converted. The model follows the code.
- `objectAssign({}, defaults, options)` is not modelled: each configuration comes already merged, and `Options.Defaults` gives the defaults. An option that is missing or `undefined` is the caller's concern.
- `unitToConvert` is modelled as a string of letters in the lemmas about the scanner. An array `unitToConvert` is modelled only as far as `UnitPartPattern` builds its alternation; `indexOf` on an array is not modelled.
- JavaScript numbers are modelled as exact rationals. IEEE rounding of the division and multiplication in `toFixed`, and exponent notation for very large or small numbers, are not modelled. `Decimal.FormatScaled` prints the exact value with at most `unitPrecision` decimals.
- Negative numbers never reach the callback: the capture group has no sign. A `-` before a number stays in the surrounding text.
- PropListMatcher.EndsAt: strings are modelled as sequences of Unicode code points, while the source's `prop.length`, `m.length` and `indexOf` count UTF-16 code units. They agree on text inside the Basic Multilingual Plane. A character above U+FFFF is two code units in the source and one code point in the model, so the `-1` case of the ends-with test differs: for the name U+1F600 and the property `x` the source compares `-1` with `1 - 2` and accepts, while the model compares `-1` with `1 - 1` and rejects. The "one character longer" of `EndsAtCharacterised` is one UTF-16 code unit in the source.
- Regular expressions supplied by the user are opaque tests. Their `lastIndex` state (a global expression reused with `test`) is not modelled.
- `result` in the ignore-comment warning (index.js:89) is not defined in the source, so the call would throw. The model counts a warning and goes on, as evidently intended.
- RuleWalk.Walk: the walk takes a fuel bound, and the contracts of `VisitRule`, `Pass`, `RunAll`, `Transform` and `Plugin.Plugin.Apply` hold for any bound, even one that cuts walks short. In replace mode `TransformEnoughFuel` shows that a bound of at least the largest number of children of a rule gives the full result: a larger bound changes nothing. In insert mode (`replace: false`) the inserted copy is visited next, and it is converted again when its value still contains the unit and converts to something new (for example `unitToConvert` equal to `viewportUnit`). That can loop forever in the source. `InsertWalkCopies` bounds the walk by two visits per child for a callback whose rewrites settle.
- RuleWalk.RewriteAt: its own contract bounds only the number of children; `RewriteAtEffect` states the three outcomes.
- RuleWalk.InsertStepKeeps: states only that a copy-mode visit keeps every child, for any callback; `InsertStepCopiesNext` states where the copy goes and that it is visited next.
- RuleWalk.InsertWalkKeepsOriginals: states only that every original survives, for any callback. The exact copy-mode output, `InsertWalkCopies`, is proved for a callback whose rewrites settle (`RuleWalk.Settles`). That the plugin's own callback settles is not proved in general.
- RuleWalk.ReplaceTwiceIsOnce: running the plugin twice in replace mode gives the result of one run only for a rule without ignore comments (`IgnoreNextSpentOnFirstRun` shows why) and a callback whose rewrites settle. That `ReplaceUnits` settles on its own output (a converted value is not converted again, or converts to itself) is not proved for every value; it fails for instance when `viewportUnit` contains `unitToConvert`.
- RuleWalk.Walker: the properties of the walk hold for any callback, not only the one `WalkerFor` builds. Properties of the plugin's own callback are stated through `WalkerFor`, `IsCandidate` and `ConvertValue`.
- Options.PositiveWidths: `viewportWidth` and `landscapeWidth` must be positive; every member that converts requires it. A zero width makes the source print `Infinity` or `NaN`. A negative width converts pixels above `minPixelValue` to negative lengths, because the threshold test is on the pixels (index.js:170-172). Both are outside the model.
- Policy.SomeItemMatches: an array element that is not a regular expression counts as not matching. The source would throw, but validation (index.js:34-39) rejects such arrays before any file is looked at.
- `viewportHeight` is part of the record and is not used, as in the source.

## Findings

The walk is generic in its callback, so the documented prop-list closure
`PropListMatcher.SatisfyPropListAsDocumented` can take the place of the source's in a `Walker`.
The plugin's own `WalkerFor` keeps the closure as written.

| source | as written | input that shows it | evidently intended | confidence | as-written member | corrected member |
|---|---|---|---|---|---|---|
| index.js:30-130 | the landscape list is created once per plugin and never emptied, so every tree the plugin processes gets the copies of all earlier trees | one plugin with `landscape: true` processes `.a { width: 100px }` and then a second tree; the second tree's `@media (orientation: landscape)` block again holds the copy of `.a` | each tree's block holds only copies of that tree's rules | not executed | RuleWalk.EarlierCopiesReappear | RuleWalk.FreshMediaHoldsOnlyOwnCopies |
| src/prop-list-matcher.js:83-97 | the ends-with test compares the FIRST index of the name with `prop.length - m.length` | `propList: ['*ab']` accepts `x` (both sides are -1); `propList: ['*a']` rejects `aba` (first index 0, not 2) | a `*name` pattern accepts exactly the properties ending with `name` | not executed | PropListMatcher.EndsAtCharacterised | PropListMatcher.EndPatternAcceptsSuffix |
