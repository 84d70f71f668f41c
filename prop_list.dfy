/** The property-list matcher: glob-like patterns over CSS property names (`*` as wildcard,
    a leading `!` for exclusion) are sorted into eight buckets, and the buckets give a
    predicate on property names in which exclusion overrides inclusion. */
module PropListMatcher {
  import opened Strings

  /** The eight buckets a raw pattern can be sorted into. */
  datatype Bucket =
    | Exact | Contain | EndWith | StartWith
    | NotExact | NotContain | NotEndWith | NotStartWith

  /** A character JavaScript's regex `.` refuses to match (a line terminator). */
  predicate IsLineTerminator(c: char) {
    c == '\n' || c == '\r' || c == '\U{2028}' || c == '\U{2029}'
  }

  /** Every character of `s` is matched by regex `.`. */
  predicate NoLineTerminator(s: string) {
    forall i :: 0 <= i < |s| ==> !IsLineTerminator(s[i])
  }

  /** The anchored regular expression that admits a pattern into bucket `b`. */
  predicate Shape(b: Bucket, m: string) {
    match b
    // /^[^\*\!]+$/
    case Exact => |m| >= 1 && Lacks(m, '*') && Lacks(m, '!')
    // /^\*.+\*$/
    case Contain => |m| >= 3 && m[0] == '*' && m[|m| - 1] == '*' && NoLineTerminator(m[1..|m| - 1])
    // /^\*[^\*]+$/
    case EndWith => |m| >= 2 && m[0] == '*' && Lacks(m[1..], '*')
    // /^[^\*\!]+\*$/
    case StartWith => |m| >= 2 && m[|m| - 1] == '*' && Lacks(m[..|m| - 1], '*') && Lacks(m[..|m| - 1], '!')
    // /^\![^\*].*$/
    case NotExact => |m| >= 2 && m[0] == '!' && m[1] != '*' && NoLineTerminator(m[2..])
    // /^\!\*.+\*$/
    case NotContain => |m| >= 4 && m[0] == '!' && m[1] == '*' && m[|m| - 1] == '*' && NoLineTerminator(m[2..|m| - 1])
    // /^\!\*[^\*]+$/
    case NotEndWith => |m| >= 3 && m[0] == '!' && m[1] == '*' && Lacks(m[2..], '*')
    // /^\![^\*]+\*$/
    case NotStartWith => |m| >= 3 && m[0] == '!' && m[|m| - 1] == '*' && Lacks(m[1..|m| - 1], '*')
  }

  /** The `substr` that turns an admitted pattern into the text the bucket tests for. */
  function Strip(b: Bucket, m: string): string
    requires Shape(b, m)
  {
    match b
    case Exact => m
    case Contain => m[1..|m| - 1]
    case EndWith => m[1..]
    case StartWith => m[..|m| - 1]
    case NotExact => m[1..]
    case NotContain => m[2..|m| - 1]
    case NotEndWith => m[2..]
    case NotStartWith => m[1..|m| - 1]
  }

  /** `filterPropList[b](list)`: the admitted patterns of `list`, stripped, in order. */
  function Filter(b: Bucket, list: seq<string>): (r: seq<string>)
    ensures |r| <= |list|
  {
    if list == [] then []
    else if Shape(b, list[0]) then [Strip(b, list[0])] + Filter(b, list[1..])
    else Filter(b, list[1..])
  }

  /** A text is in a bucket exactly when some pattern of the list is admitted to the bucket
      and strips to it. */
  lemma {:induction false} FilterMembers(b: Bucket, list: seq<string>)
    ensures forall x :: x in Filter(b, list) <==> exists m :: m in list && Shape(b, m) && Strip(b, m) == x
  {
    if list != [] {
      FilterMembers(b, list[1..]);
      assert forall m :: m in list <==> m == list[0] || m in list[1..];
    }
  }

  /** The compiled matcher: the wildcard flags and the eight buckets, computed once. */
  datatype Matcher = Matcher(
    hasWild: bool, matchAll: bool,
    exact: seq<string>, contain: seq<string>, startWith: seq<string>, endWith: seq<string>,
    notExact: seq<string>, notContain: seq<string>, notStartWith: seq<string>, notEndWith: seq<string>)

  /** `createPropListMatcher(propList)`, up to the point where it returns its closure. */
  function CreatePropListMatcher(propList: seq<string>): (pm: Matcher)
    ensures pm.hasWild <==> "*" in propList
    ensures pm.matchAll <==> propList == ["*"]
    ensures pm.notExact == Filter(NotExact, propList) && pm.notContain == Filter(NotContain, propList)
    ensures pm.notStartWith == Filter(NotStartWith, propList) && pm.notEndWith == Filter(NotEndWith, propList)
    ensures pm.exact == Filter(Exact, propList) && pm.contain == Filter(Contain, propList)
    ensures pm.startWith == Filter(StartWith, propList) && pm.endWith == Filter(EndWith, propList)
  {
    var hasWild := "*" in propList;
    assert hasWild && |propList| == 1 ==> propList == [propList[0]];
    Matcher(hasWild, hasWild && |propList| == 1,
            Filter(Exact, propList), Filter(Contain, propList),
            Filter(StartWith, propList), Filter(EndWith, propList),
            Filter(NotExact, propList), Filter(NotContain, propList),
            Filter(NotStartWith, propList), Filter(NotEndWith, propList))
  }

  /** The ends-with test as the source writes it: the FIRST index of `m` in `prop` equals
      `prop.length - m.length`. */
  predicate EndsAt(prop: string, m: string) {
    IndexOf(prop, m) == |prop| - |m|
  }

  /** The positive half of the closure. */
  predicate Included(pm: Matcher, prop: string) {
    || pm.hasWild
    || prop in pm.exact
    || (exists m :: m in pm.contain && IndexOf(prop, m) > -1)
    || (exists m :: m in pm.startWith && IndexOf(prop, m) == 0)
    || (exists m :: m in pm.endWith && EndsAt(prop, m))
  }

  /** The negative half of the closure. */
  predicate Excluded(pm: Matcher, prop: string) {
    || prop in pm.notExact
    || (exists m :: m in pm.notContain && IndexOf(prop, m) > -1)
    || (exists m :: m in pm.notStartWith && IndexOf(prop, m) == 0)
    || (exists m :: m in pm.notEndWith && EndsAt(prop, m))
  }

  /** The closure returned by `createPropListMatcher`. */
  predicate Satisfies(pm: Matcher, prop: string) {
    pm.matchAll || (Included(pm, prop) && !Excluded(pm, prop))
  }

  /** `createPropListMatcher(propList)(prop)`. */
  predicate SatisfyPropList(propList: seq<string>, prop: string) {
    Satisfies(CreatePropListMatcher(propList), prop)
  }

  /** The lone wildcard enters no bucket, so the list `["*"]` has empty negative buckets. */
  lemma {:induction false} LoneWildcardHasNoBucket(b: Bucket)
    ensures !Shape(b, "*")
    ensures Filter(b, ["*"]) == []
  {
    assert !Shape(b, "*") by {
      match b
      case Exact => assert "*"[0] == '*';
      case _ =>
    }
  }

  /** The bare list `["*"]` admits every property name. */
  lemma MatchAllAcceptsEverything(prop: string)
    ensures SatisfyPropList(["*"], prop)
  {
  }

  /** Once `*` is anywhere in the list, inclusion holds for every name and only the negative
      buckets decide. */
  lemma WildcardLeavesOnlyExclusion(propList: seq<string>, prop: string)
    requires "*" in propList
    ensures SatisfyPropList(propList, prop) <==> !Excluded(CreatePropListMatcher(propList), prop)
  {
    if propList == ["*"] {
      ListOfWildcardExcludesNothing(prop);
    }
  }

  lemma ListOfWildcardExcludesNothing(prop: string)
    ensures !Excluded(CreatePropListMatcher(["*"]), prop)
  {
    LoneWildcardHasNoBucket(NotExact);
    LoneWildcardHasNoBucket(NotContain);
    LoneWildcardHasNoBucket(NotStartWith);
    LoneWildcardHasNoBucket(NotEndWith);
  }

  /** Exclusion always overrides inclusion: a name hit by a negative bucket is rejected,
      whatever the positive buckets and the wildcard say. */
  lemma ExclusionOverridesInclusion(propList: seq<string>, prop: string)
    requires Excluded(CreatePropListMatcher(propList), prop)
    ensures !SatisfyPropList(propList, prop)
  {
    if propList == ["*"] {
      ListOfWildcardExcludesNothing(prop);
    }
  }

  /** Without any wildcard the matcher is exactly "some positive bucket and no negative one". */
  lemma NoWildcardMeansPositiveBucket(propList: seq<string>, prop: string)
    requires "*" !in propList
    ensures SatisfyPropList(propList, prop) <==>
      var pm := CreatePropListMatcher(propList);
      (prop in pm.exact
       || (exists m :: m in pm.contain && IndexOf(prop, m) > -1)
       || (exists m :: m in pm.startWith && IndexOf(prop, m) == 0)
       || (exists m :: m in pm.endWith && EndsAt(prop, m)))
      && !Excluded(pm, prop)
  {
  }

  /** The buckets overlap: `!x*` lands in notExact as `x*` and in notStartWith as `x`. */
  lemma NegatedPrefixFillsTwoBuckets(propList: seq<string>, x: string)
    requires "!" + x + "*" in propList
    requires |x| >= 1 && x[0] != '*' && Lacks(x, '*') && NoLineTerminator(x)
    ensures x + "*" in CreatePropListMatcher(propList).notExact
    ensures x in CreatePropListMatcher(propList).notStartWith
  {
    var m := "!" + x + "*";
    assert m[1..] == x + "*" && m[2..] == x[1..] + "*" && m[1..|m| - 1] == x;
    assert Shape(NotExact, m) && Strip(NotExact, m) == x + "*";
    assert Shape(NotStartWith, m) && Strip(NotStartWith, m) == x;
    FilterMembers(NotExact, propList);
    FilterMembers(NotStartWith, propList);
  }

  /** A pattern with a `*` strictly inside (`a*b`) enters no bucket. */
  lemma {:induction false} InnerWildcardHasNoBucket(x: string, y: string, b: Bucket)
    requires |x| >= 1 && |y| >= 1 && x[0] != '*' && x[0] != '!' && y[|y| - 1] != '*'
    ensures !Shape(b, x + "*" + y)
  {
    var m := x + "*" + y;
    assert m[|x|] == '*';
    assert m[0] == x[0] && m[|m| - 1] == y[|y| - 1];
    match b
    case Exact =>
    case StartWith =>
    case EndWith =>
    case Contain =>
    case NotExact =>
    case NotContain =>
    case NotEndWith =>
    case NotStartWith =>
  }

  /** A pattern that enters no bucket and is not the wildcard changes nothing: prepending
      it to any list leaves the predicate unchanged. */
  lemma {:induction false} UnbucketedPatternIsIgnored(pat: string, propList: seq<string>, prop: string)
    requires pat != "*" && forall b: Bucket :: !Shape(b, pat)
    ensures SatisfyPropList([pat] + propList, prop) == SatisfyPropList(propList, prop)
  {
    var l := [pat] + propList;
    assert l[0] == pat && l[1..] == propList;
    assert forall b :: Filter(b, l) == Filter(b, propList);
    assert "*" in l <==> "*" in propList;
    if propList == ["*"] {
      ListOfWildcardExcludesNothing(prop);
    }
  }

  /** The ends-with test, characterised: it holds exactly when `m` is one character longer
      than `prop` (both sides are -1), or when the first occurrence of `m` is the one that
      ends `prop`. It is therefore not a suffix test. */
  lemma EndsAtCharacterised(prop: string, m: string)
    ensures EndsAt(prop, m) <==>
      |m| == |prop| + 1
      || (|m| <= |prop| && OccursAt(prop, m, |prop| - |m|)
          && forall j: nat :: j < |prop| - |m| ==> !OccursAt(prop, m, j))
  {
    IndexOfFirst(prop, m);
    if |m| == |prop| + 1 {
      assert forall j: nat :: !OccursAt(prop, m, j);
    }
  }

  /** An absent pattern one character longer than the name still ends-with-matches it. */
  lemma EndWithMatchesLongerAbsentPattern()
    ensures SatisfyPropList(["*ab"], "x")
  {
    var pm := CreatePropListMatcher(["*ab"]);
    assert Shape(EndWith, "*ab") && Strip(EndWith, "*ab") == "ab";
    assert "ab" in pm.endWith;
    EndsAtCharacterised("x", "ab");
  }

  /** An earlier occurrence shadows the one at the end: `*a` does not match `aba`. */
  lemma EndWithShadowedByEarlierOccurrence()
    ensures !SatisfyPropList(["*a"], "aba")
  {
    var pm := CreatePropListMatcher(["*a"]);
    assert OccursAt("aba", "a", 0);
    assert !EndsAt("aba", "a");
    forall b: Bucket | b != EndWith ensures !Shape(b, "*a") {
    }
    assert pm.endWith == ["a"] by {
      assert Shape(EndWith, "*a") && Strip(EndWith, "*a") == "a";
    }
    assert pm.exact == [] && pm.contain == [] && pm.startWith == [];
  }

  // ---- the ends-with test as documented ------------------------------------------------

  /** `prop` ends with `m`: the test the `*name` patterns are documented to make. */
  predicate EndsWith(prop: string, m: string) {
    |m| <= |prop| && prop[|prop| - |m|..] == m
  }

  /** `EndsWith` is the suffix relation. */
  lemma EndsWithIsSuffix(prop: string, m: string)
    ensures EndsWith(prop, m) <==> exists pre: string :: prop == pre + m
  {
    if EndsWith(prop, m) {
      assert prop == prop[..|prop| - |m|] + m;
    }
    forall pre: string | prop == pre + m ensures EndsWith(prop, m) {
      assert prop[|pre|..] == m;
    }
  }

  /** The source's test is the suffix test restricted to a name that occurs nowhere
      earlier, plus the case of a name one character longer than the property. */
  lemma EndsAtVersusEndsWith(prop: string, m: string)
    ensures EndsAt(prop, m) <==>
      |m| == |prop| + 1
      || (EndsWith(prop, m) && forall j: nat :: j < |prop| - |m| ==> !OccursAt(prop, m, j))
  {
    EndsAtCharacterised(prop, m);
  }

  /** The closure with the suffix test in both ends-with buckets. */
  predicate IncludedAsDocumented(pm: Matcher, prop: string) {
    || pm.hasWild
    || prop in pm.exact
    || (exists m :: m in pm.contain && IndexOf(prop, m) > -1)
    || (exists m :: m in pm.startWith && IndexOf(prop, m) == 0)
    || (exists m :: m in pm.endWith && EndsWith(prop, m))
  }

  predicate ExcludedAsDocumented(pm: Matcher, prop: string) {
    || prop in pm.notExact
    || (exists m :: m in pm.notContain && IndexOf(prop, m) > -1)
    || (exists m :: m in pm.notStartWith && IndexOf(prop, m) == 0)
    || (exists m :: m in pm.notEndWith && EndsWith(prop, m))
  }

  predicate SatisfiesAsDocumented(pm: Matcher, prop: string) {
    pm.matchAll || (IncludedAsDocumented(pm, prop) && !ExcludedAsDocumented(pm, prop))
  }

  predicate SatisfyPropListAsDocumented(propList: seq<string>, prop: string) {
    SatisfiesAsDocumented(CreatePropListMatcher(propList), prop)
  }

  /** With the suffix test, a pattern `*x` accepts every property that ends with `x` and
      that no exclusion pattern rejects. */
  lemma EndPatternAcceptsSuffix(propList: seq<string>, x: string, prop: string)
    requires "*" + x in propList && |x| >= 1 && Lacks(x, '*')
    requires EndsWith(prop, x)
    requires !ExcludedAsDocumented(CreatePropListMatcher(propList), prop)
    ensures SatisfyPropListAsDocumented(propList, prop)
  {
    var m := "*" + x;
    assert m[1..] == x;
    assert Shape(EndWith, m) && Strip(EndWith, m) == x;
    FilterMembers(EndWith, propList);
    assert x in CreatePropListMatcher(propList).endWith;
  }

  /** Both closures agree on every matcher without ends-with patterns. */
  lemma AsDocumentedAgreesWithoutEndPatterns(pm: Matcher, prop: string)
    requires pm.endWith == [] && pm.notEndWith == []
    ensures SatisfiesAsDocumented(pm, prop) == Satisfies(pm, prop)
  {
  }

  /** The two inputs that show the source's test wrong are decided as documented. */
  lemma AsDocumentedEndWithExamples()
    ensures !SatisfyPropListAsDocumented(["*ab"], "x")
    ensures SatisfyPropListAsDocumented(["*a"], "aba")
  {
    StarPatternsSpelled();
    LonePatternDecides("ab", "x");
    LonePatternDecides("a", "aba");
    assert "aba"[2..] == "a";
  }

  lemma StarPatternsSpelled()
    ensures "*" + "ab" == "*ab" && "*" + "a" == "*a"
  {
  }

  /** With the suffix test, the lone pattern `*x` accepts exactly the properties ending
      with `x`. */
  lemma LonePatternDecides(x: string, prop: string)
    requires |x| >= 1 && Lacks(x, '*')
    ensures SatisfyPropListAsDocumented(["*" + x], prop) <==> EndsWith(prop, x)
  {
    LonePatternBuckets(x);
    var pm := CreatePropListMatcher(["*" + x]);
    assert !ExcludedAsDocumented(pm, prop);
    assert IncludedAsDocumented(pm, prop) <==> EndsWith(prop, x) by {
      assert forall m :: m in pm.endWith <==> m == x;
    }
  }

  /** The buckets of a list holding the single pattern `*x`. */
  lemma LonePatternBuckets(x: string)
    requires |x| >= 1 && Lacks(x, '*')
    ensures var pm := CreatePropListMatcher(["*" + x]);
      && pm.endWith == [x] && !pm.hasWild && !pm.matchAll
      && pm.exact == [] && pm.contain == [] && pm.startWith == []
      && pm.notExact == [] && pm.notContain == [] && pm.notStartWith == [] && pm.notEndWith == []
  {
    var m := "*" + x;
    assert m[1..] == x && m[0] == '*';
    assert Shape(EndWith, m) && Strip(EndWith, m) == x;
    assert ["*" + x][1..] == [];
  }

  /** The example list of the documentation: `*font*`, `margin*`, `!margin-left`, `*-right`, `pad`. */
  const MixedList: seq<string> := ["*font*", "margin*", "!margin-left", "*-right", "pad"]

  lemma MixedListTails()
    ensures MixedList[1..] == ["margin*", "!margin-left", "*-right", "pad"]
    ensures MixedList[2..] == ["!margin-left", "*-right", "pad"]
    ensures MixedList[3..] == ["*-right", "pad"]
    ensures MixedList[4..] == ["pad"]
  {
  }

  lemma MixedExactBucket()
    ensures Filter(Exact, MixedList) == ["pad"]
  {
    MixedListTails();
    assert "*font*"[0] == '*';
    assert !Shape(Exact, "*font*");
    assert "margin*"[6] == '*';
    assert !Shape(Exact, "margin*");
    assert "!margin-left"[0] == '!';
    assert !Shape(Exact, "!margin-left");
    assert "*-right"[0] == '*';
    assert !Shape(Exact, "*-right");
    assert Shape(Exact, "pad") && Strip(Exact, "pad") == "pad";
  }

  lemma MixedContainBucket()
    ensures Filter(Contain, MixedList) == ["font"]
  {
    MixedListTails();
    assert Shape(Contain, "*font*") && Strip(Contain, "*font*") == "font";
    assert !Shape(Contain, "margin*");
    assert !Shape(Contain, "!margin-left");
    assert !Shape(Contain, "*-right");
    assert !Shape(Contain, "pad");
  }

  lemma MixedEndWithBucket()
    ensures Filter(EndWith, MixedList) == ["-right"]
  {
    MixedListTails();
    assert "*font*"[1..][4] == '*';
    assert !Shape(EndWith, "*font*");
    assert !Shape(EndWith, "margin*");
    assert !Shape(EndWith, "!margin-left");
    assert Shape(EndWith, "*-right") && Strip(EndWith, "*-right") == "-right";
    assert !Shape(EndWith, "pad");
  }

  lemma MixedStartWithBucket()
    ensures Filter(StartWith, MixedList) == ["margin"]
  {
    MixedListTails();
    assert "*font*"[..5][0] == '*';
    assert !Shape(StartWith, "*font*");
    assert Shape(StartWith, "margin*") && Strip(StartWith, "margin*") == "margin";
    assert !Shape(StartWith, "!margin-left");
    assert !Shape(StartWith, "*-right");
    assert !Shape(StartWith, "pad");
  }

  lemma MixedNotExactBucket()
    ensures Filter(NotExact, MixedList) == ["margin-left"]
  {
    MixedListTails();
    assert !Shape(NotExact, "*font*");
    assert !Shape(NotExact, "margin*");
    assert Shape(NotExact, "!margin-left") && Strip(NotExact, "!margin-left") == "margin-left";
    assert !Shape(NotExact, "*-right");
    assert !Shape(NotExact, "pad");
  }

  lemma MixedNotContainBucket()
    ensures Filter(NotContain, MixedList) == []
  {
    MixedListTails();
    assert !Shape(NotContain, "*font*");
    assert !Shape(NotContain, "margin*");
    assert !Shape(NotContain, "!margin-left");
    assert !Shape(NotContain, "*-right");
    assert !Shape(NotContain, "pad");
  }

  lemma MixedNotEndWithBucket()
    ensures Filter(NotEndWith, MixedList) == []
  {
    MixedListTails();
    assert !Shape(NotEndWith, "*font*");
    assert !Shape(NotEndWith, "margin*");
    assert !Shape(NotEndWith, "!margin-left");
    assert !Shape(NotEndWith, "*-right");
    assert !Shape(NotEndWith, "pad");
  }

  lemma MixedNotStartWithBucket()
    ensures Filter(NotStartWith, MixedList) == []
  {
    MixedListTails();
    assert !Shape(NotStartWith, "*font*");
    assert !Shape(NotStartWith, "margin*");
    assert !Shape(NotStartWith, "!margin-left");
    assert !Shape(NotStartWith, "*-right");
    assert !Shape(NotStartWith, "pad");
  }

  /** The buckets of the example list. */
  lemma MixedListBuckets()
    ensures var pm := CreatePropListMatcher(MixedList);
      && pm.contain == ["font"] && pm.startWith == ["margin"] && pm.endWith == ["-right"]
      && pm.exact == ["pad"] && pm.notExact == ["margin-left"]
      && pm.notContain == [] && pm.notStartWith == [] && pm.notEndWith == []
      && !pm.hasWild && !pm.matchAll
  {
    MixedExactBucket();
    MixedContainBucket();
    MixedEndWithBucket();
    MixedStartWithBucket();
    MixedNotExactBucket();
    MixedNotContainBucket();
    MixedNotEndWithBucket();
    MixedNotStartWithBucket();
  }

  /** The buckets of the example list, as a requirement on a matcher. */
  predicate HasMixedBuckets(pm: Matcher) {
    && pm.contain == ["font"] && pm.startWith == ["margin"] && pm.endWith == ["-right"]
    && pm.exact == ["pad"] && pm.notExact == ["margin-left"]
    && pm.notContain == [] && pm.notStartWith == [] && pm.notEndWith == []
    && !pm.hasWild && !pm.matchAll
  }

  lemma MixedAcceptsFontSize(pm: Matcher)
    requires HasMixedBuckets(pm)
    ensures Satisfies(pm, "font-size")
  {
    assert "font-size"[0..4] == "font";
    FoundAtFirstLead("font-size", "font", 0);
  }

  lemma MixedAcceptsMargin(pm: Matcher)
    requires HasMixedBuckets(pm)
    ensures Satisfies(pm, "margin")
  {
    assert "margin"[0..6] == "margin";
    FoundAtFirstLead("margin", "margin", 0);
  }

  lemma MixedAcceptsPaddingRight(pm: Matcher)
    requires HasMixedBuckets(pm)
    ensures Satisfies(pm, "padding-right")
  {
    assert "padding-right"[7..13] == "-right";
    FoundAtFirstLead("padding-right", "-right", 7);
    assert EndsAt("padding-right", "-right");
    assert "-right" in pm.endWith;
    assert Included(pm, "padding-right");
    assert "padding-right"[0] != "margin-left"[0];
    assert !Excluded(pm, "padding-right");
  }

  lemma MixedRejects(pm: Matcher)
    requires HasMixedBuckets(pm)
    ensures !Satisfies(pm, "margin-left") && !Satisfies(pm, "padding")
  {
    NotFoundWithMissingChar("padding", "font", 0);
    NotFoundWithMissingChar("padding", "margin", 0);
    NotFoundWithMissingChar("padding", "-right", 0);
  }

  /** The documented scenario: with the example list, `font-size`, `margin` and
      `padding-right` pass; `margin-left` (excluded although `margin*` includes it) and
      `padding` (`pad` is an exact pattern) do not. */
  lemma MixedListScenario()
    ensures SatisfyPropList(MixedList, "font-size")
    ensures SatisfyPropList(MixedList, "margin")
    ensures SatisfyPropList(MixedList, "padding-right")
    ensures !SatisfyPropList(MixedList, "margin-left")
    ensures !SatisfyPropList(MixedList, "padding")
  {
    MixedListBuckets();
    var pm := CreatePropListMatcher(MixedList);
    assert HasMixedBuckets(pm);
    MixedAcceptsFontSize(pm);
    MixedAcceptsMargin(pm);
    MixedAcceptsPaddingRight(pm);
    MixedRejects(pm);
  }
}
