/** The numeric expectations of the repository's own test suite, derived from the model:
    the conversions of its first examples, and a whole rule walked with the defaults. */
module Fixtures {
  import opened Wrappers
  import opened Strings
  import opened Options
  import opened Css
  import opened Policy
  import opened PropListMatcher
  import opened PixelUnitRegexp
  import opened Decimal
  import opened Conversion
  import opened RuleWalk

  /** A value that is one number followed by the unit is rewritten to what the callback
      gives for that number. */
  lemma LoneNumberRewrite(o: Options, digits: string, viewportUnit: string, viewportSize: real)
    requires IsNumber(digits) && IsLetterUnit(o.unitToConvert) && viewportSize > 0.0
    ensures ReplaceUnits(o, digits + o.unitToConvert, viewportUnit, viewportSize)
            == PxReplace(o, viewportUnit, viewportSize, Num(digits))
  {
    LoneNumberScans(digits, o.unitToConvert);
    assert RewriteTokens(o, viewportUnit, viewportSize, [Num(digits)])
           == PxReplace(o, viewportUnit, viewportSize, Num(digits)) + "";
  }

  /** With the defaults, `15px` becomes `4.6875vw` (15 / 320 * 100). */
  lemma FifteenPixels()
    ensures ReplaceUnits(Defaults(), "15px", "vw", 320.0) == "4.6875vw"
  {
    assert IsNumber("15") && IsLetterUnit("px");
    assert "15" + Defaults().unitToConvert == "15px";
    LoneNumberRewrite(Defaults(), "15", "vw", 320.0);
    FifteenPixelMatch();
  }

  lemma FifteenPixelMatch()
    ensures IsNumber("15") && PxReplace(Defaults(), "vw", 320.0, Num("15")) == "4.6875vw"
  {
    FifteenReads();
    FifteenPixelRounds();
    FifteenPixelPrints();
    ConvertsTo(Defaults(), "vw", 320.0, "15", 15.0, 4.6875, 468750, "4.6875");
    FifteenPixelSpelled();
  }

  /** A number the callback converts: the text it reads as, its ratio, that ratio rounded at
      the scale of `unitPrecision` (not zero), and how the rounding prints give the
      rewrite. */
  lemma ConvertsTo(o: Options, viewportUnit: string, viewportSize: real, digits: string,
                   pixels: real, ratio: real, k: nat, printed: string)
    requires viewportSize > 0.0 && IsNumber(digits) && ParseNumber(digits) == pixels
    requires pixels > o.minPixelValue && pixels >= 0.0 && Ratio(pixels, viewportSize) == ratio
    requires RoundAtScale(ratio, Pow10(o.unitPrecision)) == k && k > 0
    requires FormatScaled(k, o.unitPrecision) == printed
    ensures PxReplace(o, viewportUnit, viewportSize, Num(digits)) == printed + viewportUnit
  {
    var p := Pow10(o.unitPrecision);
    PxReplaceConverts(o, viewportUnit, viewportSize, digits, ratio, p);
    RoundAtScaleZero(ratio, p);
  }

  /** How `k / 10^precision` prints, given how the digits of `k` split at the dot. */
  lemma PrintedAs(k: nat, precision: nat, whole: string, fraction: string)
    requires |Digits(k, precision)| == |whole| + precision
    requires Digits(k, precision)[..|whole|] == whole
    requires TrimZeros(Digits(k, precision)[|whole|..]) == fraction
    ensures FormatScaled(k, precision) == if fraction == [] then whole else whole + "." + fraction
  {
    var d := Digits(k, precision);
    assert |d| - precision == |whole|;
    FormatScaledShape(k, precision, whole, fraction);
  }

  lemma FifteenReads()
    ensures IsNumber("15") && ParseNumber("15") == 15.0
  {
    assert IsNumber("15");
    assert FindChar("15", '.', 0) == -1;
    assert DigitsValue("15") == 15;
  }

  lemma FifteenPixelRounds()
    ensures Ratio(15.0, 320.0) == 4.6875 && RoundAtScale(4.6875, Pow10(5)) == 468750
  {
    assert Pow10(5) == 100000;
    assert JsRound(468750.0) == 468750;
  }

  lemma FifteenPixelPrints()
    ensures FormatScaled(468750, 5) == "4.6875"
  {
    FifteenPixelDigits();
    FifteenPixelCut();
    PrintedAs(468750, 5, "4", "6875");
    FifteenPixelSpelled();
  }

  lemma FifteenPixelCut()
    ensures "468750"[..1] == "4" && TrimZeros("468750"[1..]) == "6875"
  {
    assert "468750"[1..] == "68750";
    assert "68750"[..4] == "6875";
  }

  lemma FifteenPixelSpelled()
    ensures "4" + "." + "6875" == "4.6875" && "4.6875" + "vw" == "4.6875vw"
  {
  }

  lemma FifteenPixelDigits()
    ensures Digits(468750, 5) == "468750"
  {
    assert NatToString(4) == "4";
    assert NatToString(46) == "46";
    assert NatToString(468) == "468";
    assert NatToString(4687) == "4687";
    assert NatToString(46875) == "46875";
    assert NatToString(468750) == "468750";
    assert PadZeros("468750", 6) == "468750";
  }

  /** With the defaults, `32px` becomes `10vw`: trailing zeros of the fraction are dropped
      together with the dot. */
  lemma ThirtyTwoPixels()
    ensures ReplaceUnits(Defaults(), "32px", "vw", 320.0) == "10vw"
  {
    assert IsNumber("32") && IsLetterUnit("px");
    assert "32" + Defaults().unitToConvert == "32px";
    LoneNumberRewrite(Defaults(), "32", "vw", 320.0);
    ThirtyTwoPixelMatch();
  }

  lemma ThirtyTwoPixelMatch()
    ensures IsNumber("32") && PxReplace(Defaults(), "vw", 320.0, Num("32")) == "10vw"
  {
    ThirtyTwoReads();
    ThirtyTwoPixelRounds();
    ThirtyTwoPixelPrints();
    ConvertsTo(Defaults(), "vw", 320.0, "32", 32.0, 10.0, 1000000, "10");
    assert "10" + "vw" == "10vw";
  }

  lemma ThirtyTwoReads()
    ensures IsNumber("32") && ParseNumber("32") == 32.0
  {
    assert IsNumber("32");
    assert FindChar("32", '.', 0) == -1;
    assert DigitsValue("32") == 32;
  }

  lemma ThirtyTwoPixelRounds()
    ensures Ratio(32.0, 320.0) == 10.0 && RoundAtScale(10.0, Pow10(5)) == 1000000
  {
    assert Pow10(5) == 100000;
    assert JsRound(1000000.0) == 1000000;
  }

  lemma ThirtyTwoPixelPrints()
    ensures FormatScaled(1000000, 5) == "10"
  {
    ThirtyTwoPixelDigits();
    assert "1000000"[..2] == "10" && "1000000"[2..] == "00000";
    assert TrimZeros("00000") == [];
    PrintedAs(1000000, 5, "10", "");
  }

  lemma ThirtyTwoPixelDigits()
    ensures Digits(1000000, 5) == "1000000"
  {
    assert NatToString(1) == "1";
    assert NatToString(10) == "10";
    assert NatToString(100) == "100";
    assert NatToString(1000) == "1000";
    assert NatToString(10000) == "10000";
    assert NatToString(100000) == "100000";
    assert NatToString(1000000) == "1000000";
    assert PadZeros("1000000", 6) == "1000000";
  }

  /** With `minPixelValue: 0`, `.5px` becomes `0.15625vw`: a number without a leading zero
      is read, and a result below one is printed with its leading zero. */
  lemma HalfPixelWithoutLeadingZero()
    ensures ReplaceUnits(Defaults().(minPixelValue := 0.0), ".5px", "vw", 320.0) == "0.15625vw"
  {
    assert IsNumber(".5") && IsLetterUnit("px");
    assert ".5" + Defaults().unitToConvert == ".5px";
    LoneNumberRewrite(Defaults().(minPixelValue := 0.0), ".5", "vw", 320.0);
    HalfPixelMatch();
  }

  lemma HalfPixelMatch()
    ensures IsNumber(".5")
    ensures PxReplace(Defaults().(minPixelValue := 0.0), "vw", 320.0, Num(".5")) == "0.15625vw"
  {
    HalfPixelReads();
    HalfPixelRounds();
    HalfPixelPrints();
    ConvertsTo(Defaults().(minPixelValue := 0.0), "vw", 320.0, ".5", 0.5, 0.15625, 15625, "0.15625");
    HalfPixelSpelled();
  }

  lemma HalfPixelReads()
    ensures IsNumber(".5") && ParseNumber(".5") == 0.5
  {
    assert IsNumber(".5");
    assert FindChar(".5", '.', 0) == 0;
    var ds := ".5"[..0] + ".5"[1..];
    assert ds == "5";
    assert DigitsValue("5") == 5;
    assert Pow10(1) == 10;
    assert Quotient(5, 10) == 0.5;
  }

  lemma HalfPixelRounds()
    ensures Ratio(0.5, 320.0) == 0.15625 && RoundAtScale(0.15625, Pow10(5)) == 15625
  {
    assert Pow10(5) == 100000;
    assert JsRound(15625.0) == 15625;
  }

  lemma HalfPixelPrints()
    ensures FormatScaled(15625, 5) == "0.15625"
  {
    HalfPixelDigits();
    assert "015625"[..1] == "0" && "015625"[1..] == "15625";
    assert TrimZeros("15625") == "15625";
    PrintedAs(15625, 5, "0", "15625");
    HalfPixelSpelled();
  }

  lemma HalfPixelSpelled()
    ensures "0" + "." + "15625" == "0.15625" && "0.15625" + "vw" == "0.15625vw"
  {
  }

  lemma HalfPixelDigits()
    ensures Digits(15625, 5) == "015625"
  {
    assert NatToString(1) == "1";
    assert NatToString(15) == "15";
    assert NatToString(156) == "156";
    assert NatToString(1562) == "1562";
    assert NatToString(15625) == "15625";
    assert PadZeros("015625", 6) == "015625";
    assert PadZeros("15625", 6) == "015625";
  }

  /** With `unitPrecision: 2`, `15px` becomes `4.69vw`: 4.6875 rounded half up at two
      decimals. */
  lemma FifteenPixelsAtTwoDecimals()
    ensures ReplaceUnits(Defaults().(unitPrecision := 2), "15px", "vw", 320.0) == "4.69vw"
  {
    var o := Defaults().(unitPrecision := 2);
    assert IsNumber("15") && IsLetterUnit("px");
    assert "15" + o.unitToConvert == "15px";
    LoneNumberRewrite(o, "15", "vw", 320.0);
    TwoDecimalsMatch();
  }

  lemma TwoDecimalsMatch()
    ensures IsNumber("15") && PxReplace(Defaults().(unitPrecision := 2), "vw", 320.0, Num("15")) == "4.69vw"
  {
    FifteenReads();
    TwoDecimalsRounds();
    TwoDecimalsPrint();
    ConvertsTo(Defaults().(unitPrecision := 2), "vw", 320.0, "15", 15.0, 4.6875, 469, "4.69");
    TwoDecimalsSpelled();
  }

  lemma TwoDecimalsRounds()
    ensures Ratio(15.0, 320.0) == 4.6875 && RoundAtScale(4.6875, Pow10(2)) == 469
  {
    assert Pow10(2) == 100;
    assert JsRound(468.75) == 469;
  }

  lemma TwoDecimalsPrint()
    ensures FormatScaled(469, 2) == "4.69"
  {
    TwoDecimalsDigits();
    assert "469"[..1] == "4" && "469"[1..] == "69";
    assert TrimZeros("69") == "69";
    PrintedAs(469, 2, "4", "69");
    TwoDecimalsSpelled();
  }

  lemma TwoDecimalsDigits()
    ensures Digits(469, 2) == "469"
  {
    assert NatToString(4) == "4";
    assert NatToString(46) == "46";
    assert NatToString(469) == "469";
    assert PadZeros("469", 3) == "469";
  }

  lemma TwoDecimalsSpelled()
    ensures "4" + "." + "69" == "4.69" && "4.69" + "vw" == "4.69vw"
  {
  }

  /** A value that is one character the scanner keeps as text, then one number followed by
      the unit, is that character followed by what the callback gives for the number. */
  lemma PrefixedNumberRewrite(o: Options, c: char, digits: string, viewportUnit: string, viewportSize: real)
    requires IsNumber(digits) && viewportSize > 0.0
    requires Scan([c] + digits + o.unitToConvert, o.unitToConvert) == [Lit(c), Num(digits)]
    ensures ReplaceUnits(o, [c] + digits + o.unitToConvert, viewportUnit, viewportSize)
            == [c] + PxReplace(o, viewportUnit, viewportSize, Num(digits))
  {
    PrefixedNumberTokens(o, c, digits, viewportUnit, viewportSize);
  }

  lemma PrefixedNumberTokens(o: Options, c: char, digits: string, viewportUnit: string, viewportSize: real)
    requires IsNumber(digits) && viewportSize > 0.0
    ensures RewriteTokens(o, viewportUnit, viewportSize, [Lit(c), Num(digits)])
            == [c] + PxReplace(o, viewportUnit, viewportSize, Num(digits))
  {
    var ts := [Lit(c), Num(digits)];
    assert ts[1..] == [Num(digits)] && ts[1..][1..] == [];
    assert RewriteTokens(o, viewportUnit, viewportSize, ts[1..])
           == PxReplace(o, viewportUnit, viewportSize, Num(digits)) + "";
  }

  /** With `minPixelValue: 0`, `-0.2px` becomes `-0.0625vw`: the capture is `0.2`, and the
      minus sign stays in front as text. */
  lemma NegativeFraction()
    ensures ReplaceUnits(Defaults().(minPixelValue := 0.0), "-0.2px", "vw", 320.0) == "-0.0625vw"
  {
    var o := Defaults().(minPixelValue := 0.0);
    MinusSpelled();
    NegativeFractionScans();
    FifthPixelMatch();
    PrefixedNumberRewrite(o, '-', "0.2", "vw", 320.0);
  }

  lemma MinusSpelled()
    ensures ['-'] + "0.2" + "px" == "-0.2px"
    ensures ['-'] + "0.0625vw" == "-0.0625vw"
  {
  }

  lemma NegativeFractionScans()
    ensures Scan("-0.2px", "px") == [Lit('-'), Num("0.2")]
  {
    var s := "-0.2px";
    assert NumRun(s) == 0;
    assert !IsNumber(s[..0]);
    assert MatchUrl(s).None? by {
      assert s[..4][0] == '-';
    }
    assert MatchAt(s, "px") == None;
    assert s[1..] == "0.2" + "px";
    assert IsNumber("0.2") && IsLetterUnit("px");
    LoneNumberScans("0.2", "px");
  }

  lemma FifthPixelMatch()
    ensures IsNumber("0.2")
    ensures PxReplace(Defaults().(minPixelValue := 0.0), "vw", 320.0, Num("0.2")) == "0.0625vw"
  {
    FifthPixelReads();
    FifthPixelRounds();
    FifthPixelPrints();
    ConvertsTo(Defaults().(minPixelValue := 0.0), "vw", 320.0, "0.2", 0.2, 0.0625, 6250, "0.0625");
    FifthPixelSpelled();
  }

  lemma FifthPixelReads()
    ensures IsNumber("0.2") && ParseNumber("0.2") == 0.2
  {
    assert IsNumber("0.2");
    assert FindChar("0.2", '.', 0) == 1;
    var ds := "0.2"[..1] + "0.2"[2..];
    assert ds == "02";
    assert DigitsValue("02") == 2;
    assert Pow10(1) == 10;
    assert Quotient(2, 10) == 0.2;
  }

  lemma FifthPixelRounds()
    ensures Ratio(0.2, 320.0) == 0.0625 && RoundAtScale(0.0625, Pow10(5)) == 6250
  {
    assert Pow10(5) == 100000;
    assert JsRound(6250.0) == 6250;
  }

  lemma FifthPixelPrints()
    ensures FormatScaled(6250, 5) == "0.0625"
  {
    FifthPixelDigits();
    FifthPixelCut();
    PrintedAs(6250, 5, "0", "0625");
    FifthPixelSpelled();
  }

  lemma FifthPixelCut()
    ensures "006250"[..1] == "0" && TrimZeros("006250"[1..]) == "0625"
  {
    assert "006250"[1..] == "06250";
    assert "06250"[..4] == "0625";
  }

  lemma FifthPixelSpelled()
    ensures "0" + "." + "0625" == "0.0625" && "0.0625" + "vw" == "0.0625vw"
  {
  }

  lemma FifthPixelDigits()
    ensures Digits(6250, 5) == "006250"
  {
    assert NatToString(6) == "6";
    assert NatToString(62) == "62";
    assert NatToString(625) == "625";
    assert NatToString(6250) == "6250";
    assert PadZeros("006250", 6) == "006250";
    assert PadZeros("06250", 6) == "006250";
    assert PadZeros("6250", 6) == "006250";
  }

  /** With the defaults, `1px` stays as it is: the threshold `minPixelValue: 1` is
      inclusive. */
  lemma OnePixelIsKept()
    ensures ReplaceUnits(Defaults(), "1px", "vw", 320.0) == "1px"
  {
    assert IsNumber("1") && IsLetterUnit("px");
    assert "1" + Defaults().unitToConvert == "1px";
    LoneNumberRewrite(Defaults(), "1", "vw", 320.0);
    assert FindChar("1", '.', 0) == -1;
    assert DigitsValue("1") == 1;
    PxReplaceKeepsMatch(Defaults(), "vw", 320.0, Num("1"));
    assert TokenText(Num("1"), "px") == "1px";
  }

  /** A selected top-level rule holding one declaration to convert, whose rewrite differs
      from its value, comes out of a replace-mode visit holding the rewrite alone. */
  lemma OneDeclarationRule(o: Options, rule: Rule, v: string)
    requires PositiveWidths(o) && o.replace && !o.landscape && RuleSelected(o, rule)
    requires !Truthy(rule.parentParams) && |rule.nodes| == 1 && IsCandidate(o, rule.nodes[0])
    requires ConvertValue(o, rule.parentParams, rule.nodes[0].prop, rule.nodes[0].value) == v
    requires v != rule.nodes[0].value
    ensures VisitRule(o, rule, 1) == Visit(rule.(nodes := [Decl(rule.nodes[0].prop, v)]), [], 0)
  {
    var w := WalkerFor(o, rule.parentParams);
    var s := WalkState(rule.nodes, 0, 0);
    assert Converts(w, rule.nodes[0]) && Rewritten(w, rule.nodes[0]) == v;
    assert !IsDeclarationExists(rule.nodes, rule.nodes[0].prop, v);
    assert Step(w, s) == WalkState([Decl(rule.nodes[0].prop, v)], 1, 0);
  }

  /** `.rule { font-size: 15px }` with the defaults comes out as
      `.rule { font-size: 4.6875vw }`, with no landscape copy and no warning. */
  lemma BasicRuleConverted()
    ensures VisitRule(Defaults(), Rule(".rule", None, None, [Decl("font-size", "15px")]), 1)
            == Visit(Rule(".rule", None, None, [Decl("font-size", "4.6875vw")]), [], 0)
  {
    var o := Defaults();
    var rule := Rule(".rule", None, None, [Decl("font-size", "15px")]);
    assert OccursAt("15px", "px", 2);
    MatchAllAcceptsEverything("font-size");
    assert IsCandidate(o, rule.nodes[0]);
    DefaultTarget(None, "font-size");
    FifteenPixels();
    assert RuleSelected(o, rule);
    OneDeclarationRule(o, rule, "4.6875vw");
  }
}
