/** The numeric conversion: `toFixed` and the replace callback built by `createPxReplace`,
    over exact rationals. */
module Conversion {
  import opened Strings
  import opened PixelUnitRegexp
  import opened Decimal
  import opened Options

  /** `Math.round`: the nearest integer, halves rounded up. */
  function JsRound(x: real): int {
    (x + 0.5).Floor
  }

  /** `number * p` rounded half up. */
  function RoundAtScale(number: real, p: nat): int {
    JsRound(number * p as real)
  }

  /** `toFixed(number, precision)`: the two-stage rounding below at the scale
      `10^precision`. Over exact rationals it is plain rounding half up to `precision`
      decimals. */
  function ToFixed(number: real, precision: nat): (r: real)
    ensures r == RoundAtScale(number, Pow10(precision)) as real / Pow10(precision) as real
  {
    Pow10Succ(precision);
    TwoStageRound(number, Pow10(precision), Pow10(precision + 1))
  }

  /** The body of `toFixed` with `multiplier == 10^(precision + 1)`: floor to one decimal
      more than wanted, then round that last decimal away with `Math.round`. The ghost scale
      `p` is `10^precision`. */
  function TwoStageRound(number: real, ghost p: nat, multiplier: nat): (r: real)
    requires p >= 1 && multiplier == 10 * p
    ensures r == RoundAtScale(number, p) as real / p as real
  {
    TwoStageRounding(number, p, multiplier);
    (JsRound((number * multiplier as real).Floor as real / 10.0) * 10) as real / multiplier as real
  }

  /** The two stages of `toFixed`, for a scale `p >= 1` and `m == 10 * p`. */
  lemma TwoStageRounding(n: real, p: nat, m: nat)
    requires p >= 1 && m == 10 * p
    ensures (JsRound((n * m as real).Floor as real / 10.0) * 10) as real / m as real
            == (n * p as real + 0.5).Floor as real / p as real
  {
    TwoStages(n, p as real, m as real);
  }

  lemma TwoStages(n: real, p: real, m: real)
    requires p >= 1.0 && m == 10.0 * p
    ensures (JsRound((n * m).Floor as real / 10.0) * 10) as real / m == (n * p + 0.5).Floor as real / p
  {
    var x := n * m;
    assert x == 10.0 * (n * p);
    var w := x.Floor;
    assert w as real / 10.0 + 0.5 == (w as real + 5.0) / 10.0;
    FloorThenTenth(x);
    assert (x + 5.0) / 10.0 == n * p + 0.5;
    var k := JsRound(w as real / 10.0);
    assert k == (n * p + 0.5).Floor;
    assert (k * 10) as real == 10.0 * k as real;
    CancelTen(k as real, p);
  }

  /** Flooring before dividing by ten loses nothing. */
  lemma FloorThenTenth(x: real)
    ensures ((x.Floor as real + 5.0) / 10.0).Floor == ((x + 5.0) / 10.0).Floor
  {
    var w := x.Floor;
    var q := ((w as real + 5.0) / 10.0).Floor;
    assert 10 * q <= w + 5 < 10 * q + 10;
    assert w + 5 <= 10 * q + 9;
    assert x < w as real + 1.0;
    assert 10.0 * q as real <= x + 5.0 < 10.0 * q as real + 10.0;
  }

  /** Multiplying the numerator and the denominator by ten changes no quotient. */
  lemma CancelTen(a: real, p: real)
    requires p > 0.0
    ensures (10.0 * a) / (10.0 * p) == a / p
  {
    var y := a / p;
    assert a == y * p;
    assert 10.0 * a == (10.0 * p) * y;
  }

  /** `t` is within half a unit of `1 / p` of `number`. */
  predicate IsClose(number: real, t: real, p: nat)
    requires p >= 1
  {
    number - 0.5 / p as real < t <= number + 0.5 / p as real
  }

  /** Dividing by a positive scale keeps the bounds of a rounding. */
  lemma RoundingBounds(n: real, p: real)
    requires p >= 1.0
    ensures n - 0.5 / p < (n * p + 0.5).Floor as real / p <= n + 0.5 / p
  {
    var r := (n * p + 0.5).Floor as real;
    assert n * p - 0.5 < r <= n * p + 0.5;
    var q := r / p;
    assert r == q * p;
    assert (n - 0.5 / p) * p == n * p - 0.5;
    assert (n + 0.5 / p) * p == n * p + 0.5;
    assert (n - 0.5 / p) * p < q * p <= (n + 0.5 / p) * p;
  }

  lemma RoundAtScaleIsClose(number: real, p: nat)
    requires p >= 1
    ensures IsClose(number, RoundAtScale(number, p) as real / p as real, p)
  {
    RoundingBounds(number, p as real);
  }

  /** `y` lies in `[-0.5, 0.5)`, the values that round half up to zero. */
  predicate WithinHalf(y: real) {
    -0.5 <= y < 0.5
  }

  /** A quotient by a positive scale is zero exactly when its numerator is. */
  lemma ZeroQuotient(r: real, p: real)
    requires p >= 1.0
    ensures r / p == 0.0 <==> r == 0.0
  {
    var q := r / p;
    assert r == q * p;
  }

  /** A rounding of `y` to an integer is zero exactly when `y` lies in `[-0.5, 0.5)`. */
  lemma RoundsToZero(y: real)
    ensures JsRound(y) == 0 <==> WithinHalf(y)
  {
  }

  lemma RoundAtScaleZero(number: real, p: nat)
    requires p >= 1
    ensures RoundAtScale(number, p) == 0 <==> WithinHalf(number * p as real)
    ensures RoundAtScale(number, p) as real / p as real == 0.0 <==> RoundAtScale(number, p) == 0
  {
    RoundsToZero(number * p as real);
    ZeroQuotient(RoundAtScale(number, p) as real, p as real);
  }

  /** `toFixed` at the scale `p == 10^precision`: it is within half a unit of the last kept
      decimal of `number`, and it is 0 exactly when `number * p` rounds to 0. */
  lemma ToFixedAtScale(number: real, precision: nat, p: nat)
    requires p == Pow10(precision)
    ensures IsClose(number, ToFixed(number, precision), p)
    ensures ToFixed(number, precision) == 0.0 <==> WithinHalf(number * p as real)
  {
    RoundAtScaleIsClose(number, p);
    RoundAtScaleZero(number, p);
  }

  lemma RoundAtScaleIsNatural(number: real, p: nat)
    requires number >= 0.0
    ensures RoundAtScale(number, p) >= 0
  {
    assert number * p as real >= 0.0;
  }

  /** `pixels / viewportSize * 100`: the length as a percentage of the viewport size. */
  function Ratio(pixels: real, viewportSize: real): (r: real)
    requires pixels >= 0.0 && viewportSize > 0.0
    ensures r >= 0.0
  {
    var q := pixels / viewportSize;
    assert pixels == q * viewportSize;
    q * 100.0
  }

  /** The replace callback of `createPxReplace(options, viewportUnit, viewportSize)`
      applied to one match `t` of the scanner for `options.unitToConvert`. */
  function PxReplace(o: Options, viewportUnit: string, viewportSize: real, t: Token): (r: string)
    requires viewportSize > 0.0
    requires t.Num? ==> IsNumber(t.digits)
  {
    if !t.Num? then TokenText(t, o.unitToConvert)
    else if ParseNumber(t.digits) <= o.minPixelValue then TokenText(t, o.unitToConvert)
    else ConvertRatio(Ratio(ParseNumber(t.digits), viewportSize), o.unitPrecision, viewportUnit)
  }

  /** The converted text for a ratio (the percentage of the viewport): `toFixed` of it, as
      the bare `"0"` when that is zero and followed by the unit otherwise. */
  function ConvertRatio(ratio: real, precision: nat, viewportUnit: string): string
    requires ratio >= 0.0
  {
    if ToFixed(ratio, precision) == 0.0 then "0"
    else
      RoundAtScaleIsNatural(ratio, Pow10(precision));
      FormatScaled(RoundAtScale(ratio, Pow10(precision)) as nat, precision) + viewportUnit
  }

  /** What the callback gives for a numeric match above the threshold, at the scale
      `p == 10^unitPrecision`: the bare `"0"` when the ratio rounds to zero at the precision,
      otherwise the rounded ratio printed in decimal followed by the target unit. */
  lemma PxReplaceConverts(o: Options, viewportUnit: string, viewportSize: real, digits: string,
                          ratio: real, p: nat)
    requires viewportSize > 0.0 && IsNumber(digits) && ParseNumber(digits) > o.minPixelValue
    requires ratio == Ratio(ParseNumber(digits), viewportSize) && p == Pow10(o.unitPrecision)
    ensures RoundAtScale(ratio, p) >= 0
    ensures PxReplace(o, viewportUnit, viewportSize, Num(digits))
            == if WithinHalf(ratio * p as real) then "0"
               else FormatScaled(RoundAtScale(ratio, p) as nat, o.unitPrecision) + viewportUnit
  {
    ConvertRatioAtScale(ratio, o.unitPrecision, viewportUnit, p);
  }

  lemma ConvertRatioAtScale(ratio: real, precision: nat, viewportUnit: string, p: nat)
    requires ratio >= 0.0 && p == Pow10(precision)
    ensures RoundAtScale(ratio, p) >= 0
    ensures ConvertRatio(ratio, precision, viewportUnit)
            == if WithinHalf(ratio * p as real) then "0"
               else FormatScaled(RoundAtScale(ratio, p) as nat, precision) + viewportUnit
  {
    ConvertsAtScale(ratio, p, precision);
  }

  /** The number printed by the callback reads back as `toFixed` of the ratio. */
  lemma PxReplacePrintsToFixed(ratio: real, precision: nat, p: nat)
    requires ratio >= 0.0 && p == Pow10(precision)
    ensures RoundAtScale(ratio, p) >= 0
    ensures ParseNumber(FormatScaled(RoundAtScale(ratio, p) as nat, precision)) == ToFixed(ratio, precision)
  {
    ConvertsAtScale(ratio, p, precision);
    FormatScaledValue(RoundAtScale(ratio, p) as nat, precision);
  }

  lemma ConvertsAtScale(ratio: real, p: nat, precision: nat)
    requires ratio >= 0.0 && p == Pow10(precision)
    ensures RoundAtScale(ratio, p) >= 0
    ensures RoundAtScale(ratio, p) == 0 <==> WithinHalf(ratio * p as real)
    ensures ToFixed(ratio, precision) == 0.0 <==> RoundAtScale(ratio, p) == 0
    ensures ToFixed(ratio, precision) == Quotient(RoundAtScale(ratio, p), p)
  {
    RoundAtScaleIsNatural(ratio, p);
    RoundAtScaleZero(ratio, p);
  }

  /** Quoted runs, `url(...)` runs, and numbers at or below `minPixelValue` (an inclusive
      bound) come back exactly as matched. */
  lemma PxReplaceKeepsMatch(o: Options, viewportUnit: string, viewportSize: real, t: Token)
    requires viewportSize > 0.0 && (t.Num? ==> IsNumber(t.digits))
    requires !t.Num? || ParseNumber(t.digits) <= o.minPixelValue
    ensures PxReplace(o, viewportUnit, viewportSize, t) == TokenText(t, o.unitToConvert)
  {
  }

  /** The callback applied to every token, concatenated. */
  function RewriteTokens(o: Options, viewportUnit: string, viewportSize: real, ts: seq<Token>): string
    requires viewportSize > 0.0
    requires forall t :: t in ts && t.Num? ==> IsNumber(t.digits)
  {
    if ts == [] then ""
    else PxReplace(o, viewportUnit, viewportSize, ts[0]) + RewriteTokens(o, viewportUnit, viewportSize, ts[1..])
  }

  /** `value.replace(pxRegExp, createPxReplace(options, viewportUnit, viewportSize))`. */
  function ReplaceUnits(o: Options, value: string, viewportUnit: string, viewportSize: real): string
    requires viewportSize > 0.0
  {
    CapturesAreNumbers(value, o.unitToConvert);
    RewriteTokens(o, viewportUnit, viewportSize, Scan(value, o.unitToConvert))
  }

  lemma {:induction false} RewriteWithoutNumbers(o: Options, viewportUnit: string, viewportSize: real, ts: seq<Token>)
    requires viewportSize > 0.0
    requires forall t :: t in ts ==> !t.Num?
    ensures RewriteTokens(o, viewportUnit, viewportSize, ts) == Flatten(ts, o.unitToConvert)
  {
    if ts != [] {
      RewriteWithoutNumbers(o, viewportUnit, viewportSize, ts[1..]);
    }
  }

  /** A value in which the unit does not occur is returned unchanged. */
  lemma ReplaceWithoutUnitIsIdentity(o: Options, value: string, viewportUnit: string, viewportSize: real)
    requires viewportSize > 0.0
    requires IndexOf(value, o.unitToConvert) == -1
    ensures ReplaceUnits(o, value, viewportUnit, viewportSize) == value
  {
    NoUnitNoNumber(value, o.unitToConvert);
    RewriteWithoutNumbers(o, viewportUnit, viewportSize, Scan(value, o.unitToConvert));
    ScanSpellsValue(value, o.unitToConvert);
  }

  /** A rewrite in which every number is at or below `minPixelValue` spells the value back. */
  lemma {:induction false} RewriteBelowThreshold(o: Options, viewportUnit: string, viewportSize: real, ts: seq<Token>)
    requires viewportSize > 0.0
    requires forall t :: t in ts && t.Num? ==> IsNumber(t.digits) && ParseNumber(t.digits) <= o.minPixelValue
    ensures RewriteTokens(o, viewportUnit, viewportSize, ts) == Flatten(ts, o.unitToConvert)
  {
    if ts != [] {
      RewriteBelowThreshold(o, viewportUnit, viewportSize, ts[1..]);
    }
  }
}
