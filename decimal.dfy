/** Decimal numerals: the value `parseFloat` gives a capture of the scanner, and the text
    JavaScript prints for a number with finitely many decimals. Numbers are exact
    rationals; a scale `10^n` is passed around as a natural so that the arithmetic facts
    are proved once, over plain variables. */
module Decimal {
  import opened Strings
  import opened PixelUnitRegexp

  /** `10^n`. */
  function Pow10(n: nat): (r: nat)
    ensures r >= 1
  {
    if n == 0 then 1 else 10 * Pow10(n - 1)
  }

  lemma Pow10Succ(n: nat)
    ensures Pow10(n + 1) == 10 * Pow10(n)
  {
  }

  lemma ScaleByTen(x: nat, y: nat)
    ensures x * (10 * y) == 10 * (x * y)
  {
  }

  lemma {:induction false} Pow10Add(a: nat, b: nat)
    ensures Pow10(a + b) == Pow10(a) * Pow10(b)
  {
    if b > 0 {
      Pow10Add(a, b - 1);
      Pow10Succ(a + b - 1);
      Pow10Succ(b - 1);
      ScaleByTen(Pow10(a), Pow10(b - 1));
    }
  }

  predicate AllDigits(d: string) {
    forall i :: 0 <= i < |d| ==> IsDigit(d[i])
  }

  function DigitValue(c: char): nat
    requires IsDigit(c)
  {
    (c as int - '0' as int) as nat
  }

  /** The value of a string of decimal digits, most significant first (`""` is 0). */
  function DigitsValue(d: string): (r: nat)
    requires AllDigits(d)
  {
    if d == [] then 0 else DigitsValue(d[..|d| - 1]) * 10 + DigitValue(d[|d| - 1])
  }

  lemma ShiftSum(a: nat, p: nat, b: nat, d: nat)
    ensures (a * p + b) * 10 + d == a * (10 * p) + (b * 10 + d)
  {
  }

  /** The value of a concatenation of digit strings. */
  lemma {:induction false} DigitsAppend(a: string, b: string)
    requires AllDigits(a) && AllDigits(b)
    ensures AllDigits(a + b)
    ensures DigitsValue(a + b) == DigitsValue(a) * Pow10(|b|) + DigitsValue(b)
  {
    assert AllDigits(a + b) by {
      forall i | 0 <= i < |a + b| ensures IsDigit((a + b)[i]) {
        if i < |a| { assert (a + b)[i] == a[i]; } else { assert (a + b)[i] == b[i - |a|]; }
      }
    }
    if b == [] {
      assert a + b == a;
    } else {
      var b' := b[..|b| - 1];
      var c := b[|b| - 1];
      assert (a + b)[..|a + b| - 1] == a + b';
      assert (a + b)[|a + b| - 1] == c;
      assert DigitsValue(a + b) == DigitsValue(a + b') * 10 + DigitValue(c);
      assert DigitsValue(b) == DigitsValue(b') * 10 + DigitValue(c);
      DigitsAppend(a, b');
      Pow10Succ(|b'|);
      ShiftSum(DigitsValue(a), Pow10(|b'|), DigitsValue(b'), DigitValue(c));
    }
  }

  /** `n.toString()` for a natural number: its decimal digits, no leading zero. */
  function NatToString(n: nat): (s: string)
    ensures |s| >= 1 && AllDigits(s)
    ensures DigitsValue(s) == n
  {
    var d := [(('0' as int) + n % 10) as char];
    if n < 10 then d
    else
      var s := NatToString(n / 10) + d;
      assert s[..|s| - 1] == NatToString(n / 10);
      s
  }

  /** `s` with zeros prepended up to length `width`. */
  function PadZeros(s: string, width: nat): (r: string)
    requires AllDigits(s)
    ensures |r| == if |s| < width then width else |s|
    ensures AllDigits(r) && DigitsValue(r) == DigitsValue(s)
    decreases width - |s|
  {
    if |s| >= width then s
    else
      DigitsAppend("0", s);
      PadZeros("0" + s, width)
  }

  /** `s` without its trailing zeros. */
  function TrimZeros(s: string): (r: string)
    requires AllDigits(s)
    ensures |r| <= |s| && r == s[..|r|] && AllDigits(r)
    ensures r == [] || r[|r| - 1] != '0'
    ensures DigitsValue(s) == DigitsValue(r) * Pow10(|s| - |r|)
  {
    if s == [] || s[|s| - 1] != '0' then s
    else
      var t := TrimZeros(s[..|s| - 1]);
      Pow10Succ(|s| - 1 - |t|);
      ScaleByTen(DigitsValue(t), Pow10(|s| - 1 - |t|));
      t
  }

  /** The digits of `k` split at `precision` decimals: the integer part (at least one
      digit) and the fraction, zero-padded to exactly `precision` digits. */
  function Digits(k: nat, precision: nat): (d: string)
    ensures |d| >= precision + 1 && AllDigits(d) && DigitsValue(d) == k
  {
    PadZeros(NatToString(k), precision + 1)
  }

  /** How JavaScript prints `k / 10^precision`: the integer part, then a dot and the fraction
      without its trailing zeros, unless that fraction is empty. */
  function FormatScaled(k: nat, precision: nat): (r: string)
    ensures IsNumber(r)
  {
    var d := Digits(k, precision);
    var whole := d[..|d| - precision];
    var fraction := TrimZeros(d[|d| - precision..]);
    SplitDigits(k, precision, whole, fraction);
    if fraction == [] then
      DigitsAreNumber(whole);
      whole
    else
      DottedIsNumber(whole, fraction);
      whole + "." + fraction
  }

  /** `parseFloat` of a capture of `\d*\.?\d+`: the digits without the dot, scaled down by
      the number of digits after it. */
  function ParseNumber(t: string): (r: real)
    requires IsNumber(t)
    ensures r >= 0.0
  {
    var i := FindChar(t, '.', 0);
    if i == -1 then DigitsValue(t) as real
    else
      var ds := t[..i] + t[i + 1..];
      assert forall k :: 0 <= k < |ds| ==> ds[k] == (if k < i then t[k] else t[k + 1]);
      Quotient(DigitsValue(ds), Pow10(|t| - i - 1))
  }

  /** `n / p` as an exact rational. */
  function Quotient(n: nat, p: nat): (r: real)
    requires p >= 1
    ensures r >= 0.0
  {
    QuotientIsNonNegative(n as real, p as real);
    n as real / p as real
  }

  lemma QuotientIsNonNegative(n: real, p: real)
    requires n >= 0.0 && p >= 1.0
    ensures n / p >= 0.0
  {
    var q := n / p;
    assert n == q * p;
  }

  /** Scaling the numerator and the denominator by the same factor keeps the quotient. */
  lemma ScaleQuotient(d: nat, a: nat, z: nat, k: nat, p: nat)
    requires a >= 1 && z >= 1 && k == d * z && p == a * z
    ensures Quotient(d, a) == Quotient(k, p)
  {
    ScaleReal(d as real, a as real, z as real);
    assert k as real == d as real * z as real;
    assert p as real == a as real * z as real;
  }

  lemma ScaleReal(d: real, a: real, z: real)
    requires a >= 1.0 && z >= 1.0
    ensures d / a == (d * z) / (a * z)
  {
    var q := d / a;
    assert d == q * a;
    assert d * z == q * (a * z);
  }

  /** The digits `ds` followed by `e` zeros spell `k`. */
  predicate SpellsScaled(ds: string, e: nat, k: nat) {
    AllDigits(ds) && DigitsValue(ds) * Pow10(e) == k
  }

  /** The two parts of the printed value, and the value they spell. */
  lemma SplitDigits(k: nat, precision: nat, whole: string, fraction: string)
    requires whole == Digits(k, precision)[..|Digits(k, precision)| - precision]
    requires fraction == TrimZeros(Digits(k, precision)[|Digits(k, precision)| - precision..])
    ensures |whole| >= 1 && AllDigits(whole) && AllDigits(fraction) && |fraction| <= precision
    ensures SpellsScaled(whole + fraction, precision - |fraction|, k)
  {
    var d := Digits(k, precision);
    var raw := d[|d| - precision..];
    SliceDigits(d, |d| - precision);
    assert whole + raw == d && |raw| == precision && fraction == TrimZeros(raw);
    TrimmedValue(whole, raw, k);
  }

  /** Both sides of a cut of a digit string are digit strings. */
  lemma SliceDigits(d: string, n: nat)
    requires AllDigits(d) && n <= |d|
    ensures AllDigits(d[..n]) && AllDigits(d[n..]) && d[..n] + d[n..] == d
  {
    assert forall i :: 0 <= i < n ==> d[..n][i] == d[i];
    assert forall i :: 0 <= i < |d| - n ==> d[n..][i] == d[n + i];
  }

  /** Dropping the trailing zeros of the second part divides the value by a power of ten. */
  lemma TrimmedValue(whole: string, raw: string, v: nat)
    requires AllDigits(whole) && AllDigits(raw) && v == DigitsValue(whole + raw)
    ensures AllDigits(whole + TrimZeros(raw))
    ensures SpellsScaled(whole + TrimZeros(raw), |raw| - |TrimZeros(raw)|, v)
  {
    var fraction := TrimZeros(raw);
    var z := |raw| - |fraction|;
    DigitsAppend(whole, raw);
    DigitsAppend(whole, fraction);
    Pow10Add(|fraction|, z);
    Regroup(DigitsValue(whole), DigitsValue(fraction), Pow10(|fraction|), Pow10(z),
      Pow10(|raw|), DigitsValue(raw));
  }

  lemma Regroup(w: nat, f: nat, a: nat, z: nat, p: nat, r: nat)
    requires p == a * z && r == f * z
    ensures (w * a + f) * z == w * p + r
  {
  }

  /** A digit string followed by a dot and a digit string ending in a non-zero digit is a
      capture of the scanner, and its dot is at the end of the leading digits. */
  lemma DottedIsNumber(whole: string, fraction: string)
    requires |whole| >= 1 && AllDigits(whole) && |fraction| >= 1 && AllDigits(fraction)
    ensures var t := whole + "." + fraction;
      IsNumber(t) && FindChar(t, '.', 0) == |whole|
      && t[..|whole|] + t[|whole| + 1..] == whole + fraction
  {
    var t := whole + "." + fraction;
    assert t[|whole|] == '.';
    assert forall i :: 0 <= i < |whole| ==> t[i] == whole[i];
    assert forall i :: |whole| < i < |t| ==> t[i] == fraction[i - |whole| - 1];
    assert t[..|whole|] == whole;
    assert t[|whole| + 1..] == fraction;
  }

  /** A digit string is a capture of the scanner and has no dot. */
  lemma DigitsAreNumber(d: string)
    requires |d| >= 1 && AllDigits(d)
    ensures IsNumber(d) && FindChar(d, '.', 0) == -1
  {
    assert forall i :: 0 <= i < |d| ==> d[i] != '.';
  }

  /** Reading back the printed text gives `k / 10^precision`. */
  lemma FormatScaledValue(k: nat, precision: nat)
    ensures ParseNumber(FormatScaled(k, precision)) == Quotient(k, Pow10(precision))
  {
    var d := Digits(k, precision);
    var whole := d[..|d| - precision];
    var fraction := TrimZeros(d[|d| - precision..]);
    FormatScaledShape(k, precision, whole, fraction);
    PartsValue(k, precision, whole, fraction);
  }

  /** The integer part and the trimmed fraction of `k`'s digits read back as `k / 10^precision`. */
  lemma PartsValue(k: nat, precision: nat, whole: string, fraction: string)
    requires whole == Digits(k, precision)[..|Digits(k, precision)| - precision]
    requires fraction == TrimZeros(Digits(k, precision)[|Digits(k, precision)| - precision..])
    ensures var t := if fraction == [] then whole else whole + "." + fraction;
      IsNumber(t) && ParseNumber(t) == Quotient(k, Pow10(precision))
  {
    SplitDigits(k, precision, whole, fraction);
    ReadBack(if fraction == [] then whole else whole + "." + fraction, whole, fraction, precision, k);
  }

  lemma FormatScaledShape(k: nat, precision: nat, whole: string, fraction: string)
    requires whole == Digits(k, precision)[..|Digits(k, precision)| - precision]
    requires fraction == TrimZeros(Digits(k, precision)[|Digits(k, precision)| - precision..])
    ensures FormatScaled(k, precision) == if fraction == [] then whole else whole + "." + fraction
  {
  }

  /** A text made of an integer part and an optional fraction reads back as the value its
      digits spell, scaled down by `10^precision`. */
  lemma ReadBack(t: string, whole: string, fraction: string, precision: nat, k: nat)
    requires |whole| >= 1 && AllDigits(whole) && AllDigits(fraction) && |fraction| <= precision
    requires SpellsScaled(whole + fraction, precision - |fraction|, k)
    requires t == if fraction == [] then whole else whole + "." + fraction
    ensures IsNumber(t) && ParseNumber(t) == Quotient(k, Pow10(precision))
  {
    if fraction == [] {
      assert whole + fraction == whole;
      WholeValue(whole, precision, k);
    } else {
      FractionValue(whole, fraction, precision, k);
    }
  }

  lemma WholeValue(whole: string, precision: nat, k: nat)
    requires |whole| >= 1 && AllDigits(whole)
    requires SpellsScaled(whole, precision, k)
    ensures IsNumber(whole) && ParseNumber(whole) == Quotient(k, Pow10(precision))
  {
    DigitsAreNumber(whole);
    ScaleQuotient(DigitsValue(whole), 1, Pow10(precision), k, Pow10(precision));
  }

  lemma FractionValue(whole: string, fraction: string, precision: nat, k: nat)
    requires |whole| >= 1 && AllDigits(whole) && |fraction| >= 1 && AllDigits(fraction)
    requires |fraction| <= precision && SpellsScaled(whole + fraction, precision - |fraction|, k)
    ensures IsNumber(whole + "." + fraction)
    ensures ParseNumber(whole + "." + fraction) == Quotient(k, Pow10(precision))
  {
    DottedIsNumber(whole, fraction);
    var z := precision - |fraction|;
    Pow10Add(|fraction|, z);
    ScaleQuotient(DigitsValue(whole + fraction), Pow10(|fraction|), Pow10(z), k, Pow10(precision));
  }
}
