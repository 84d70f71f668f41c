/** The unit scanner: the global regular expression
      "[^"]+" | '[^']+' | url\([^\)]+\) | (\d*\.?\d+)UNIT
    together with `String.prototype.replace`, written as an explicit left-to-right scanner
    that splits a value into literal characters and four kinds of match. */
module PixelUnitRegexp {
  import opened Wrappers
  import opened Strings

  /** The `unit` argument of `getUnitPartPatternStr`: a string or an array of strings. */
  datatype UnitSpec = UnitString(s: string) | UnitArray(items: seq<string>)

  /** `items.join(sep)`. */
  function Join(items: seq<string>, sep: char): string {
    if items == [] then ""
    else if |items| == 1 then items[0]
    else items[0] + [sep] + Join(items[1..], sep)
  }

  /** `s.split(sep)` for a one-character separator. */
  function Split(s: string, sep: char): (r: seq<string>)
    ensures |r| >= 1
    decreases |s|
  {
    var i := FindChar(s, sep, 0);
    if i == -1 then [s] else [s[..i]] + Split(s[i + 1..], sep)
  }

  /** Splitting undoes joining when no piece holds the separator. */
  lemma {:induction false} SplitJoin(items: seq<string>, sep: char)
    requires |items| >= 1
    requires forall k :: 0 <= k < |items| ==> Lacks(items[k], sep)
    ensures Split(Join(items, sep), sep) == items
  {
    if |items| == 1 {
      assert FindChar(items[0], sep, 0) == -1;
    } else {
      var x := items[0];
      var rest := Join(items[1..], sep);
      var j := x + [sep] + rest;
      assert Join(items, sep) == j;
      assert j[|x|] == sep;
      assert forall k :: 0 <= k < |x| ==> j[k] == x[k];
      assert FindChar(j, sep, 0) == |x|;
      assert j[..|x|] == x;
      assert j[|x| + 1..] == rest;
      SplitJoin(items[1..], sep);
      assert items == [x] + items[1..];
    }
  }

  /** `getUnitPartPatternStr(unit)`: a string unchanged, a one-element array its element,
      a longer array the parenthesised `|`-alternation of its elements. */
  function UnitPartPattern(unit: UnitSpec): (r: string)
    ensures unit.UnitString? ==> r == unit.s
    ensures unit.UnitArray? && |unit.items| == 1 ==> r == unit.items[0]
    ensures unit.UnitArray? && |unit.items| != 1 ==>
      |r| >= 2 && r[0] == '(' && r[|r| - 1] == ')' && r[1..|r| - 1] == Join(unit.items, '|')
  {
    match unit
    case UnitString(s) => s
    case UnitArray(items) =>
      if |items| == 1 then items[0] else "(" + Join(items, '|') + ")"
  }

  /** For a longer array of `|`-free spellings, the alternation lists exactly those spellings. */
  lemma AlternationListsEverySpelling(items: seq<string>)
    requires |items| >= 2
    requires forall k :: 0 <= k < |items| ==> Lacks(items[k], '|')
    ensures var r := UnitPartPattern(UnitArray(items)); Split(r[1..|r| - 1], '|') == items
  {
    SplitJoin(items, '|');
  }

  predicate IsDigit(c: char) { '0' <= c <= '9' }

  predicate IsLetter(c: char) { 'a' <= c <= 'z' || 'A' <= c <= 'Z' }

  /** The units this model admits: a non-empty run of ASCII letters, so that the unit
      holds no regex metacharacter and cannot continue a number. */
  predicate IsLetterUnit(u: string) {
    |u| >= 1 && forall i :: 0 <= i < |u| ==> IsLetter(u[i])
  }

  /** A character the regex `\d*\.?\d+` can consume. */
  predicate IsNumChar(c: char) { IsDigit(c) || c == '.' }

  /** `t` is matched in full by `\d*\.?\d+`: digits with at most one dot, ending in a digit. */
  predicate IsNumber(t: string) {
    && |t| >= 1
    && IsDigit(t[|t| - 1])
    && (forall i :: 0 <= i < |t| ==> IsNumChar(t[i]))
    && (forall i, j :: 0 <= i < j < |t| && t[i] == '.' ==> t[j] != '.')
  }

  /** The length of the longest prefix of `s` made of digits and dots. */
  function NumRun(s: string): (n: nat)
    ensures n <= |s|
    ensures forall i :: 0 <= i < n ==> IsNumChar(s[i])
    ensures n < |s| ==> !IsNumChar(s[n])
  {
    if s == [] || !IsNumChar(s[0]) then 0 else 1 + NumRun(s[1..])
  }

  /** One match of the scanner. `Num` holds the capture group; the other three pass
      through unchanged. */
  datatype Token =
    | Lit(c: char)
    | DoubleQuoted(text: string)
    | SingleQuoted(text: string)
    | Url(text: string)
    | Num(digits: string)

  /** The input text a token stands for. */
  function TokenText(t: Token, unit: string): string {
    match t
    case Lit(c) => [c]
    case DoubleQuoted(text) => text
    case SingleQuoted(text) => text
    case Url(text) => text
    case Num(digits) => digits + unit
  }

  /** The concatenation of the texts of a token sequence. */
  function Flatten(ts: seq<Token>, unit: string): string {
    if ts == [] then "" else TokenText(ts[0], unit) + Flatten(ts[1..], unit)
  }

  /** `q[^q]+q` at the start of `s`: the length of the match, if any. */
  function MatchQuoted(s: string, q: char): (r: Option<nat>)
    ensures r.Some? <==> |s| >= 3 && s[0] == q && exists j :: 2 <= j < |s| && s[j] == q && Lacks(s[1..j], q)
    ensures r.Some? ==> 3 <= r.value <= |s| && s[r.value - 1] == q && Lacks(s[1..r.value - 1], q)
  {
    if |s| == 0 || s[0] != q then None
    else
      var j := FindChar(s, q, 1);
      if j > 1 then
        assert Lacks(s[1..j], q);
        Some(j + 1)
      else
        assert forall j' :: 2 <= j' < |s| && s[j'] == q ==> !Lacks(s[1..j'], q) by {
          forall j' | 2 <= j' < |s| && s[j'] == q ensures !Lacks(s[1..j'], q) {
            assert j == 1 && s[1..j'][0] == s[1];
          }
        }
        None
  }

  /** `url\([^\)]+\)` at the start of `s`: the length of the match, if any. */
  function MatchUrl(s: string): (r: Option<nat>)
    ensures r.Some? ==> 6 <= r.value <= |s| && s[..4] == "url(" && s[r.value - 1] == ')' && Lacks(s[4..r.value - 1], ')')
    ensures r.None? && |s| >= 4 && s[..4] == "url(" ==> forall j :: 5 <= j < |s| && s[j] == ')' ==> !Lacks(s[4..j], ')')
  {
    if |s| < 4 || s[..4] != "url(" then None
    else
      var j := FindChar(s, ')', 4);
      if j > 4 then
        assert Lacks(s[4..j], ')');
        Some(j + 1)
      else
        assert forall j' :: 5 <= j' < |s| && s[j'] == ')' ==> !Lacks(s[4..j'], ')') by {
          forall j' | 5 <= j' < |s| && s[j'] == ')' ensures !Lacks(s[4..j'], ')') {
            assert j == 4 && s[4..j'][0] == s[4];
          }
        }
        None
  }

  /** `(\d*\.?\d+)unit` at the start of `s`: the capture group, if any. A letter unit
      cannot continue a number, so the only candidate capture is the whole leading run of
      digits and dots. */
  function MatchNumber(s: string, unit: string): (r: Option<string>)
    ensures r.Some? ==> IsNumber(r.value) && |r.value| + |unit| <= |s|
                        && s[..|r.value| + |unit|] == r.value + unit
    ensures r.Some? <==> IsNumber(s[..NumRun(s)]) && StartsWith(s[NumRun(s)..], unit)
  {
    var n := NumRun(s);
    if IsNumber(s[..n]) && StartsWith(s[n..], unit) then
      assert s[..n + |unit|] == s[..n] + s[n..][..|unit|];
      Some(s[..n])
    else None
  }

  /** Why the leading run is the only candidate: with a letter unit, any split of `s` into
      a full `\d*\.?\d+` match followed by the unit puts the split at the end of the run. */
  lemma CaptureIsWholeRun(s: string, unit: string, k: nat)
    requires IsLetterUnit(unit)
    requires k <= |s| && IsNumber(s[..k]) && StartsWith(s[k..], unit)
    ensures k == NumRun(s)
  {
    assert s[k] == s[k..][..|unit|][0] == unit[0];
    assert !IsNumChar(s[k]);
    assert forall i :: 0 <= i < k ==> IsNumChar(s[i]) by {
      forall i | 0 <= i < k ensures IsNumChar(s[i]) { assert s[..k][i] == s[i]; }
    }
  }

  /** The four alternatives, tried in order at the start of `s`. */
  function MatchAt(s: string, unit: string): (r: Option<Token>)
    ensures r.Some? ==> !r.value.Lit? && 1 <= |TokenText(r.value, unit)| <= |s|
                        && s[..|TokenText(r.value, unit)|] == TokenText(r.value, unit)
    ensures r.Some? && r.value.Num? ==> IsNumber(r.value.digits) && MatchNumber(s, unit) == Some(r.value.digits)
    ensures r.Some? && r.value.Num? ==> MatchQuoted(s, '"').None? && MatchQuoted(s, '\'').None? && MatchUrl(s).None?
    ensures r.None? <==> MatchQuoted(s, '"').None? && MatchQuoted(s, '\'').None? && MatchUrl(s).None? && MatchNumber(s, unit).None?
  {
    match MatchQuoted(s, '"')
    case Some(n) => Some(DoubleQuoted(s[..n]))
    case None =>
      match MatchQuoted(s, '\'')
      case Some(n) => Some(SingleQuoted(s[..n]))
      case None =>
        match MatchUrl(s)
        case Some(n) => Some(Url(s[..n]))
        case None =>
          match MatchNumber(s, unit)
          case Some(d) => Some(Num(d))
          case None => None
  }

  /** The global scan of `replace`: at each position take the first alternative that
      matches and resume after it, otherwise keep one character and move on. */
  function Scan(s: string, unit: string): seq<Token>
    decreases |s|
  {
    if s == [] then []
    else
      match MatchAt(s, unit)
      case Some(t) => [t] + Scan(s[|TokenText(t, unit)|..], unit)
      case None => [Lit(s[0])] + Scan(s[1..], unit)
  }

  /** The scan loses and invents nothing: the tokens spell the value back. */
  lemma {:induction false} ScanSpellsValue(s: string, unit: string)
    ensures Flatten(Scan(s, unit), unit) == s
    decreases |s|
  {
    if s != [] {
      match MatchAt(s, unit)
      case Some(t) =>
        var n := |TokenText(t, unit)|;
        ScanSpellsValue(s[n..], unit);
        assert [t] + Scan(s[n..], unit) == Scan(s, unit);
        assert s == s[..n] + s[n..];
      case None =>
        ScanSpellsValue(s[1..], unit);
        assert [Lit(s[0])] + Scan(s[1..], unit) == Scan(s, unit);
        assert s == [s[0]] + s[1..];
    }
  }

  /** Every captured number obeys `\d*\.?\d+`. */
  lemma {:induction false} CapturesAreNumbers(s: string, unit: string)
    ensures forall t :: t in Scan(s, unit) && t.Num? ==> IsNumber(t.digits)
    decreases |s|
  {
    if s != [] {
      match MatchAt(s, unit)
      case Some(t) =>
        CapturesAreNumbers(s[|TokenText(t, unit)|..], unit);
      case None =>
        CapturesAreNumbers(s[1..], unit);
    }
  }

  lemma OccursInSuffix(s: string, m: string, n: nat, j: nat)
    requires n <= |s| && OccursAt(s[n..], m, j)
    ensures OccursAt(s, m, n + j)
  {
    assert s[n + j..n + j + |m|] == s[n..][j..j + |m|];
  }

  lemma {:induction false} AbsentUnitNoNumber(s: string, unit: string)
    requires forall j: nat :: !OccursAt(s, unit, j)
    ensures forall t :: t in Scan(s, unit) ==> !t.Num?
    decreases |s|
  {
    if s != [] {
      match MatchAt(s, unit)
      case Some(t) =>
        var n := |TokenText(t, unit)|;
        forall j: nat ensures !OccursAt(s[n..], unit, j) {
          if OccursAt(s[n..], unit, j) { OccursInSuffix(s, unit, n, j); }
        }
        AbsentUnitNoNumber(s[n..], unit);
        if t.Num? {
          assert s[|t.digits|..|t.digits| + |unit|] == (t.digits + unit)[|t.digits|..];
          assert OccursAt(s, unit, |t.digits|);
        }
      case None =>
        forall j: nat ensures !OccursAt(s[1..], unit, j) {
          if OccursAt(s[1..], unit, j) { OccursInSuffix(s, unit, 1, j); }
        }
        AbsentUnitNoNumber(s[1..], unit);
    }
  }

  /** A value in which the unit does not occur yields no numeric match. */
  lemma NoUnitNoNumber(s: string, unit: string)
    requires IndexOf(s, unit) == -1
    ensures forall t :: t in Scan(s, unit) ==> !t.Num?
  {
    IndexOfFirst(s, unit);
    AbsentUnitNoNumber(s, unit);
  }

  /** Matching is case-sensitive: `14PX` and `12Px` hold no match for `px`. */
  lemma UppercaseUnitIsNotMatched()
    ensures forall t :: t in Scan("14PX", "px") ==> !t.Num?
    ensures forall t :: t in Scan("12Px", "px") ==> !t.Num?
  {
    NotFoundWithMissingChar("14PX", "px", 0);
    NotFoundWithMissingChar("12Px", "px", 0);
    NoUnitNoNumber("14PX", "px");
    NoUnitNoNumber("12Px", "px");
  }

  lemma {:induction false} NumRunOfNumChars(d: string, rest: string)
    requires forall i :: 0 <= i < |d| ==> IsNumChar(d[i])
    requires rest == [] || !IsNumChar(rest[0])
    ensures NumRun(d + rest) == |d|
  {
    if d == [] {
      assert d + rest == rest;
    } else {
      assert (d + rest)[1..] == d[1..] + rest;
      NumRunOfNumChars(d[1..], rest);
    }
  }

  /** A number written with a letter unit and nothing else is one numeric match whose
      capture is the number. */
  lemma LoneNumberScans(digits: string, unit: string)
    requires IsNumber(digits) && IsLetterUnit(unit)
    ensures Scan(digits + unit, unit) == [Num(digits)]
  {
    var s := digits + unit;
    NumRunOfNumChars(digits, unit);
    assert s[..|digits|] == digits && s[|digits|..] == unit;
    assert StartsWith(s[NumRun(s)..], unit);
    assert MatchNumber(s, unit) == Some(digits);
    assert s[0] == digits[0];
    assert MatchUrl(s).None? by {
      if |s| >= 4 { assert s[..4][0] == s[0]; }
    }
    assert MatchAt(s, unit) == Some(Num(digits));
    assert s[|digits + unit|..] == [];
  }
}
