/**
 * The `rain_trace` reading: `decimal.TryParse` with the number style it uses by default
 * (surrounding white space, a leading sign, a decimal point), read with the invariant
 * culture's symbols. A string it cannot read is a failed parse, never zero.
 */
module DecimalText {
  import opened Wrappers
  import opened Digits

  /** A decimal value as `System.Decimal` keeps it: `mantissa / 10^scale`, so 0.0 keeps its scale of 1. */
  datatype Decimal = Decimal(mantissa: int, scale: nat)

  function Magnitude(d: Decimal): nat {
    if d.mantissa < 0 then -d.mantissa else d.mantissa
  }

  /** The largest magnitude a decimal holds: 2^96 - 1. */
  const MaxMagnitude: nat := 79228162514264337593543950335

  /** The largest mantissa magnitude at a scale: `MaxMagnitude * 10^scale`, see `LimitScales`. */
  function Limit(scale: nat): nat {
    if scale == 0 then MaxMagnitude else 10 * Limit(scale - 1)
  }

  /** The value does not exceed `decimal.MaxValue` in magnitude. */
  predicate InRange(d: Decimal) {
    Magnitude(d) <= Limit(d.scale)
  }

  /** The bound at a scale is the largest magnitude shifted by that many places. */
  lemma {:induction false} LimitScales(scale: nat)
    ensures Limit(scale) == MaxMagnitude * Pow10(scale)
  {
    if scale > 0 {
      LimitScales(scale - 1);
    }
  }

  /** The characters the number parser skips around a number: space, tab, LF, VT, FF, CR. */
  predicate IsWhite(c: char) {
    c == ' ' || '\t' <= c <= '\r'
  }

  predicate AllWhite(s: string) {
    forall i :: 0 <= i < |s| ==> IsWhite(s[i])
  }

  function LeadingWhite(s: string): (k: nat)
    ensures k <= |s| && (forall i :: 0 <= i < k ==> IsWhite(s[i])) && (k < |s| ==> !IsWhite(s[k]))
  {
    if s == [] || !IsWhite(s[0]) then 0 else 1 + LeadingWhite(s[1..])
  }

  function TrailingWhite(s: string): (k: nat)
    ensures k <= |s| && (forall i :: |s| - k <= i < |s| ==> IsWhite(s[i]))
    ensures k < |s| ==> !IsWhite(s[|s| - 1 - k])
  {
    if s == [] || !IsWhite(s[|s| - 1]) then 0 else 1 + TrailingWhite(s[..|s| - 1])
  }

  /** The position of the first decimal point, or the length when there is none. */
  function PointIndex(s: string): (k: nat)
    ensures k <= |s| && (forall i :: 0 <= i < k ==> s[i] != '.') && (k < |s| ==> s[k] == '.')
  {
    if s == [] || s[0] == '.' then 0 else 1 + PointIndex(s[1..])
  }

  /** The text between the leading and the trailing white space. */
  function Trim(s: string): string {
    var t := s[LeadingWhite(s)..];
    t[..|t| - TrailingWhite(t)]
  }

  /**
   * `decimal.TryParse`: white space, an optional `+` or `-`, digits, an optional `.` and
   * more digits, white space; at least one digit in all, and within the decimal range.
   * `None` is the `false` result that leaves the field null.
   */
  function ParseDecimal(s: string): (r: Option<Decimal>)
    ensures r.Some? ==> InRange(r.value)
  {
    ParseSigned(Trim(s))
  }

  /** An optional leading sign, then an unsigned number. */
  function ParseSigned(core: string): (r: Option<Decimal>)
    ensures r.Some? ==> InRange(r.value)
  {
    if |core| > 0 && (core[0] == '-' || core[0] == '+') then ParseUnsigned(core[0] == '-', core[1..])
    else ParseUnsigned(false, core)
  }

  /** Digits, optionally a decimal point and more digits, with at least one digit in all. */
  function ParseUnsigned(negative: bool, text: string): (r: Option<Decimal>)
    ensures r.Some? ==> InRange(r.value)
  {
    var k := PointIndex(text);
    var whole := text[..k];
    var fraction := if k < |text| then text[k + 1..] else "";
    if AllDigits(whole) && AllDigits(fraction) && |whole| + |fraction| > 0 then
      Checked(Denoted(negative, whole, fraction))
    else
      None
  }

  /** A value outside the decimal range makes the parse fail. */
  function Checked(d: Decimal): (r: Option<Decimal>)
    ensures r.Some? ==> InRange(r.value)
  {
    if InRange(d) then Some(d) else None
  }

  /** A number written as a sign (empty, `+` or `-`), whole digits and, when there are any, fraction digits. */
  function Render(sign: string, whole: string, fraction: string): string {
    sign + whole + (if fraction == [] then "" else "." + fraction)
  }

  /** The decimal that the digits `whole` and `fraction` denote, the fraction's length being the scale. */
  function Denoted(negative: bool, whole: string, fraction: string): Decimal
    requires AllDigits(whole) && AllDigits(fraction)
  {
    ConcatDigits(whole, fraction);
    var magnitude: int := Value(whole + fraction);
    Decimal(if negative then -magnitude else magnitude, |fraction|)
  }

  /** The plain rendering: a `-` for negative values, the whole part without leading zeros, and `scale` fraction digits. */
  function FormatDecimal(d: Decimal): string {
    Render(if d.mantissa < 0 then "-" else "", WholeDigits(d), FractionDigits(d))
  }

  /** The magnitude written with at least one digit before the point and `scale` after it. */
  function AllDigitsOf(d: Decimal): (s: string)
    ensures |s| > d.scale
  {
    var m := Magnitude(d);
    Pad(m, if NumDigits(m) > d.scale then NumDigits(m) else d.scale + 1)
  }

  function WholeDigits(d: Decimal): string {
    var s := AllDigitsOf(d);
    s[..|s| - d.scale]
  }

  function FractionDigits(d: Decimal): string {
    var s := AllDigitsOf(d);
    s[|s| - d.scale..]
  }

  /** The rendered digits denote the value they were written from. */
  lemma FormatDenotes(d: Decimal)
    ensures AllDigits(WholeDigits(d)) && AllDigits(FractionDigits(d)) && WholeDigits(d) != []
    ensures Denoted(d.mantissa < 0, WholeDigits(d), FractionDigits(d)) == d
  {
    AllDigitsOfValue(d);
    SplitDigits(d);
    assert Value(WholeDigits(d) + FractionDigits(d)) == Magnitude(d);
  }

  /** The whole and fraction digits are digit strings that make up the rendered digits. */
  lemma SplitDigits(d: Decimal)
    requires AllDigits(AllDigitsOf(d))
    ensures AllDigits(WholeDigits(d)) && AllDigits(FractionDigits(d)) && WholeDigits(d) != []
    ensures WholeDigits(d) + FractionDigits(d) == AllDigitsOf(d)
  {
    var digits := AllDigitsOf(d);
    var cut := |digits| - d.scale;
    DigitsSlice(digits, 0, cut);
    DigitsSlice(digits, cut, |digits|);
    assert digits[0..cut] == WholeDigits(d) && digits[cut..|digits|] == FractionDigits(d);
  }

  /** The rendered digits denote the magnitude. */
  lemma AllDigitsOfValue(d: Decimal)
    ensures AllDigits(AllDigitsOf(d)) && Value(AllDigitsOf(d)) == Magnitude(d)
  {
    var m := Magnitude(d);
    var width := if NumDigits(m) > d.scale then NumDigits(m) else d.scale + 1;
    assert AllDigitsOf(d) == Pad(m, width);
    Pow10Monotone(NumDigits(m), width);
    PadValue(m, width);
  }

  lemma DigitsSlice(s: string, i: nat, j: nat)
    requires AllDigits(s) && i <= j <= |s|
    ensures AllDigits(s[i..j])
  {
    assert forall k :: 0 <= k < j - i ==> s[i..j][k] == s[i + k];
  }

  lemma {:induction false} LeadingWhiteOf(w: string, rest: string)
    requires AllWhite(w) && rest != [] && !IsWhite(rest[0])
    ensures LeadingWhite(w + rest) == |w|
  {
    if w != [] {
      assert (w + rest)[1..] == w[1..] + rest;
      LeadingWhiteOf(w[1..], rest);
    }
  }

  lemma {:induction false} TrailingWhiteOf(rest: string, w: string)
    requires AllWhite(w) && rest != [] && !IsWhite(rest[|rest| - 1])
    ensures TrailingWhite(rest + w) == |w|
  {
    if w != [] {
      assert (rest + w)[..|rest + w| - 1] == rest + w[..|w| - 1];
      TrailingWhiteOf(rest, w[..|w| - 1]);
    }
  }

  lemma PointIndexOf(digits: string, rest: string)
    requires AllDigits(digits) && (rest == [] || rest[0] == '.')
    ensures PointIndex(digits + rest) == |digits|
  {
    var s := digits + rest;
    forall i | 0 <= i < |digits|
      ensures s[i] != '.'
    {
      assert s[i] == digits[i];
    }
    if rest != [] {
      assert s[|digits|] == '.';
    }
  }

  /** Trimming removes exactly the white space around a text that starts and ends with a non-white character. */
  lemma TrimAround(lead: string, core: string, trail: string)
    requires AllWhite(lead) && AllWhite(trail)
    requires core != [] && !IsWhite(core[0]) && !IsWhite(core[|core| - 1])
    ensures Trim(lead + core + trail) == core
  {
    var s := lead + core + trail;
    assert s == lead + (core + trail);
    LeadingWhiteOf(lead, core + trail);
    assert s[|lead|..] == core + trail;
    TrailingWhiteOf(core, trail);
    assert (core + trail)[..|core|] == core;
  }

  /**
   * The parts of a text the parser accepts: white space, an optional sign, whole digits, an
   * optional decimal point (`point` is "" or ".") and fraction digits, white space; with at
   * least one digit, and no fraction digits without a point.
   */
  predicate Numeral(lead: string, sign: string, whole: string, point: string, fraction: string, trail: string) {
    && AllWhite(lead) && AllWhite(trail)
    && (sign == "" || sign == "+" || sign == "-")
    && AllDigits(whole) && AllDigits(fraction) && |whole| + |fraction| > 0
    && (point == "." || (point == "" && fraction == []))
  }

  lemma ParseUnsignedNumeral(negative: bool, whole: string, point: string, fraction: string)
    requires AllDigits(whole) && AllDigits(fraction) && |whole| + |fraction| > 0
    requires point == "." || (point == "" && fraction == [])
    ensures ParseUnsigned(negative, whole + point + fraction) == Checked(Denoted(negative, whole, fraction))
  {
    var text := whole + point + fraction;
    assert text == whole + (point + fraction);
    PointIndexOf(whole, point + fraction);
    assert text[..|whole|] == whole;
    if point != "" {
      assert text[|whole| + 1..] == fraction;
    }
  }

  lemma ParseSignedNumeral(sign: string, whole: string, point: string, fraction: string)
    requires sign == "" || sign == "+" || sign == "-"
    requires AllDigits(whole) && AllDigits(fraction) && |whole| + |fraction| > 0
    requires point == "." || (point == "" && fraction == [])
    ensures ParseSigned(sign + whole + point + fraction) == Checked(Denoted(sign == "-", whole, fraction))
  {
    var text := whole + point + fraction;
    assert sign + whole + point + fraction == sign + text by {
      ConcatAssoc(sign, whole + point, fraction);
      ConcatAssoc(sign, whole, point);
    }
    assert text[0] == (if whole != [] then whole[0] else '.');
    SignStripped(sign, text);
    ParseUnsignedNumeral(sign == "-", whole, point, fraction);
  }

  /** A leading sign is taken off, and text that does not start with one is read unsigned. */
  lemma SignStripped(sign: string, text: string)
    requires sign == "" || sign == "+" || sign == "-"
    requires text != [] && text[0] != '-' && text[0] != '+'
    ensures ParseSigned(sign + text) == ParseUnsigned(sign == "-", text)
  {
    if sign == "" {
      assert sign + text == text;
    } else {
      assert (sign + text)[0] == sign[0] && (sign + text)[1..] == text;
    }
  }

  /** Every numeral parses to the decimal its digits denote, or fails when that is out of range. */
  lemma ParseNumeral(lead: string, sign: string, whole: string, point: string, fraction: string, trail: string)
    requires Numeral(lead, sign, whole, point, fraction, trail)
    ensures ParseDecimal(lead + sign + whole + point + fraction + trail) == Checked(Denoted(sign == "-", whole, fraction))
  {
    var core := sign + whole + point + fraction;
    assert lead + sign + whole + point + fraction + trail == lead + core + trail;
    assert core[0] == (if sign != "" then sign[0] else if whole != [] then whole[0] else '.');
    assert core[|core| - 1] == (if fraction != [] then fraction[|fraction| - 1] else if point != "" then '.' else whole[|whole| - 1]);
    TrimAround(lead, core, trail);
    ParseSignedNumeral(sign, whole, point, fraction);
  }

  lemma ConcatAssoc(a: string, b: string, c: string)
    ensures a + (b + c) == a + b + c
  {
  }

  /** The whole and fraction digits of an accepted unsigned text, and its point. */
  lemma UnsignedParts(negative: bool, text: string) returns (whole: string, point: string, fraction: string)
    requires ParseUnsigned(negative, text).Some?
    ensures AllDigits(whole) && AllDigits(fraction) && |whole| + |fraction| > 0
    ensures point == "." || (point == "" && fraction == [])
    ensures text == whole + point + fraction
    ensures ParseUnsigned(negative, text) == Some(Denoted(negative, whole, fraction))
  {
    var k := PointIndex(text);
    whole := text[..k];
    if k < |text| {
      point, fraction := ".", text[k + 1..];
      assert text == whole + [text[k]] + fraction;
    } else {
      point, fraction := "", "";
      assert text == whole;
    }
  }

  /** The sign of an accepted text without its white space, and what follows it. */
  lemma SignedParts(core: string) returns (sign: string, text: string)
    requires ParseSigned(core).Some?
    ensures sign == "" || sign == "+" || sign == "-"
    ensures core == sign + text
    ensures ParseSigned(core) == ParseUnsigned(sign == "-", text)
  {
    if |core| > 0 && (core[0] == '-' || core[0] == '+') {
      sign, text := if core[0] == '-' then "-" else "+", core[1..];
      assert core == [core[0]] + text;
    } else {
      sign, text := "", core;
    }
  }

  /** The white space around an accepted text, and the text between. */
  lemma TrimParts(s: string) returns (lead: string, core: string, trail: string)
    ensures AllWhite(lead) && AllWhite(trail)
    ensures s == lead + core + trail && core == Trim(s)
  {
    var rest;
    lead, rest := LeadParts(s);
    core, trail := TrailParts(rest);
    ConcatAssoc(lead, core, trail);
  }

  /** The leading white space of a text, and the rest. */
  lemma LeadParts(s: string) returns (lead: string, rest: string)
    ensures AllWhite(lead) && s == lead + rest && rest == s[LeadingWhite(s)..]
  {
    var a := LeadingWhite(s);
    lead, rest := s[..a], s[a..];
    WhitePrefix(s, a);
    SplitAt(s, a);
  }

  /** The trailing white space of a text, and what comes before it. */
  lemma TrailParts(t: string) returns (core: string, trail: string)
    ensures AllWhite(trail) && t == core + trail && core == t[..|t| - TrailingWhite(t)]
  {
    var k := |t| - TrailingWhite(t);
    core, trail := t[..k], t[k..];
    WhiteSuffix(t, k);
    SplitAt(t, k);
  }

  lemma WhitePrefix(s: string, k: nat)
    requires k <= |s| && forall i :: 0 <= i < k ==> IsWhite(s[i])
    ensures AllWhite(s[..k])
  {
    assert forall i :: 0 <= i < k ==> s[..k][i] == s[i];
  }

  lemma WhiteSuffix(s: string, k: nat)
    requires k <= |s| && forall i :: k <= i < |s| ==> IsWhite(s[i])
    ensures AllWhite(s[k..])
  {
    assert forall i :: 0 <= i < |s| - k ==> s[k..][i] == s[k + i];
  }

  lemma SplitAt(s: string, k: nat)
    requires k <= |s|
    ensures s == s[..k] + s[k..]
  {
  }

  /**
   * Every text the parser accepts is a numeral, and its value is the decimal its digits
   * denote; so "-", "", "1 2", "+-1", "1.2.3" and "n/a" are all rejected.
   */
  lemma ParseDecimalForm(s: string, d: Decimal)
    requires ParseDecimal(s) == Some(d)
    ensures exists lead, sign, whole, point, fraction, trail ::
      && Numeral(lead, sign, whole, point, fraction, trail)
      && s == lead + sign + whole + point + fraction + trail
      && d == Denoted(sign == "-", whole, fraction)
  {
    var lead, core, trail := TrimParts(s);
    var sign, text := SignedParts(core);
    var whole, point, fraction := UnsignedParts(sign == "-", text);
    assert ParseDecimal(s) == ParseUnsigned(sign == "-", text);
    assert d == Denoted(sign == "-", whole, fraction);
    assert core == sign + whole + point + fraction by {
      ConcatAssoc(sign, whole + point, fraction);
      ConcatAssoc(sign, whole, point);
    }
    assert s == lead + sign + whole + point + fraction + trail by {
      ConcatAssoc(lead, sign + whole + point, fraction);
      ConcatAssoc(lead, sign + whole, point);
      ConcatAssoc(lead, sign, whole);
    }
    assert Numeral(lead, sign, whole, point, fraction, trail);
  }

  /** The accepted texts are exactly the numerals whose value is in range. */
  lemma ParseDecimalExactly(s: string, d: Decimal)
    ensures ParseDecimal(s) == Some(d) <==>
      exists lead, sign, whole, point, fraction, trail ::
        && Numeral(lead, sign, whole, point, fraction, trail)
        && s == lead + sign + whole + point + fraction + trail
        && d == Denoted(sign == "-", whole, fraction)
        && InRange(d)
  {
    if ParseDecimal(s) == Some(d) {
      ParseDecimalForm(s, d);
      var lead, sign, whole, point, fraction, trail :|
        && Numeral(lead, sign, whole, point, fraction, trail)
        && s == lead + sign + whole + point + fraction + trail
        && d == Denoted(sign == "-", whole, fraction);
      assert InRange(d);
    }
    if exists lead, sign, whole, point, fraction, trail ::
        && Numeral(lead, sign, whole, point, fraction, trail)
        && s == lead + sign + whole + point + fraction + trail
        && d == Denoted(sign == "-", whole, fraction)
        && InRange(d)
    {
      var lead, sign, whole, point, fraction, trail :|
        && Numeral(lead, sign, whole, point, fraction, trail)
        && s == lead + sign + whole + point + fraction + trail
        && d == Denoted(sign == "-", whole, fraction)
        && InRange(d);
      ParseNumeral(lead, sign, whole, point, fraction, trail);
    }
  }

  /**
   * A sign, whole digits and fraction digits, with at least one digit in all and any white
   * space around them, parse to the decimal they denote, or fail when it is out of range.
   */
  lemma ParseRender(lead: string, sign: string, whole: string, fraction: string, trail: string)
    requires AllWhite(lead) && AllWhite(trail)
    requires sign == "" || sign == "+" || sign == "-"
    requires AllDigits(whole) && AllDigits(fraction) && |whole| + |fraction| > 0
    ensures ParseDecimal(lead + Render(sign, whole, fraction) + trail) == Checked(Denoted(sign == "-", whole, fraction))
  {
    var point := if fraction == [] then "" else ".";
    assert lead + Render(sign, whole, fraction) + trail == lead + sign + whole + point + fraction + trail;
    ParseNumeral(lead, sign, whole, point, fraction, trail);
  }

  /**
   * Every in-range value, written plainly with any white space around it, parses back to
   * itself, scale included: "0.0" gives zero with one decimal place, not a missing value.
   */
  lemma ParseFormatDecimal(d: Decimal, lead: string, trail: string)
    requires InRange(d) && AllWhite(lead) && AllWhite(trail)
    ensures ParseDecimal(lead + FormatDecimal(d) + trail) == Some(d)
  {
    FormatDenotes(d);
    ParseRender(lead, if d.mantissa < 0 then "-" else "", WholeDigits(d), FractionDigits(d), trail);
  }

  /** The single dash the feed sends for a missing reading is not a number. */
  lemma ParseDashFails()
    ensures ParseDecimal("-") == None
  {
  }

  /** "0.0" is the value zero kept at one decimal place: a measured trace, not a missing reading. */
  lemma ParseZeroTrace()
    ensures ParseDecimal("0.0") == Some(Decimal(0, 1))
  {
    ParseRender("", "", "0", "0", "");
    assert "" + Render("", "0", "0") + "" == "0.0";
    assert Value("0" + "0") == 0 by {
      assert ("0" + "0")[..1] == "0";
    }
  }

  /** The whole part may be empty: ".5" is five tenths. */
  lemma ParseBareFraction()
    ensures ParseDecimal(".5") == Some(Decimal(5, 1))
  {
    ParseNumeral("", "", "", ".", "5", "");
    assert "" + "" + "" + "." + "5" + "" == ".5";
    assert Value("" + "5") == 5 by {
      assert ("" + "5")[..0] == "";
    }
  }

  /** The fraction part may be empty after the point: "5." is five. */
  lemma ParseBareWhole()
    ensures ParseDecimal("5.") == Some(Decimal(5, 0))
  {
    ParseNumeral("", "", "5", ".", "", "");
    assert "" + "" + "5" + "." + "" + "" == "5.";
    assert Value("5" + "") == 5 by {
      assert ("5" + "")[..0] == "";
    }
  }

  /** "1.2" is read exactly, as twelve tenths. */
  lemma ParseOnePointTwo()
    ensures ParseDecimal("1.2") == Some(Decimal(12, 1))
  {
    ParseRender("", "", "1", "2", "");
    assert "" + Render("", "1", "2") + "" == "1.2";
    assert Value("1" + "2") == 12 by {
      assert ("1" + "2")[..1] == "1";
    }
  }

}
