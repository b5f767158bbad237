/**
 * Coordinates as the text JavaScript prints for a finite number, and the two
 * string-to-number conversions the decoders use. A coordinate is identified
 * by its printed text, so no floating-point arithmetic is needed; NaN is `None`.
 * A numeral is read as itself. That is exact for the canonical text of a
 * finite number, which is what printing a coordinate produces.
 */
module Numbers {
  import opened Wrappers

  predicate IsDigit(c: char) {
    '0' <= c <= '9'
  }

  /**
   * Where a left-to-right scan of `-?D+(.D+)?(e[+-]D+)?` stands: before the
   * sign, after it, in the integer digits, after the point, in the fraction,
   * after the `e`, after the exponent's sign, in the exponent's digits.
   */
  datatype Phase = Start | Signed | Integer | Point | Fraction | Exponent | ExponentSigned | ExponentDigits

  /** One step of the scan; `None` rejects the character. */
  function Next(p: Phase, c: char): Option<Phase> {
    match p
    case Start => if c == '-' then Some(Signed) else if IsDigit(c) then Some(Integer) else None
    case Signed => if IsDigit(c) then Some(Integer) else None
    case Integer => if IsDigit(c) then Some(Integer) else if c == '.' then Some(Point) else if c == 'e' then Some(Exponent) else None
    case Point => if IsDigit(c) then Some(Fraction) else None
    case Fraction => if IsDigit(c) then Some(Fraction) else if c == 'e' then Some(Exponent) else None
    case Exponent => if c == '+' || c == '-' then Some(ExponentSigned) else None
    case ExponentSigned => if IsDigit(c) then Some(ExponentDigits) else None
    case ExponentDigits => if IsDigit(c) then Some(ExponentDigits) else None
  }

  /** The phases at which a numeral may end: after a digit of the integer, fraction or exponent. */
  predicate IsFinal(p: Phase) {
    p == Integer || p == Fraction || p == ExponentDigits
  }

  /** The scan from phase `p` consumes all of `s` and ends in a final phase. */
  predicate Scans(p: Phase, s: string)
    decreases |s|
  {
    if |s| == 0 then IsFinal(p)
    else match Next(p, s[0])
      case None => false
      case Some(q) => Scans(q, s[1..])
  }

  /** The shapes `Number.prototype.toString` produces for finite numbers, such as `12`, `-1.25` and `1.5e-7`. */
  predicate IsNumeral(t: string) {
    Scans(Start, t)
  }

  /** A printed finite coordinate, such as `36.8219` or `-1.2921`. */
  type Token = t: string | IsNumeral(t) witness "0"

  predicate IsNumeralChar(c: char) {
    IsDigit(c) || c == '-' || c == '+' || c == '.' || c == 'e'
  }

  /** `Number(x)`: the empty string reads as 0, `undefined` and non-numerals as NaN. */
  function JsNumber(x: Option<string>): Option<Token> {
    match x
    case None => None
    case Some(t) =>
      if t == "" then Some("0")
      else if IsNumeral(t) then Some(t)
      else None
  }

  /** `parseFloat(x)`: `undefined`, the empty string and non-numerals read as NaN. */
  function ParseFloat(x: Option<string>): Option<Token> {
    match x
    case None => None
    case Some(t) => if IsNumeral(t) then Some(t) else None
  }

  /** Every character a scan accepts is a digit, a sign, the point or the `e`. */
  lemma {:induction false} ScannedChars(p: Phase, s: string)
    requires Scans(p, s)
    ensures forall i :: 0 <= i < |s| ==> IsNumeralChar(s[i])
    decreases |s|
  {
    if |s| > 0 {
      var q := Next(p, s[0]).value;
      ScannedChars(q, s[1..]);
      forall i | 1 <= i < |s| ensures IsNumeralChar(s[i]) {
        assert s[i] == s[1..][i - 1];
      }
    }
  }

  /** A numeral is non-empty and holds none of the codec's delimiters. */
  lemma NumeralClean(t: string)
    requires IsNumeral(t)
    ensures |t| > 0
    ensures ' ' !in t && ',' !in t && '(' !in t && ')' !in t
  {
    ScannedChars(Start, t);
  }

  lemma TokenClean(t: Token)
    ensures |t| > 0
    ensures ' ' !in t && ',' !in t && '(' !in t && ')' !in t
  {
    NumeralClean(t);
  }

  /** Text holding a parenthesis is not a numeral, so both conversions read it as NaN. */
  lemma ParenIsNaN(t: string)
    requires '(' in t
    ensures !IsNumeral(t)
    ensures JsNumber(Some(t)) == None && ParseFloat(Some(t)) == None
  {
    if IsNumeral(t) {
      NumeralClean(t);
    }
  }

  /** A token reads back as itself under both conversions. */
  lemma TokenReadsBack(t: Token)
    ensures JsNumber(Some(t)) == Some(t)
    ensures ParseFloat(Some(t)) == Some(t)
  {
    TokenClean(t);
  }
}
