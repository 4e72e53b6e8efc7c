/** The two JavaScript number operations the pipeline applies to prices:
    Math.round and parseFloat, over exact rationals instead of doubles. */
module JsNumber {
  import opened Wrappers
  import opened Text

  /** Math.round: the nearest integer, halves rounded toward +infinity. */
  function Round(x: real): (r: int)
    ensures x - 0.5 < r as real <= x + 0.5
  {
    (x + 0.5).Floor
  }

  function Pow10(n: nat): (p: nat)
    ensures p >= 1
  {
    if n == 0 then 1 else 10 * Pow10(n - 1)
  }

  /** 10 raised to an integer exponent. */
  function Scale(e: int): real {
    if e >= 0 then Pow10(e) as real else 1.0 / Pow10(-e) as real
  }

  /** Length of the run of decimal digits that starts `s`. */
  function DigitRun(s: string): (n: nat)
    ensures n <= |s|
    ensures forall i :: 0 <= i < n ==> IsDigit(s[i])
    ensures n < |s| ==> !IsDigit(s[n])
  {
    if |s| > 0 && IsDigit(s[0]) then 1 + DigitRun(s[1..]) else 0
  }

  predicate AllDigits(d: string) {
    forall i :: 0 <= i < |d| ==> IsDigit(d[i])
  }

  /** The value of a string of decimal digits. */
  function DigitsValue(d: string): nat
    requires AllDigits(d)
  {
    if d == [] then 0 else 10 * DigitsValue(d[..|d| - 1]) + (d[|d| - 1] as int - '0' as int)
  }

  /** The value of the digits after a decimal point. */
  function FractionValue(d: string): real
    requires AllDigits(d)
  {
    DigitsValue(d) as real / Pow10(|d|) as real
  }

  /** An optional `+` or `-` at the start of `s`: whether it was a minus, and what follows. */
  function SplitSign(s: string): (bool, string) {
    if |s| > 0 && s[0] == '-' then (true, s[1..])
    else if |s| > 0 && s[0] == '+' then (false, s[1..])
    else (false, s)
  }

  /** The longest prefix of `u` of the form `digits [. digits]` or `. digits`, with its
      value and the text after it; None when `u` starts with neither. */
  function ParseMantissa(u: string): Option<(real, string)> {
    var ni := DigitRun(u);
    var rest := u[ni..];
    if |rest| > 0 && rest[0] == '.' then
      var f := rest[1..];
      var nf := DigitRun(f);
      if ni == 0 && nf == 0 then None
      else Some((DigitsValue(u[..ni]) as real + FractionValue(f[..nf]), f[nf..]))
    else if ni == 0 then None
    else Some((DigitsValue(u[..ni]) as real, rest))
  }

  /** The exponent `e[+-]digits` at the start of `rest`, or 0 when there is none. */
  function ExponentOf(rest: string): int {
    if |rest| > 0 && (rest[0] == 'e' || rest[0] == 'E') then
      var (neg, u) := SplitSign(rest[1..]);
      var n := DigitRun(u);
      if n == 0 then 0
      else if neg then -(DigitsValue(u[..n]) as int)
      else DigitsValue(u[..n])
    else 0
  }

  /** parseFloat: skips leading white space and reads the longest decimal literal
      prefix; None stands for NaN (no digits where the literal should start). */
  function ParseFloat(s: string): Option<real> {
    ParseSigned(TrimStart(s))
  }

  /** A decimal literal with an optional sign, read as a prefix of `t`. */
  function ParseSigned(t: string): Option<real> {
    var signed := SplitSign(t);
    var v := ParseUnsigned(signed.1);
    if v.None? then None
    else if signed.0 then Some(-v.value)
    else v
  }

  /** An unsigned decimal literal (mantissa and optional exponent), read as a prefix of `u`. */
  function ParseUnsigned(u: string): Option<real> {
    var mantissa := ParseMantissa(u);
    if mantissa.None? then None
    else Some(mantissa.value.0 * Scale(ExponentOf(mantissa.value.1)))
  }

  /** A character that cannot continue a decimal literal. */
  predicate EndsLiteral(c: char) {
    !IsDigit(c) && c != '.' && c != 'e' && c != 'E'
  }

  /** Text that cannot continue a decimal literal written before it. */
  predicate Terminates(rest: string) {
    rest == [] || EndsLiteral(rest[0])
  }

  /** `whole.frac rest`: a non-empty run of digits, a point, digits, and text that cannot
      continue the literal. */
  predicate DecimalPieces(whole: string, frac: string, rest: string) {
    |whole| > 0 && AllDigits(whole) && AllDigits(frac) && Terminates(rest)
  }

  lemma {:induction false} DigitRunOfDigits(d: string, rest: string)
    requires AllDigits(d)
    requires rest == [] || !IsDigit(rest[0])
    ensures DigitRun(d + rest) == |d|
    decreases |d|
  {
    if d != [] {
      assert (d + rest)[1..] == d[1..] + rest;
      DigitRunOfDigits(d[1..], rest);
    }
  }

  /** Text that cannot continue a literal carries no exponent. */
  lemma NoExponent(rest: string)
    requires Terminates(rest)
    ensures ExponentOf(rest) == 0 && Scale(ExponentOf(rest)) == 1.0
  {
  }

  /** Text that starts with a digit parses with no white space or sign to skip. */
  lemma ParseFloatUnsigned(s: string)
    requires |s| > 0 && IsDigit(s[0])
    ensures ParseFloat(s) == ParseUnsigned(s)
  {
    assert TrimStart(s) == s && SplitSign(s) == (false, s);
  }

  /** Text whose first character can start neither white space, a sign nor a literal
      (the "N/A" case) reads as NaN. */
  lemma ParseFloatNaN(s: string)
    requires |s| > 0 && !IsWhiteSpace(s[0]) && EndsLiteral(s[0]) && s[0] != '-' && s[0] != '+'
    ensures ParseFloat(s) == None
  {
    assert TrimStart(s) == s && SplitSign(s) == (false, s) && DigitRun(s) == 0;
  }

  lemma MantissaOfDigits(d: string, rest: string)
    requires |d| > 0 && AllDigits(d) && Terminates(rest)
    ensures ParseMantissa(d + rest) == Some((DigitsValue(d) as real, rest))
  {
    DigitRunOfDigits(d, rest);
    assert (d + rest)[..|d|] == d && (d + rest)[|d|..] == rest;
  }

  lemma UnsignedDigits(d: string, rest: string)
    requires |d| > 0 && AllDigits(d) && Terminates(rest)
    ensures ParseUnsigned(d + rest) == Some(DigitsValue(d) as real)
  {
    MantissaOfDigits(d, rest);
    NoExponent(rest);
  }

  /** A run of digits followed by text that cannot continue a number (the "450abc"
      case) reads as the value of the digits. */
  lemma ParseFloatDigits(d: string, rest: string)
    requires |d| > 0 && AllDigits(d) && Terminates(rest)
    ensures ParseFloat(d + rest) == Some(DigitsValue(d) as real)
  {
    assert IsDigit((d + rest)[0]);
    ParseFloatUnsigned(d + rest);
    UnsignedDigits(d, rest);
  }

  /** The digit runs of `whole.frac rest`. */
  lemma DecimalRuns(whole: string, frac: string, rest: string) returns (tail: string, f: string)
    requires DecimalPieces(whole, frac, rest)
    ensures tail == "." + frac + rest && f == frac + rest
    ensures whole + "." + frac + rest == whole + tail
    ensures DigitRun(whole + tail) == |whole| && (whole + tail)[..|whole|] == whole && (whole + tail)[|whole|..] == tail
    ensures tail[1..] == f && DigitRun(f) == |frac| && f[..|frac|] == frac && f[|frac|..] == rest
  {
    tail := "." + frac + rest;
    f := frac + rest;
    DigitRunOfDigits(whole, tail);
    assert (whole + tail)[..|whole|] == whole && (whole + tail)[|whole|..] == tail;
    DigitRunOfDigits(frac, rest);
    assert f[..|frac|] == frac && f[|frac|..] == rest;
  }

  /** ParseMantissa on a literal whose pieces are already located. */
  lemma MantissaOfPieces(u: string, whole: string, tail: string, frac: string, rest: string)
    requires AllDigits(whole) && AllDigits(frac) && |whole| > 0
    requires DigitRun(u) == |whole| && u[..|whole|] == whole && u[|whole|..] == tail
    requires |tail| > 0 && tail[0] == '.'
    requires DigitRun(tail[1..]) == |frac| && tail[1..][..|frac|] == frac && tail[1..][|frac|..] == rest
    ensures ParseMantissa(u) == Some((DigitsValue(whole) as real + FractionValue(frac), rest))
  {
    var f := tail[1..];
    assert u[DigitRun(u)..] == tail && u[..DigitRun(u)] == whole;
    assert f[..DigitRun(f)] == frac && f[DigitRun(f)..] == rest;
  }

  lemma MantissaOfDecimal(whole: string, frac: string, rest: string)
    requires DecimalPieces(whole, frac, rest)
    ensures ParseMantissa(whole + "." + frac + rest) == Some((DigitsValue(whole) as real + FractionValue(frac), rest))
  {
    var tail, f := DecimalRuns(whole, frac, rest);
    MantissaOfPieces(whole + tail, whole, tail, frac, rest);
  }

  lemma UnsignedDecimal(whole: string, frac: string, rest: string)
    requires DecimalPieces(whole, frac, rest)
    ensures ParseUnsigned(whole + "." + frac + rest) == Some(DigitsValue(whole) as real + FractionValue(frac))
  {
    MantissaOfDecimal(whole, frac, rest);
    NoExponent(rest);
  }

  /** `int.frac` followed by text that cannot continue a number reads as
      int + frac / 10^|frac| (see FractionValue). */
  lemma ParseFloatDecimal(whole: string, frac: string, rest: string)
    requires DecimalPieces(whole, frac, rest)
    ensures ParseFloat(whole + "." + frac + rest) == Some(DigitsValue(whole) as real + FractionValue(frac))
  {
    assert IsDigit((whole + "." + frac + rest)[0]);
    ParseFloatUnsigned(whole + "." + frac + rest);
    UnsignedDecimal(whole, frac, rest);
  }
}
