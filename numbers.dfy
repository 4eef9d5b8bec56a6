/**
 * Exact models of the two pieces of Python number handling the core depends on:
 * `float(text)` on decimal text, and the round-half-to-even of the `:.0f` format.
 */
module Numbers {
  import opened Wrappers
  import opened Text

  function DigitValue(c: char): nat
    requires IsDigit(c)
  {
    c as int - '0' as int
  }

  /** The natural number a string of decimal digits denotes (0 for the empty string). */
  function DigitsValue(s: string): nat
    requires AllDigits(s)
  {
    if |s| == 0 then 0 else 10 * DigitsValue(s[..|s| - 1]) + DigitValue(s[|s| - 1])
  }

  function Pow10(n: nat): (p: nat)
    ensures p >= 1
  {
    if n == 0 then 1 else 10 * Pow10(n - 1)
  }

  /** `digits`, `digits.`, `.digits` or `digits.digits`, with at least one digit. */
  function ParseMantissa(m: string): Option<real> {
    var i := IndexOf(m, '.');
    var whole := m[..i];
    var frac := if i < |m| then m[i + 1..] else "";
    if AllDigits(whole) && AllDigits(frac) && |whole| + |frac| > 0 then
      Some(DecimalValue(whole, frac))
    else
      None
  }

  /** The value of the digits `whole` followed by a point and the digits `frac`. */
  function DecimalValue(whole: string, frac: string): real
    requires AllDigits(whole) && AllDigits(frac)
  {
    DigitsValue(whole) as real + DigitsValue(frac) as real / Pow10(|frac|) as real
  }

  /** Splits off a leading `+` or `-`; the flag says whether it was `-`. */
  function SplitSign(t: string): (bool, string) {
    if |t| > 0 && (t[0] == '+' || t[0] == '-') then (t[0] == '-', t[1..]) else (false, t)
  }

  function ParseExponent(e: string): Option<int> {
    var (negative, digits) := SplitSign(e);
    if IsDigitString(digits) then
      Some(if negative then -(DigitsValue(digits) as int) else DigitsValue(digits))
    else
      None
  }

  function Scale(x: real, e: int): real {
    if e >= 0 then x * Pow10(e) as real else x / Pow10(-e) as real
  }

  function IndexOfExponent(s: string): (i: nat)
    ensures i <= |s|
    ensures forall j :: 0 <= j < i ==> s[j] != 'e' && s[j] != 'E'
    ensures i < |s| ==> s[i] == 'e' || s[i] == 'E'
  {
    if |s| == 0 then 0
    else if s[0] == 'e' || s[0] == 'E' then 0
    else 1 + IndexOfExponent(s[1..])
  }

  /** An unsigned decimal number, with an optional exponent after `e` or `E`. */
  function ParseUnsigned(body: string): Option<real> {
    var k := IndexOfExponent(body);
    var mantissa := ParseMantissa(body[..k]);
    var exponent := if k < |body| then ParseExponent(body[k + 1..]) else Some(0);
    if mantissa.Some? && exponent.Some? then Some(Scale(mantissa.value, exponent.value)) else None
  }

  /**
   * Python's `float(s)` on decimal text: surrounding whitespace, an optional sign, a mantissa
   * with an optional decimal point and an optional exponent. `None` is the `ValueError`.
   */
  function ParseFloat(s: string): Option<real> {
    ParseStripped(Strip(s))
  }

  /** What `float()` reads once the surrounding whitespace is gone: an optional sign, then an unsigned number. */
  function ParseStripped(t: string): Option<real> {
    var signed := SplitSign(t);
    match ParseUnsigned(signed.1)
    case None => None
    case Some(x) => Some(if signed.0 then -x else x)
  }

  /** The integer nearest to `x`, ties going to the even one, as `format(x, ".0f")` does. */
  function RoundHalfEven(x: real): (n: int)
    ensures x - 0.5 <= n as real <= x + 0.5
    ensures (n as real == x - 0.5 || n as real == x + 0.5) ==> n % 2 == 0
  {
    var f := x.Floor;
    var d := x - f as real;
    if d < 0.5 then f
    else if d > 0.5 then f + 1
    else if f % 2 == 0 then f
    else f + 1
  }

  /** The rounding is determined by its contract: any other integer breaks it. */
  lemma RoundHalfEvenUnique(x: real, m: int)
    requires x - 0.5 <= m as real <= x + 0.5
    requires (m as real == x - 0.5 || m as real == x + 0.5) ==> m % 2 == 0
    ensures m == RoundHalfEven(x)
  {
  }

  /** A point between two digit strings is read as a decimal fraction. */
  lemma MantissaParts(whole: string, frac: string)
    requires AllDigits(whole) && AllDigits(frac) && |whole| + |frac| > 0
    ensures ParseMantissa(whole + "." + frac) == Some(DecimalValue(whole, frac))
  {
    var m := whole + "." + frac;
    assert m[..|whole|] == whole;
    IndexOfFirst(m, '.', |whole|);
    assert m[|whole| + 1..] == frac;
  }

  lemma ScaleZero(x: real)
    ensures Scale(x, 0) == x
  {
    assert Pow10(0) == 1;
  }

  /** Without an exponent the body is read as a plain mantissa. */
  lemma UnsignedPlain(body: string)
    requires IndexOfExponent(body) == |body|
    ensures ParseUnsigned(body) == ParseMantissa(body)
  {
    assert body[..|body|] == body;
    var mantissa := ParseMantissa(body);
    if mantissa.Some? {
      ScaleZero(mantissa.value);
    }
  }

  /** Text with no surrounding space, sign or exponent is read as a plain mantissa. */
  lemma ParseFloatPlain(s: string)
    requires Strip(s) == s && SplitSign(s) == (false, s) && IndexOfExponent(s) == |s|
    ensures ParseFloat(s) == ParseMantissa(s)
  {
    UnsignedPlain(s);
  }

  /**
   * `float()` reads text made of digits with one point at `i`, and at least one digit, as
   * that decimal fraction.
   */
  lemma ParseFloatDecimal(s: string, i: nat)
    requires i < |s| && s[i] == '.' && AllDigits(s[..i]) && AllDigits(s[i + 1..]) && |s| > 1
    ensures ParseFloat(s) == Some(DecimalValue(s[..i], s[i + 1..]))
  {
    assert forall j :: 0 <= j < |s| && j != i ==> IsDigit(s[j]) by {
      forall j | 0 <= j < |s| && j != i ensures IsDigit(s[j]) {
        if j < i { assert s[j] == s[..i][j]; } else { assert s[j] == s[i + 1..][j - i - 1]; }
      }
    }
    StripTrimmed(s);
    assert IndexOfExponent(s) == |s|;
    ParseFloatPlain(s);
    IndexOfFirst(s, '.', i);
  }

  /** Whitespace around the text does not change what `float()` reads. */
  lemma ParseFloatStrips(left: string, core: string, right: string)
    requires AllSpaces(left) && AllSpaces(right)
    requires core != [] && !IsSpace(core[0]) && !IsSpace(core[|core| - 1])
    ensures ParseFloat(left + core + right) == ParseFloat(core)
  {
    assert Strip(left + core + right) == Strip(core) by {
      StripAround(left, core, right);
      StripTrimmed(core);
    }
  }

  /** A leading `-` negates the number that follows, a leading `+` keeps it. */
  lemma ParseFloatSigned(s: string)
    requires s != [] && (s[0] == '-' || s[0] == '+') && !IsSpace(s[|s| - 1])
    ensures ParseFloat(s)
         == if ParseUnsigned(s[1..]).None? then None
            else Some(if s[0] == '-' then -ParseUnsigned(s[1..]).value else ParseUnsigned(s[1..]).value)
  {
    StripTrimmed(s);
  }

  predicate NoDigit(s: string) {
    forall j :: 0 <= j < |s| ==> !IsDigit(s[j])
  }

  /** `float()` refuses text without a single digit, such as "abc", "" or ".". */
  lemma ParseFloatRejects(s: string)
    requires NoDigit(s)
    ensures ParseFloat(s) == None
  {
    var l := StripLeft(s);
    assert NoDigit(l) by { NoDigitSlice(s, |s| - |l|, |s|); }
    var t := StripRight(l);
    assert NoDigit(t) by { NoDigitSlice(l, 0, |t|); }
    var body := SplitSign(t).1;
    assert NoDigit(body) by {
      if body != t { NoDigitSlice(t, 1, |t|); }
    }
    var k := IndexOfExponent(body);
    assert NoDigit(body[..k]) by { NoDigitSlice(body, 0, k); }
    MantissaNeedsDigit(body[..k]);
  }

  lemma NoDigitSlice(s: string, i: nat, j: nat)
    requires NoDigit(s) && i <= j <= |s|
    ensures NoDigit(s[i..j])
  {
    assert forall k :: 0 <= k < j - i ==> s[i..j][k] == s[i + k];
  }

  /** A mantissa holds at least one digit. */
  lemma MantissaNeedsDigit(m: string)
    requires NoDigit(m)
    ensures ParseMantissa(m) == None
  {
    var i := IndexOf(m, '.');
    var whole := m[..i];
    var frac := if i < |m| then m[i + 1..] else "";
    if |whole| > 0 {
      assert whole[0] == m[0];
    } else if |frac| > 0 {
      assert frac[0] == m[i + 1];
    }
  }
}
