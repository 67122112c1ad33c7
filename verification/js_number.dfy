/**
 * JavaScript numbers as far as the library uses them: the global `Number(text)`
 * conversion, `Number.prototype.toString()` and the `>` comparison against the clock.
 * Only integral values, NaN and the two infinities are represented.
 */
module JsNumber {
  import opened JsText

  datatype Number = Int(value: int) | NaN | Infinity | NegInfinity

  predicate IsDigit(c: char) {
    '0' <= c <= '9'
  }

  predicate AllDigits(s: string) {
    forall i :: 0 <= i < |s| ==> IsDigit(s[i])
  }

  function DigitChar(d: nat): char
    requires d < 10
  {
    (48 + d) as char
  }

  function DigitValue(c: char): nat
    requires IsDigit(c)
  {
    c as int - 48
  }

  /** Decimal notation of a natural number, most significant digit first, no leading zeros. */
  function NatToString(n: nat): string
    decreases n
  {
    if n < 10 then [DigitChar(n)] else NatToString(n / 10) + [DigitChar(n % 10)]
  }

  /** The value of a string of decimal digits. */
  function DigitsValue(s: string): nat
    requires AllDigits(s)
    decreases |s|
  {
    if |s| == 0 then 0 else DigitsValue(s[..|s| - 1]) * 10 + DigitValue(s[|s| - 1])
  }

  /** Printing a natural number and reading the digits back gives the number. */
  lemma {:induction false} NatToStringRoundTrip(n: nat)
    ensures |NatToString(n)| >= 1 && AllDigits(NatToString(n))
    ensures DigitsValue(NatToString(n)) == n
    decreases n
  {
    if n >= 10 {
      NatToStringRoundTrip(n / 10);
      var s := NatToString(n);
      assert s[..|s| - 1] == NatToString(n / 10);
    }
  }

  /** `Number.prototype.toString()` for the represented values. */
  function ToString(x: Number): string {
    match x
    case Int(i) => if i < 0 then "-" + NatToString(-i) else NatToString(i)
    case NaN => "NaN"
    case Infinity => "Infinity"
    case NegInfinity => "-Infinity"
  }

  /** A signed decimal integer literal after trimming: optional sign, at least one digit. */
  function ParseSignedDigits(t: string): Number {
    if |t| > 1 && t[0] == '+' && AllDigits(t[1..]) then Int(DigitsValue(t[1..]))
    else if |t| > 1 && t[0] == '-' && AllDigits(t[1..]) then Int(0 - DigitsValue(t[1..]))
    else if |t| > 0 && AllDigits(t) then Int(DigitsValue(t))
    else NaN
  }

  /**
   * The global `Number(text)`: white space around the literal is ignored, the empty
   * string is zero, and text that is not a numeric literal is NaN.
   */
  function FromString(s: string): Number {
    var t := Trim(s);
    if |t| == 0 then Int(0)
    else if t == "Infinity" || t == "+Infinity" then Infinity
    else if t == "-Infinity" then NegInfinity
    else ParseSignedDigits(t)
  }

  /** `created > Date.now()`: every comparison with NaN is false. */
  predicate GreaterThan(x: Number, now: int) {
    match x
    case Int(i) => i > now
    case NaN => false
    case Infinity => true
    case NegInfinity => false
  }

  lemma DigitsAreTrimmed(s: string)
    requires |s| >= 1 && AllDigits(s)
    ensures Trimmed(s)
  {
  }

  lemma {:induction false} NonNegativeRoundTrip(n: nat)
    ensures FromString(NatToString(n)) == Int(n)
  {
    NatToStringRoundTrip(n);
    var d := NatToString(n);
    DigitsAreTrimmed(d);
    TrimFixesTrimmed(d);
    assert IsDigit(d[0]);
    assert d != "Infinity" && d != "+Infinity" && d != "-Infinity";
    assert ParseSignedDigits(d) == Int(n);
  }

  lemma {:induction false} NegativeRoundTrip(n: nat)
    requires n > 0
    ensures FromString("-" + NatToString(n)) == Int(0 - n)
  {
    NatToStringRoundTrip(n);
    var d := NatToString(n);
    var s := "-" + d;
    assert s[1..] == d;
    assert s[0] == '-' && IsDigit(s[1]) && IsDigit(s[|s| - 1]);
    assert Trimmed(s);
    TrimFixesTrimmed(s);
    assert s != "Infinity" && s != "+Infinity" && s != "-Infinity";
    assert ParseSignedDigits(s) == Int(0 - n);
  }

  lemma IntRoundTrip(i: int)
    ensures FromString(ToString(Int(i))) == Int(i)
  {
    if i < 0 {
      NegativeRoundTrip(-i);
    } else {
      NonNegativeRoundTrip(i);
    }
  }

  lemma SpecialRoundTrip(x: Number)
    requires !x.Int?
    ensures FromString(ToString(x)) == x
  {
    var s := ToString(x);
    assert Trimmed(s);
    TrimFixesTrimmed(s);
    if x.NaN? {
      assert !IsDigit(s[0]);
    }
  }

  /** `Number(x.toString())` gives back `x` for every represented number. */
  lemma FromStringToString(x: Number)
    ensures FromString(ToString(x)) == x
  {
    if x.Int? {
      IntRoundTrip(x.value);
    } else {
      SpecialRoundTrip(x);
    }
  }
}
