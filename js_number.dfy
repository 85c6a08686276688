/**
 * The integer subset of JavaScript numbers that the core produces and prints:
 * `parseInt(s, 10)`, `String(n)` and template-literal rendering of integers, and NaN.
 */
module JsNumber {
  import JsText

  /** A JavaScript number restricted to NaN and the integers. */
  datatype Num = NaN | Int(i: int)

  /** `Number.MAX_SAFE_INTEGER`, 2^53 - 1: the largest integer up to which every integer is a number exactly. */
  const MaxSafeInteger: nat := 9007199254740991

  predicate IsDigit(c: char) {
    '0' <= c <= '9'
  }

  predicate AllDigits(s: string) {
    forall k :: 0 <= k < |s| ==> IsDigit(s[k])
  }

  function DigitChar(d: nat): (c: char)
    requires d < 10
    ensures IsDigit(c) && c as int - '0' as int == d
  {
    ('0' as int + d) as char
  }

  /** The decimal numeral of `n`, without sign and without leading zeros. */
  function Decimal(n: nat): (r: string)
    ensures |r| >= 1 && AllDigits(r)
    ensures r[0] == '0' ==> n == 0 && r == "0"
  {
    if n < 10 then [DigitChar(n)]
    else
      var r := Decimal(n / 10) + [DigitChar(n % 10)];
      assert r[0] == Decimal(n / 10)[0];
      r
  }

  /** The value of a string of decimal digits (applied only to digit runs). */
  function DigitsValue(ds: string): (v: int)
    ensures AllDigits(ds) ==> v >= 0
  {
    if ds == [] then 0
    else DigitsValue(ds[..|ds| - 1]) * 10 + (ds[|ds| - 1] as int - '0' as int)
  }

  /** Reading back the numeral of `n` gives `n`. */
  lemma {:induction false} DecimalValue(n: nat)
    ensures DigitsValue(Decimal(n)) == n
  {
    if n >= 10 {
      var r := Decimal(n);
      DecimalValue(n / 10);
      assert r[..|r| - 1] == Decimal(n / 10);
    }
  }

  /** The number of decimal digits at the front of `s`. */
  function LeadingDigits(s: string): (k: nat)
    ensures k <= |s|
  {
    if s != [] && IsDigit(s[0]) then 1 + LeadingDigits(s[1..]) else 0
  }

  /** `LeadingDigits` counts the longest run of digits at the front. */
  lemma {:induction false} LeadingDigitsShape(s: string)
    ensures AllDigits(s[..LeadingDigits(s)])
    ensures LeadingDigits(s) < |s| ==> !IsDigit(s[LeadingDigits(s)])
  {
    if s != [] && IsDigit(s[0]) {
      var k := LeadingDigits(s);
      LeadingDigitsShape(s[1..]);
      assert s[..k] == [s[0]] + s[1..][..k - 1];
    }
  }

  /**
   * `parseInt(s, 10)`: skip leading white space, read an optional sign, then the
   * longest run of decimal digits; NaN when that run is empty.
   */
  function ParseInt(s: string): (n: Num)
    ensures '-' !in s ==> n == NaN || n.i >= 0
  {
    JsText.TrimStartShape(s);
    var t := JsText.TrimStart(s);
    assert t != [] ==> t[0] == s[|s| - |t|];
    var negative := t != [] && t[0] == '-';
    var body := if t != [] && (t[0] == '-' || t[0] == '+') then t[1..] else t;
    var k := LeadingDigits(body);
    LeadingDigitsShape(body);
    if k == 0 then NaN
    else
      var magnitude: int := DigitsValue(body[..k]);
      Int(if negative then -magnitude else magnitude)
  }

  /** `String(n)` and `${n}` for the numbers modelled here. */
  function NumToString(n: Num): (r: string)
    ensures |r| >= 1
    ensures r[0] == '-' <==> n.Int? && n.i < 0
  {
    match n
    case NaN => "NaN"
    case Int(i) => if i < 0 then "-" + Decimal(-i) else Decimal(i)
  }

  /** A numeral followed by anything that is not a digit parses to its value: `parseInt` stops at the first non-digit. */
  lemma ParseIntDecimalPrefix(n: nat, rest: string)
    requires rest == [] || !IsDigit(rest[0])
    ensures ParseInt(Decimal(n) + rest) == Int(n)
  {
    var d := Decimal(n);
    var s := d + rest;
    assert !JsText.IsWhitespace(s[0]) && s[0] != '-' && s[0] != '+' by { assert s[0] == d[0]; }
    assert JsText.TrimStart(s) == s;
    LeadingDigitsOfNumeral(d, rest);
    assert s[..|d|] == d;
    DecimalValue(n);
  }

  lemma {:induction false} LeadingDigitsOfNumeral(d: string, rest: string)
    requires AllDigits(d)
    requires rest == [] || !IsDigit(rest[0])
    ensures LeadingDigits(d + rest) == |d|
  {
    if d != [] {
      assert (d + rest)[1..] == d[1..] + rest;
      LeadingDigitsOfNumeral(d[1..], rest);
    }
  }

  /** `parseInt(String(i), 10) === i` for every integer `i`. */
  lemma ParseIntRoundTrip(i: int)
    ensures ParseInt(NumToString(Int(i))) == Int(i)
  {
    if i >= 0 {
      ParseIntDecimalPrefix(i, []);
      assert Decimal(i) + [] == Decimal(i);
    } else {
      ParseNegativeNumeral(-i);
    }
  }

  /** A minus sign followed by a numeral reads back as the negated value. */
  lemma ParseNegativeNumeral(n: nat)
    ensures ParseInt("-" + Decimal(n)) == Int(-(n as int))
  {
    var d := Decimal(n);
    var s := "-" + d;
    assert JsText.TrimStart(s) == s;
    assert s[1..] == d;
    LeadingDigitsOfNumeral(d, []);
    assert d + [] == d && d[..|d|] == d;
    DecimalValue(n);
  }

  /** A string whose first code unit is neither white space, a sign nor a digit is not a number. */
  lemma ParseIntNoDigits(s: string)
    requires s == [] || (!JsText.IsWhitespace(s[0]) && s[0] != '-' && s[0] != '+' && !IsDigit(s[0]))
    ensures ParseInt(s) == NaN
  {
  }
}
