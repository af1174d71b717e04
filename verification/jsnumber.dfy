/** The JavaScript number coercions the rules rely on: `Number(value)` as
    used by `isNaN` and by the relational operators, and the success of
    `parseFloat`. A string converts through ECMAScript's StringNumericLiteral
    grammar (section 7.1.4.1 of ECMA-262): optional surrounding white space
    around a signed decimal literal with optional fraction and exponent,
    `Infinity`, or a `0b`/`0o`/`0x` integer; the blank string converts to 0.
    Values are exact reals: the rounding to a double is not modelled. */
module JsNumber {
  import opened JsText
  import opened Values

  /** A JavaScript number as far as comparisons can tell. */
  datatype Number = NaN | Finite(r: real) | Infinite(negative: bool)

  predicate IsDigit(c: char) { '0' <= c <= '9' }

  predicate AllDigits(s: string) {
    forall i :: 0 <= i < |s| ==> IsDigit(s[i])
  }

  /** The value of a string of decimal digits. */
  function DigitsValue(s: string): nat
    requires AllDigits(s)
  {
    if s == [] then 0 else DigitsValue(s[..|s| - 1]) * 10 + (s[|s| - 1] as int - '0' as int)
  }

  function Pow(base: nat, e: nat): (r: nat)
    requires base > 0
    ensures r > 0
  {
    if e == 0 then 1 else base * Pow(base, e - 1)
  }

  /** `x` times ten to the power `e`. */
  function Scale(x: real, e: int): real {
    if e >= 0 then x * Pow(10, e) as real else x / Pow(10, -e) as real
  }

  /** DecimalDigits, or DecimalDigits `.` DecimalDigits? , or `.` DecimalDigits. */
  predicate IsMantissa(m: string) {
    var d := FirstIndex(m, ".");
    if d == |m| then m != [] && AllDigits(m)
    else |m| >= 2 && AllDigits(m[..d]) && AllDigits(m[d + 1..])
  }

  function MantissaValue(m: string): real
    requires IsMantissa(m)
  {
    var d := FirstIndex(m, ".");
    if d == |m| then DigitsValue(m) as real
    else
      var frac := m[d + 1..];
      assert AllDigits(m[..d] + frac);
      DigitsValue(m[..d] + frac) as real / Pow(10, |frac|) as real
  }

  /** SignedInteger: an optional sign followed by at least one digit. */
  predicate IsSignedDigits(x: string) {
    || (x != [] && AllDigits(x))
    || (|x| >= 2 && x[0] in "+-" && AllDigits(x[1..]))
  }

  function SignedDigitsValue(x: string): int
    requires IsSignedDigits(x)
  {
    if x[0] == '-' then -(DigitsValue(x[1..]) as int)
    else if x[0] == '+' then DigitsValue(x[1..])
    else DigitsValue(x)
  }

  /** ExponentPart: `e` or `E` followed by a SignedInteger. */
  predicate IsExponentPart(x: string) {
    |x| >= 2 && x[0] in "eE" && IsSignedDigits(x[1..])
  }

  /** StrUnsignedDecimalLiteral. */
  predicate IsUnsignedDecimal(s: string) {
    || s == "Infinity"
    || (var k := FirstIndex(s, "eE");
        IsMantissa(s[..k]) && (k == |s| || IsExponentPart(s[k..])))
  }

  function UnsignedDecimalValue(s: string): (r: Number)
    requires IsUnsignedDecimal(s)
    ensures !r.NaN?
  {
    if s == "Infinity" then Infinite(false)
    else
      var k := FirstIndex(s, "eE");
      if k == |s| then Finite(MantissaValue(s[..k]))
      else
        assert s[k..][1..] == s[k + 1..];
        Finite(Scale(MantissaValue(s[..k]), SignedDigitsValue(s[k + 1..])))
  }

  /** StrDecimalLiteral: an optionally signed StrUnsignedDecimalLiteral. */
  predicate IsDecimalLiteral(s: string) {
    || IsUnsignedDecimal(s)
    || (s != [] && s[0] in "+-" && IsUnsignedDecimal(s[1..]))
  }

  function Negate(x: Number): Number {
    match x
    case NaN => NaN
    case Finite(r) => Finite(-r)
    case Infinite(neg) => Infinite(!neg)
  }

  function DecimalValue(s: string): (r: Number)
    requires IsDecimalLiteral(s)
    ensures !r.NaN?
  {
    if IsUnsignedDecimal(s) then UnsignedDecimalValue(s)
    else if s[0] == '-' then Negate(UnsignedDecimalValue(s[1..]))
    else UnsignedDecimalValue(s[1..])
  }

  function HexDigitValue(c: char): int {
    if '0' <= c <= '9' then c as int - '0' as int
    else if 'a' <= c <= 'f' then c as int - 'a' as int + 10
    else if 'A' <= c <= 'F' then c as int - 'A' as int + 10
    else -1
  }

  predicate AllBaseDigits(s: string, base: nat) {
    forall i :: 0 <= i < |s| ==> 0 <= HexDigitValue(s[i]) < base
  }

  function BaseDigitsValue(s: string, base: nat): nat
    requires AllBaseDigits(s, base)
  {
    if s == [] then 0
    else BaseDigitsValue(s[..|s| - 1], base) * base + HexDigitValue(s[|s| - 1])
  }

  /** The radix a NonDecimalIntegerLiteral prefix selects, or 0. */
  function Radix(c: char): nat {
    if c in "bB" then 2 else if c in "oO" then 8 else if c in "xX" then 16 else 0
  }

  /** NonDecimalIntegerLiteral: `0b`, `0o` or `0x` and at least one digit
      of that radix. */
  predicate IsNonDecimalLiteral(s: string) {
    |s| >= 3 && s[0] == '0' && Radix(s[1]) > 0 && AllBaseDigits(s[2..], Radix(s[1]))
  }

  /** StrNumericLiteral. */
  predicate IsNumericLiteral(s: string) {
    IsDecimalLiteral(s) || IsNonDecimalLiteral(s)
  }

  /** `Number(s)` for a string `s`. */
  function StringToNumber(s: string): (r: Number)
    ensures r.NaN? <==> Trim(s) != [] && !IsNumericLiteral(Trim(s))
  {
    var t := Trim(s);
    if t == [] then Finite(0.0)
    else if IsDecimalLiteral(t) then DecimalValue(t)
    else if IsNonDecimalLiteral(t) then Finite(BaseDigitsValue(t[2..], Radix(t[1])) as real)
    else NaN
  }

  /** `Number(v)` (ToNumber after ToPrimitive): arrays and objects convert
      through their string form. */
  function ToNumber(v: Value): (r: Number)
    ensures v.Num? ==> r == Finite(v.n as real)
    ensures v.Null? ==> r == Finite(0.0)
    ensures v.Undefined? ==> r.NaN?
  {
    match v
    case Null => Finite(0.0)
    case Undefined => NaN
    case Bool(b) => Finite(if b then 1.0 else 0.0)
    case Num(n) => Finite(n as real)
    case Str(s) => StringToNumber(s)
    case Arr(_) => StringToNumber(ToStr(v))
    case Obj(_) => StringToNumber(ToStr(v))
  }

  /** `parseFloat(s)` is not NaN: after leading white space, some non-empty
      prefix is a StrDecimalLiteral. */
  predicate ParseFloatSucceeds(s: string) {
    var u := TrimStart(s);
    exists k :: 1 <= k <= |u| && IsDecimalLiteral(u[..k])
  }

  /** `x < bound`: false whenever `x` is NaN. */
  predicate LessThan(x: Number, bound: int)
    ensures x.NaN? ==> !LessThan(x, bound)
    ensures x == Finite(bound as real) ==> !LessThan(x, bound)
  {
    match x
    case NaN => false
    case Finite(r) => r < bound as real
    case Infinite(neg) => neg
  }

  /** `x > bound`: false whenever `x` is NaN. */
  predicate GreaterThan(x: Number, bound: int)
    ensures x.NaN? ==> !GreaterThan(x, bound)
    ensures GreaterThan(x, bound) ==> !LessThan(x, bound)
  {
    match x
    case NaN => false
    case Finite(r) => r > bound as real
    case Infinite(neg) => !neg
  }

  /** A string NumericRule accepts: its trimmed form is a non-empty
      StrNumericLiteral. */
  predicate IsNumericString(s: string)
    ensures IsNumericString(s) ==> !IsBlank(s) && !StringToNumber(s).NaN?
  {
    Trim(s) != [] && IsNumericLiteral(Trim(s))
  }

  /** The test `!isNaN(s) && !isNaN(parseFloat(s))` holds exactly of the
      numeric strings: `Number` rejects everything but a literal between
      white space, and `parseFloat` additionally rejects the blank string
      while accepting every literal, a `0x` literal by its leading `0`. */
  lemma NumericStringCharacterisation(s: string)
    ensures (!StringToNumber(s).NaN? && ParseFloatSucceeds(s)) <==> IsNumericString(s)
  {
    var u := TrimStart(s);
    var t := Trim(s);
    assert t == TrimEnd(u);
    if IsNumericString(s) {
      assert u[..|t|] == t;
      if IsDecimalLiteral(t) {
        assert 1 <= |t| <= |u| && IsDecimalLiteral(u[..|t|]);
      } else {
        assert u[..1] == "0";
        assert IsMantissa("0");
        assert IsUnsignedDecimal("0");
        assert 1 <= 1 <= |u| && IsDecimalLiteral(u[..1]);
      }
    }
    if ParseFloatSucceeds(s) {
      assert u != [];
      assert t != [];
    }
  }

  lemma {:induction false} DigitsOfNat(n: nat)
    ensures AllDigits(NatToDecimal(n))
    ensures DigitsValue(NatToDecimal(n)) == n
  {
    var s := NatToDecimal(n);
    if n >= 10 {
      DigitsOfNat(n / 10);
      assert s[..|s| - 1] == NatToDecimal(n / 10);
      assert s[|s| - 1] == DigitChar(n % 10);
    }
    DigitCharValue(n % 10);
  }

  lemma DigitCharValue(d: nat)
    requires d < 10
    ensures DigitChar(d) as int - '0' as int == d
  {
  }

  /** A non-empty string of digits is a StrUnsignedDecimalLiteral worth
      its digit value. */
  lemma DigitsLiteral(digits: string)
    requires digits != [] && AllDigits(digits)
    ensures IsUnsignedDecimal(digits)
    ensures UnsignedDecimalValue(digits) == Finite(DigitsValue(digits) as real)
  {
    assert IsDigit(digits[0]);
    assert digits != "Infinity" by { assert "Infinity"[0] == 'I'; }
    var k := FirstIndex(digits, "eE");
    if k < |digits| {
      assert false;
    }
    assert digits[..k] == digits;
    var d := FirstIndex(digits, ".");
    if d < |digits| {
      assert false;
    }
    assert IsMantissa(digits);
    assert MantissaValue(digits) == DigitsValue(digits) as real;
  }

  /** A string starting with a sign is not itself unsigned. */
  lemma SignedIsNotUnsigned(s: string)
    requires s != [] && s[0] in "+-"
    ensures !IsUnsignedDecimal(s)
  {
    var k := FirstIndex(s, "eE");
    if k > 0 {
      var m := s[..k];
      assert m[0] == s[0];
      var d := FirstIndex(m, ".");
      assert d > 0;
      assert !IsDigit(m[0]);
    }
  }

  /** A string that starts and ends with a character other than white
      space is its own trimmed form. */
  lemma TrimmedAlready(s: string)
    requires s != [] && !IsWhiteSpace(s[0]) && !IsWhiteSpace(s[|s| - 1])
    ensures Trim(s) == s
  {
    assert TrimStart(s) == s;
    assert TrimEnd(s) == s;
  }

  /** `Number` reads a trimmed decimal literal as the literal's value. */
  lemma LiteralReadsBack(s: string)
    requires s != [] && Trim(s) == s && IsDecimalLiteral(s)
    ensures StringToNumber(s) == DecimalValue(s)
  {
  }

  /** A minus sign before a non-empty digit string is a decimal literal for
      the negated digit value. */
  lemma NegativeLiteral(digits: string)
    requires digits != [] && AllDigits(digits)
    ensures IsDecimalLiteral("-" + digits)
    ensures DecimalValue("-" + digits) == Finite(-(DigitsValue(digits) as real))
  {
    DigitsLiteral(digits);
    var s := "-" + digits;
    assert s[1..] == digits;
    SignedIsNotUnsigned(s);
  }

  /** `Number` reads a non-empty digit string, with or without a leading
      minus sign, as its value. */
  lemma DigitsRoundTrip(digits: string)
    requires digits != [] && AllDigits(digits)
    ensures IsNumericString(digits)
    ensures StringToNumber(digits) == Finite(DigitsValue(digits) as real)
    ensures IsNumericString("-" + digits)
    ensures StringToNumber("-" + digits) == Finite(-(DigitsValue(digits) as real))
  {
    assert IsDigit(digits[0]) && IsDigit(digits[|digits| - 1]);
    TrimmedAlready(digits);
    DigitsLiteral(digits);
    LiteralReadsBack(digits);
    var s := "-" + digits;
    assert s[|s| - 1] == digits[|digits| - 1];
    TrimmedAlready(s);
    NegativeLiteral(digits);
    LiteralReadsBack(s);
  }

  /** A minus sign before the digits of `-n` reads back as `n`. */
  lemma NegativeRoundTrip(n: int, digits: string)
    requires n < 0
    requires digits != [] && AllDigits(digits) && DigitsValue(digits) == -n
    ensures IsNumericString("-" + digits)
    ensures StringToNumber("-" + digits) == Finite(n as real)
  {
    DigitsRoundTrip(digits);
  }

  /** The string `String(n)` of an integer reads back as `n`: it is a
      numeric string and `Number` maps it to `n` itself. */
  lemma DecimalRoundTrip(n: int)
    ensures IsNumericString(IntToDecimal(n))
    ensures StringToNumber(IntToDecimal(n)) == Finite(n as real)
  {
    if n < 0 {
      DigitsOfNat(-n);
      NegativeRoundTrip(n, NatToDecimal(-n));
    } else {
      DigitsOfNat(n);
      DigitsRoundTrip(NatToDecimal(n));
    }
  }

  /** Every StrDecimalLiteral starts with a digit, a sign, a point or the
      `I` of `Infinity`. */
  lemma DecimalLiteralStart(x: string)
    requires IsDecimalLiteral(x)
    ensures x != [] && (IsDigit(x[0]) || x[0] in "+-.I")
  {
    if IsUnsignedDecimal(x) && x != "Infinity" {
      var k := FirstIndex(x, "eE");
      var m := x[..k];
      assert m != [];
      assert m[0] == x[0];
      var d := FirstIndex(m, ".");
      if d > 0 { assert m[..d][0] == m[0]; }
    }
  }

  /** `parseFloat` gives NaN for a string whose first character is neither
      white space nor one that can start a StrDecimalLiteral. */
  lemma ParseFloatFailsOn(s: string)
    requires s != [] && !IsWhiteSpace(s[0]) && !IsDigit(s[0]) && s[0] !in "+-.I"
    ensures !ParseFloatSucceeds(s)
  {
    assert TrimStart(s) == s;
    forall k | 1 <= k <= |s|
      ensures !IsDecimalLiteral(s[..k])
    {
      if IsDecimalLiteral(s[..k]) {
        DecimalLiteralStart(s[..k]);
      }
    }
  }
}
