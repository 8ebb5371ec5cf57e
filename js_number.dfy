// The two JavaScript number conversions the prime endpoint relies on:
// `parseInt(string)` with no radix, as section 19.2.5 of ECMA-262
// ("parseInt (string, radix)") defines it, and the decimal text an integer
// gets in a template literal. Values are exact integers (see the README for
// where IEEE-754 doubles would differ).
module JsNumber {

  /** What `parseInt` returns: NaN, or an integer. JavaScript's -0 (from
      "-0") is modelled as 0; the endpoint treats the two alike. */
  datatype Parsed = NaN | Num(value: int)

  /** StrWhiteSpaceChar of ECMA-262: WhiteSpace (TAB, VT, FF, ZWNBSP and the
      space separators of category Zs) and LineTerminator (LF, CR, LS, PS). */
  predicate IsWhiteSpace(c: char) {
    c == '\t' || c == '\n' || c == '\U{000B}' || c == '\U{000C}' || c == '\r'
    || c == ' ' || c == '\U{00A0}' || c == '\U{1680}'
    || ('\U{2000}' <= c <= '\U{200A}')
    || c == '\U{2028}' || c == '\U{2029}' || c == '\U{202F}' || c == '\U{205F}'
    || c == '\U{3000}' || c == '\U{FEFF}'
  }

  /** The value of a digit in radices up to 36: 0-9, then a-z or A-Z for
      10-35; 36 for every other character. */
  function DigitValue(c: char): nat {
    if '0' <= c <= '9' then c as int - '0' as int
    else if 'a' <= c <= 'z' then c as int - 'a' as int + 10
    else if 'A' <= c <= 'Z' then c as int - 'A' as int + 10
    else 36
  }

  predicate IsRadixDigit(c: char, radix: nat) {
    DigitValue(c) < radix
  }

  /** The string with its leading white space removed: a suffix of `s`, what
      was removed is all white space, and what is left does not start with
      white space. */
  function TrimStart(s: string): (r: string)
    ensures |r| <= |s| && r == s[|s| - |r|..]
    ensures forall i :: 0 <= i < |s| - |r| ==> IsWhiteSpace(s[i])
    ensures r == [] || !IsWhiteSpace(r[0])
  {
    if s != [] && IsWhiteSpace(s[0]) then TrimStart(s[1..]) else s
  }

  /** The longest prefix of `s` made of digits of the radix. */
  function DigitPrefix(s: string, radix: nat): (r: string)
    ensures |r| <= |s| && r == s[..|r|]
    ensures forall i :: 0 <= i < |r| ==> IsRadixDigit(r[i], radix)
    ensures |r| == |s| || !IsRadixDigit(s[|r|], radix)
  {
    if s != [] && IsRadixDigit(s[0], radix) then [s[0]] + DigitPrefix(s[1..], radix) else []
  }

  /** The value of a digit string, most significant digit first. */
  function DigitsValue(ds: string, radix: nat): nat {
    if ds == [] then 0 else DigitsValue(ds[..|ds| - 1], radix) * radix + DigitValue(ds[|ds| - 1])
  }

  /** There is no digit where `parseInt` expects the first one: nothing is
      left, the next character is not a decimal digit, or a "0x"/"0X" prefix
      is not followed by a hexadecimal digit. */
  predicate LacksDigits(u: string) {
    u == [] || DigitValue(u[0]) >= 10
    || (|u| >= 2 && u[0] == '0' && (u[1] == 'x' || u[1] == 'X') && (|u| == 2 || DigitValue(u[2]) >= 16))
  }

  /** The text after at most one leading sign. */
  function Unsigned(t: string): string {
    if t != [] && (t[0] == '-' || t[0] == '+') then t[1..] else t
  }

  /** A run of digits after the sign: a "0x" or "0X" prefix means radix 16,
      anything else radix 10; NaN exactly when no digit follows. The value is
      never negative. */
  function ParseDigits(u: string): (r: Parsed)
    ensures r.NaN? <==> LacksDigits(u)
    ensures r.Num? ==> r.value >= 0
  {
    var hex := |u| >= 2 && u[0] == '0' && (u[1] == 'x' || u[1] == 'X');
    var radix := if hex then 16 else 10;
    var z := DigitPrefix(if hex then u[2..] else u, radix);
    if z == [] then NaN else Num(DigitsValue(z, radix))
  }

  function Negate(p: Parsed): Parsed {
    if p.NaN? then NaN else Num(-p.value)
  }

  /** An optional sign, then the digits: NaN exactly when no digit follows
      the sign, and a negative value only after a '-'. */
  function ParseSigned(t: string): (r: Parsed)
    ensures r.NaN? <==> LacksDigits(Unsigned(t))
    ensures r.Num? && r.value < 0 ==> t[0] == '-'
  {
    if t != [] && t[0] == '-' then Negate(ParseDigits(t[1..]))
    else if t != [] && t[0] == '+' then ParseDigits(t[1..])
    else ParseDigits(t)
  }

  /** `parseInt(s)` with the radix left out: skip leading white space, take
      an optional sign, take a "0x" or "0X" prefix to mean radix 16 (else
      radix 10), then the longest run of digits; NaN when that run is
      empty. Which texts are NaN is decided by the first characters after
      the white space and the sign alone. */
  function ParseInt(s: string): (r: Parsed)
    ensures r.NaN? <==> LacksDigits(Unsigned(TrimStart(s)))
    ensures r.Num? && r.value < 0 ==> TrimStart(s)[0] == '-'
  {
    ParseSigned(TrimStart(s))
  }

  function DecimalDigit(d: nat): (c: char)
    requires d < 10
    ensures '0' <= c <= '9' && DigitValue(c) == d
  {
    ('0' as int + d) as char
  }

  /** The decimal numeral of a natural number: at least one digit, digits
      only, and no leading zero unless the number is 0. */
  function NatToDecimal(n: nat): (r: string)
    ensures |r| >= 1
    ensures forall i :: 0 <= i < |r| ==> '0' <= r[i] <= '9'
    ensures r[0] == '0' <==> n == 0
  {
    if n < 10 then [DecimalDigit(n)] else NatToDecimal(n / 10) + [DecimalDigit(n % 10)]
  }

  /** The text JavaScript gives an integer-valued number in a template
      literal: its decimal numeral, with '-' in front when it is negative. */
  function IntegerToString(n: int): (r: string)
    ensures |r| >= 1 && (r[0] == '-' <==> n < 0)
    ensures forall i :: 0 < i < |r| ==> '0' <= r[i] <= '9'
  {
    if n < 0 then "-" + NatToDecimal(-n) else NatToDecimal(n)
  }

  /** Reading a decimal numeral back gives the number it was made from. */
  lemma {:induction false} DecimalRoundTrip(n: nat)
    ensures DigitsValue(NatToDecimal(n), 10) == n
  {
    var r := NatToDecimal(n);
    if n < 10 {
      assert r[..|r| - 1] == [];
    } else {
      assert r[..|r| - 1] == NatToDecimal(n / 10);
      DecimalRoundTrip(n / 10);
    }
  }

  /** The digit run ends where the digits end. */
  lemma {:induction false} DigitPrefixOfDigits(ds: string, rest: string, radix: nat)
    requires forall i :: 0 <= i < |ds| ==> IsRadixDigit(ds[i], radix)
    requires rest == [] || !IsRadixDigit(rest[0], radix)
    ensures DigitPrefix(ds + rest, radix) == ds
  {
    if ds != [] {
      assert (ds + rest)[1..] == ds[1..] + rest;
      DigitPrefixOfDigits(ds[1..], rest, radix);
    } else {
      assert ds + rest == rest;
    }
  }

  /** The digits of a decimal numeral, followed by anything that is neither
      a digit nor 'x'/'X', read back as the numeral's value. */
  lemma ParseDigitsOfDecimal(m: nat, rest: string)
    requires rest == [] || (DigitValue(rest[0]) >= 10 && rest[0] != 'x' && rest[0] != 'X')
    ensures ParseDigits(NatToDecimal(m) + rest) == Num(m)
  {
    var ds := NatToDecimal(m);
    var u := ds + rest;
    assert u[0] == ds[0];
    assert |ds| >= 2 ==> u[1] == ds[1];
    assert |ds| == 1 && |u| >= 2 ==> u[1] == rest[0];
    DigitPrefixOfDigits(ds, rest, 10);
    DecimalRoundTrip(m);
  }

  /** Any run of decimal digits, followed by anything that is not a decimal
      digit, reads as its value in radix 10, unless the run is a lone "0"
      directly followed by 'x' or 'X' (a hexadecimal prefix). */
  lemma ParseDecimalDigits(ds: string, rest: string)
    requires ds != [] && forall i :: 0 <= i < |ds| ==> IsRadixDigit(ds[i], 10)
    requires rest == [] || !IsRadixDigit(rest[0], 10)
    requires !(|ds| == 1 && ds[0] == '0' && rest != [] && (rest[0] == 'x' || rest[0] == 'X'))
    ensures ParseDigits(ds + rest) == Num(DigitsValue(ds, 10))
  {
    var u := ds + rest;
    assert u[0] == ds[0];
    assert |ds| >= 2 ==> u[1] == ds[1] && IsRadixDigit(ds[1], 10);
    assert |ds| == 1 && |u| >= 2 ==> u[1] == rest[0];
    assert !(|u| >= 2 && u[0] == '0' && (u[1] == 'x' || u[1] == 'X'));
    DigitPrefixOfDigits(ds, rest, 10);
    assert DigitPrefix(u, 10) == ds;
  }

  /** Any run of hexadecimal digits after "0x" or "0X", followed by anything
      that is not a hexadecimal digit, reads as its value in radix 16. */
  lemma ParseHexDigits(x: char, ds: string, rest: string)
    requires x == 'x' || x == 'X'
    requires ds != [] && forall i :: 0 <= i < |ds| ==> IsRadixDigit(ds[i], 16)
    requires rest == [] || !IsRadixDigit(rest[0], 16)
    ensures ParseDigits(['0', x] + ds + rest) == Num(DigitsValue(ds, 16))
  {
    var u := ['0', x] + ds + rest;
    HexTail(x, ds + rest, u);
    DigitPrefixOfDigits(ds, rest, 16);
    HexPrefixRead(u, ds);
  }

  /** The parts of a "0x"/"0X" prefix followed by `t`. */
  lemma HexTail(x: char, t: string, u: string)
    requires u == ['0', x] + t
    ensures |u| >= 2 && u[0] == '0' && u[1] == x && u[2..] == t
  {
  }

  /** After a "0x" or "0X" prefix the digits are read in radix 16. */
  lemma HexPrefixRead(u: string, ds: string)
    requires |u| >= 2 && u[0] == '0' && (u[1] == 'x' || u[1] == 'X')
    requires ds != [] && DigitPrefix(u[2..], 16) == ds
    ensures ParseDigits(u) == Num(DigitsValue(ds, 16))
  {
  }

  /** The sign and digits of an integer's text read back as the integer. */
  lemma ParseSignedOfInteger(n: int, rest: string)
    requires rest == [] || (DigitValue(rest[0]) >= 10 && rest[0] != 'x' && rest[0] != 'X')
    ensures ParseSigned(IntegerToString(n) + rest) == Num(n)
  {
    if n < 0 {
      ParseSignedOfNegative(n, rest);
    } else {
      ParseSignedOfNonNegative(n, rest);
    }
  }

  lemma ParseSignedOfNegative(n: int, rest: string)
    requires n < 0
    requires rest == [] || (DigitValue(rest[0]) >= 10 && rest[0] != 'x' && rest[0] != 'X')
    ensures ParseSigned(IntegerToString(n) + rest) == Num(n)
  {
    var ds := NatToDecimal(-n);
    assert IntegerToString(n) == "-" + ds;
    ParseDigitsOfDecimal(-n, rest);
    SignedOfMinus(IntegerToString(n) + rest, ds, rest, -n);
  }

  /** A '-' before digits that read as `m` gives -m. */
  lemma SignedOfMinus(t: string, ds: string, rest: string, m: int)
    requires t == ("-" + ds) + rest
    requires ParseDigits(ds + rest) == Num(m)
    ensures ParseSigned(t) == Num(-m)
  {
    ParseSignedMinus(ds, rest);
  }

  lemma ParseSignedOfNonNegative(n: nat, rest: string)
    requires rest == [] || (DigitValue(rest[0]) >= 10 && rest[0] != 'x' && rest[0] != 'X')
    ensures ParseSigned(IntegerToString(n) + rest) == Num(n)
  {
    var ds := NatToDecimal(n);
    assert (ds + rest)[0] == ds[0];
    ParseDigitsOfDecimal(n, rest);
    ParseSignedDigit(ds + rest);
  }

  lemma ParseSignedMinus(ds: string, rest: string)
    ensures ParseSigned(("-" + ds) + rest) == Negate(ParseDigits(ds + rest))
  {
    assert (("-" + ds) + rest)[1..] == ds + rest;
  }

  lemma ParseSignedDigit(u: string)
    requires u != [] && '0' <= u[0] <= '9'
    ensures ParseSigned(u) == ParseDigits(u)
  {
  }

  /** `parseInt` reads back the text of any integer, whatever non-digit text
      follows it ("17abc" and "17.5" give 17, "17 is a prime number" gives
      17). The text after the number must not start with 'x' or 'X', which
      after "0" would make a hexadecimal prefix. */
  lemma ParseIntegerToString(n: int, rest: string)
    requires rest == [] || (DigitValue(rest[0]) >= 10 && rest[0] != 'x' && rest[0] != 'X')
    ensures ParseInt(IntegerToString(n) + rest) == Num(n)
  {
    var s := IntegerToString(n) + rest;
    assert s[0] == IntegerToString(n)[0];
    NumeralNotWhiteSpace(s[0]);
    TrimStartKeeps(s);
    ParseSignedOfInteger(n, rest);
  }

  /** For a positive integer any non-digit may follow its text, 'x' and 'X'
      included: its numeral does not start with "0", so no hexadecimal prefix
      can form. */
  lemma ParsePositiveIntegerText(n: int, rest: string)
    requires n > 0
    requires rest == [] || DigitValue(rest[0]) >= 10
    ensures ParseInt(IntegerToString(n) + rest) == Num(n)
  {
    var u := NatToDecimal(n) + rest;
    assert IntegerToString(n) + rest == u;
    ParseDigitsOfPositiveDecimal(n, rest);
    assert u[0] == NatToDecimal(n)[0];
    NumeralNotWhiteSpace(u[0]);
    TrimStartKeeps(u);
    ParseSignedDigit(u);
  }

  lemma ParseDigitsOfPositiveDecimal(m: nat, rest: string)
    requires m > 0
    requires rest == [] || DigitValue(rest[0]) >= 10
    ensures ParseDigits(NatToDecimal(m) + rest) == Num(m)
  {
    var ds := NatToDecimal(m);
    var u := ds + rest;
    assert u[0] == ds[0] && u[0] != '0';
    DigitPrefixOfDigits(ds, rest, 10);
    DecimalRoundTrip(m);
  }

  lemma NumeralNotWhiteSpace(c: char)
    requires c == '-' || '0' <= c <= '9'
    ensures !IsWhiteSpace(c)
  {
  }

  lemma TrimStartKeeps(s: string)
    requires s == [] || !IsWhiteSpace(s[0])
    ensures TrimStart(s) == s
  {
  }

  /** The text of an integer determines the integer. */
  lemma IntegerToStringInjective(a: int, b: int)
    requires IntegerToString(a) == IntegerToString(b)
    ensures a == b
  {
    ParseIntegerToString(a, []);
    ParseIntegerToString(b, []);
    assert IntegerToString(a) + [] == IntegerToString(a);
    assert IntegerToString(b) + [] == IntegerToString(b);
  }

  /** Leading white space never changes what `parseInt` reads. */
  lemma {:induction false} LeadingWhiteSpaceIgnored(w: string, s: string)
    requires forall i :: 0 <= i < |w| ==> IsWhiteSpace(w[i])
    ensures ParseInt(w + s) == ParseInt(s)
  {
    TrimStartSkips(w, s);
  }

  lemma {:induction false} TrimStartSkips(w: string, s: string)
    requires forall i :: 0 <= i < |w| ==> IsWhiteSpace(w[i])
    ensures TrimStart(w + s) == TrimStart(s)
  {
    if w != [] {
      assert (w + s)[1..] == w[1..] + s;
      TrimStartSkips(w[1..], s);
    } else {
      assert w + s == s;
    }
  }

  /** One sign is allowed: "-" in front negates what the rest reads as, "+"
      changes nothing, provided the rest does not itself start with white
      space or a sign. */
  lemma SignApplies(s: string)
    requires s == [] || (!IsWhiteSpace(s[0]) && s[0] != '+' && s[0] != '-')
    ensures ParseInt("-" + s) == Negate(ParseInt(s))
    ensures ParseInt("+" + s) == ParseInt(s)
  {
    assert ("-" + s)[0] == '-' && ("-" + s)[1..] == s;
    assert ("+" + s)[0] == '+' && ("+" + s)[1..] == s;
    assert !IsWhiteSpace('-') && !IsWhiteSpace('+');
    TrimStartKeeps("-" + s);
    TrimStartKeeps("+" + s);
    TrimStartKeeps(s);
  }

  /** The text of an integer followed by other text reads as the integer. */
  lemma ReadsAs(s: string, n: int, rest: string)
    requires s == IntegerToString(n) + rest
    requires rest == [] || (DigitValue(rest[0]) >= 10 && rest[0] != 'x' && rest[0] != 'X')
    ensures ParseInt(s) == Num(n)
  {
    ParseIntegerToString(n, rest);
  }

  /** Letters after the digits are ignored: "17abc" reads as 17. */
  lemma ParseIntIgnoresLetters()
    ensures ParseInt("17abc") == Num(17)
  {
    TextOfSeventeen();
    ReadsAs("17abc", 17, "abc");
  }

  /** A fraction is cut off, towards zero on both sides: "17.9" reads as 17
      and "-17.9" as -17. */
  lemma ParseIntTruncatesFraction()
    ensures ParseInt("17.9") == Num(17)
    ensures ParseInt("-17.9") == Num(-17)
  {
    FractionOfSeventeen();
    FractionOfMinusSeventeen();
  }

  lemma FractionOfSeventeen()
    ensures ParseInt("17.9") == Num(17)
  {
    TextOfSeventeen();
    ReadsAs("17.9", 17, ".9");
  }

  lemma FractionOfMinusSeventeen()
    ensures ParseInt("-17.9") == Num(-17)
  {
    assert IntegerToString(-17) == "-17";
    ReadsAs("-17.9", -17, ".9");
  }

  /** An exponent is not part of an integer: "1e3" reads as 1. */
  lemma ParseIntIgnoresExponent()
    ensures ParseInt("1e3") == Num(1)
  {
    assert IntegerToString(1) == "1";
    ReadsAs("1e3", 1, "e3");
  }

  lemma TextOfSeventeen()
    ensures IntegerToString(17) == "17"
  {
  }

  /** White space, a sign and a hexadecimal prefix combine: "  -0x1A" reads
      as -26. */
  lemma ParseIntHexadecimal()
    ensures ParseInt("  -0x1A") == Num(-26)
  {
    assert "  -0x1A" == "  " + "-0x1A";
    LeadingWhiteSpaceIgnored("  ", "-0x1A");
    NegativeHex();
  }

  lemma NegativeHex()
    ensures ParseInt("-0x1A") == Num(-26)
  {
    assert "-0x1A" == "-" + "0x1A";
    SignApplies("0x1A");
    HexDigits();
  }

  lemma HexDigits()
    ensures ParseDigits("0x1A") == Num(26)
  {
    assert "0x1A" == ['0', 'x'] + "1A" + [];
    ParseHexDigits('x', "1A", []);
    assert "1A"[..1] == "1";
    assert DigitsValue("1", 16) == 1;
  }

  /** Text with no digit where the digits should start reads as NaN: "abc",
      "0x" (a prefix with nothing after it), "-" and the empty string. */
  lemma ParseIntNaN()
    ensures ParseInt("abc") == NaN && ParseInt("0x") == NaN
    ensures ParseInt("-") == NaN && ParseInt("") == NaN
  {
    LettersAreNaN();
    BarePrefixIsNaN();
    BareSignIsNaN();
    EmptyIsNaN();
  }

  lemma LettersAreNaN()
    ensures ParseInt("abc") == NaN
  {
    NoDigitIsNaN("abc");
  }

  lemma BarePrefixIsNaN()
    ensures ParseInt("0x") == NaN
  {
    NoDigitIsNaN("0x");
  }

  lemma BareSignIsNaN()
    ensures ParseInt("-") == NaN
  {
    NoDigitIsNaN("-");
  }

  lemma EmptyIsNaN()
    ensures ParseInt("") == NaN
  {
    NoDigitIsNaN("");
  }

  /** Text that starts, after no white space, with no digit reads as NaN. */
  lemma NoDigitIsNaN(s: string)
    requires s == [] || !IsWhiteSpace(s[0])
    requires LacksDigits(Unsigned(s))
    ensures ParseInt(s) == NaN
  {
    TrimStartKeeps(s);
  }
}
