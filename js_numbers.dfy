/** The JavaScript number conversions the game relies on: parseInt (for the typed answer), Number()
    (for the dice faces) and the decimal toString of a non-negative integer below 10^21, where
    JavaScript does not yet switch to exponent notation (for the committed message). Only integer values and NaN are represented. */
module JsNumbers {
  import opened JsStrings

  /** A JavaScript number as far as the game needs one: NaN or an integer. */
  datatype JsNumber = NaN | Num(value: int)

  /** 2^53: every integer of at most this magnitude is an exact double; beyond it JavaScript rounds. */
  const ExactLimit: int := 0x20_0000_0000_0000

  /** The value of `c` as a digit of base 36 ('0'-'9', then 'a'-'z' or 'A'-'Z'); 36 for any other character. */
  function DigitValue(c: char): (v: nat)
    ensures v <= 36
    ensures v < 10 <==> '0' <= c <= '9'
  {
    if '0' <= c <= '9' then c as int - '0' as int
    else if 'a' <= c <= 'z' then c as int - 'a' as int + 10
    else if 'A' <= c <= 'Z' then c as int - 'A' as int + 10
    else 36
  }

  predicate IsDigit(c: char, radix: nat) {
    DigitValue(c) < radix
  }

  predicate AllDigits(s: string, radix: nat) {
    forall i :: 0 <= i < |s| ==> IsDigit(s[i], radix)
  }

  /** The longest prefix of `s` made of digits of `radix`. */
  function DigitPrefix(s: string, radix: nat): (p: string)
    ensures |p| <= |s| && p == s[..|p|]
    ensures AllDigits(p, radix)
    ensures |p| < |s| ==> !IsDigit(s[|p|], radix)
  {
    if |s| > 0 && IsDigit(s[0], radix) then [s[0]] + DigitPrefix(s[1..], radix) else ""
  }

  /** The value of a string of digits of `radix`, most significant digit first. */
  function DigitsValue(s: string, radix: nat): nat {
    if |s| == 0 then 0 else DigitsValue(s[..|s| - 1], radix) * radix + DigitValue(s[|s| - 1])
  }

  /** parseInt(s) with no radix (ECMAScript section 19.2.5): skip leading white space, take an
      optional sign, switch to base 16 after a "0x" or "0X" prefix, read the longest run of digits
      and ignore whatever follows; no digits at all gives NaN. "-0" reads as 0, which is -0 in
      JavaScript and compares like 0. */
  function ParseInt(s: string): (r: JsNumber)
    ensures r.Num? ==> |TrimStart(s)| > 0
    ensures r.Num? && r.value < 0 ==> TrimStart(s)[0] == '-'
  {
    ParseSigned(TrimStart(s))
  }

  function ParseSigned(t: string): (r: JsNumber)
    ensures r.Num? ==> |t| > 0
    ensures r.Num? && r.value < 0 ==> t[0] == '-'
  {
    if |t| > 0 && t[0] == '-' then Negate(ParseMagnitude(t[1..]))
    else if |t| > 0 && t[0] == '+' then ParseMagnitude(t[1..])
    else ParseMagnitude(t)
  }

  function ParseMagnitude(u: string): (r: JsNumber)
    ensures r.Num? ==> |u| > 0 && r.value >= 0
  {
    if |u| >= 2 && u[0] == '0' && (u[1] == 'x' || u[1] == 'X') then DigitRun(u[2..], 16)
    else DigitRun(u, 10)
  }

  function DigitRun(v: string, radix: nat): (r: JsNumber)
    ensures r.Num? ==> |v| > 0 && r.value >= 0
  {
    var d := DigitPrefix(v, radix);
    if |d| == 0 then NaN else Num(DigitsValue(d, radix))
  }

  /** A parsed magnitude with parseInt's optional sign in front: negated after '-'. */
  function ApplySign(sign: string, m: JsNumber): (r: JsNumber)
    ensures r.NaN? <==> m.NaN?
    ensures m.Num? ==> r.value == if sign == "-" then -m.value else m.value
  {
    if sign == "-" then Negate(m) else m
  }

  function Negate(x: JsNumber): JsNumber {
    match x
    case NaN => NaN
    case Num(v) => Num(-v)
  }

  /** Number(s) for the literals the dice use (ECMAScript section 7.1.4.1.1): surrounding white
      space is ignored, a blank string is 0, a decimal integer may carry a sign, and an unsigned
      "0x", "0o" or "0b" literal is read in base 16, 8 or 2. Every other string is NaN here. */
  function ToNumber(s: string): (r: JsNumber)
    ensures r.Num? && r.value < 0 ==> |Trim(s)| > 0 && Trim(s)[0] == '-'
    ensures |Trim(s)| > 0 && !IsDigit(Trim(s)[0], 10) && Trim(s)[0] != '-' && Trim(s)[0] != '+' ==> r == NaN
  {
    var t := Trim(s);
    if |t| == 0 then Num(0)
    else if IsRadixPrefixed(t) then RadixLiteral(t)
    else SignedDecimal(t)
  }

  /** "0x", "0o" or "0b" in either case. */
  predicate IsRadixPrefixed(t: string) {
    |t| >= 2 && t[0] == '0' && t[1] in "xXoObB"
  }

  /** The base a Number() literal prefix letter selects. */
  function PrefixRadix(c: char): nat {
    if c in "xX" then 16 else if c in "oO" then 8 else 2
  }

  /** An unsigned literal in base 16, 8 or 2 after its prefix. */
  function RadixLiteral(t: string): (r: JsNumber)
    requires IsRadixPrefixed(t)
    ensures r.Num? ==> r.value >= 0
  {
    var radix := PrefixRadix(t[1]);
    var u := t[2..];
    if |u| > 0 && AllDigits(u, radix) then Num(DigitsValue(u, radix)) else NaN
  }

  /** A decimal integer literal with an optional sign. */
  function SignedDecimal(t: string): (r: JsNumber)
    requires |t| > 0
    ensures r.Num? && r.value < 0 ==> t[0] == '-'
    ensures !IsDigit(t[0], 10) && t[0] != '-' && t[0] != '+' ==> r == NaN
  {
    var u := if t[0] == '-' || t[0] == '+' then t[1..] else t;
    if |u| > 0 && AllDigits(u, 10) then
      var v: int := DigitsValue(u, 10);
      Num(if t[0] == '-' then -v else v)
    else NaN
  }

  function DigitChar(d: nat): (c: char)
    requires d < 10
    ensures DigitValue(c) == d
  {
    ('0' as int + d) as char
  }

  /** The decimal text of a non-negative integer, without leading zeros: what `n.toString()` gives
      for the numbers below 10^21 that the game turns into text. */
  function Decimal(n: nat): (s: string)
    ensures |s| >= 1 && AllDigits(s, 10)
    ensures |s| == 1 <==> n < 10
    ensures n > 0 ==> s[0] != '0'
  {
    if n < 10 then [DigitChar(n)] else Decimal(n / 10) + [DigitChar(n % 10)]
  }

  /** The decimal text of an integer, with a '-' in front of a negative one. */
  function IntToString(x: int): (s: string)
    ensures |s| >= 1 && (s[0] == '-' <==> x < 0)
    ensures AllDigits(if x < 0 then s[1..] else s, 10)
  {
    if x < 0 then "-" + Decimal(-x) else Decimal(x)
  }

  /** Reading the decimal digits of `n` back gives `n`. */
  lemma {:induction false} DecimalValue(n: nat)
    ensures DigitsValue(Decimal(n), 10) == n
  {
    if n >= 10 {
      DecimalValue(n / 10);
      var s := Decimal(n);
      assert s[..|s| - 1] == Decimal(n / 10);
    }
  }

  /** The longest digit run of a digit string followed by a non-digit is that digit string. */
  lemma {:induction false} DigitPrefixOfDigits(d: string, rest: string, radix: nat)
    requires AllDigits(d, radix)
    requires |rest| == 0 || !IsDigit(rest[0], radix)
    ensures DigitPrefix(d + rest, radix) == d
    decreases |d|
  {
    if |d| > 0 {
      assert (d + rest)[1..] == d[1..] + rest;
      DigitPrefixOfDigits(d[1..], rest, radix);
      assert d == [d[0]] + d[1..];
    } else {
      assert d + rest == rest;
    }
  }

  /** parseInt reads the longest run of decimal digits after leading white space and an optional
      sign and ignores whatever follows the run, leading zeros included; only "0" directly followed
      by "x" or "X" starts a hexadecimal numeral instead. */
  lemma ParseIntDigits(ws: string, sign: string, d: string, rest: string)
    requires forall i :: 0 <= i < |ws| ==> IsJsSpace(ws[i])
    requires sign == "" || sign == "+" || sign == "-"
    requires |d| > 0 && AllDigits(d, 10)
    requires |rest| == 0 || !IsDigit(rest[0], 10)
    requires d == "0" && |rest| > 0 ==> rest[0] != 'x' && rest[0] != 'X'
    ensures ParseInt(ws + (sign + (d + rest))) == ApplySign(sign, Num(DigitsValue(d, 10)))
  {
    MagnitudeOfDigits(d, rest);
    ParseIntOf(ws, sign, d + rest, Num(DigitsValue(d, 10)));
  }

  /** parseInt of "0x" or "0X", after white space and a sign, reads the longest run of hex digits
      that follows; with no hex digit at all it gives NaN. */
  lemma ParseIntHex(ws: string, sign: string, x: char, h: string, rest: string)
    requires forall i :: 0 <= i < |ws| ==> IsJsSpace(ws[i])
    requires sign == "" || sign == "+" || sign == "-"
    requires x == 'x' || x == 'X'
    requires AllDigits(h, 16)
    requires |rest| == 0 || !IsDigit(rest[0], 16)
    ensures ParseInt(ws + (sign + (['0', x] + (h + rest))))
         == if |h| == 0 then NaN else ApplySign(sign, Num(DigitsValue(h, 16)))
  {
    HexMagnitude(x, h, rest);
    if |h| == 0 {
      ParseIntOf(ws, sign, ['0', x] + (h + rest), NaN);
    } else {
      ParseIntOf(ws, sign, ['0', x] + (h + rest), Num(DigitsValue(h, 16)));
    }
  }

  /** The same numeral as ParseIntDigits, written by n.toString(). */
  lemma ParseIntNumeral(ws: string, sign: string, n: nat, rest: string)
    requires forall i :: 0 <= i < |ws| ==> IsJsSpace(ws[i])
    requires sign == "" || sign == "+" || sign == "-"
    requires |rest| == 0 || !IsDigit(rest[0], 10)
    requires n == 0 && |rest| > 0 ==> rest[0] != 'x' && rest[0] != 'X'
    ensures ParseInt(ws + (sign + (Decimal(n) + rest))) == Num(if sign == "-" then -(n as int) else n)
  {
    DecimalValue(n);
    assert Decimal(n) == "0" ==> n == 0;
    ParseIntDigits(ws, sign, Decimal(n), rest);
  }

  /** parseInt skips the white space and applies the sign to what the magnitude reads. */
  lemma ParseIntOf(ws: string, sign: string, u: string, m: JsNumber)
    requires forall i :: 0 <= i < |ws| ==> IsJsSpace(ws[i])
    requires sign == "" || sign == "+" || sign == "-"
    requires |u| > 0 && IsDigit(u[0], 10) && ParseMagnitude(u) == m
    ensures ParseInt(ws + (sign + u)) == ApplySign(sign, m)
  {
    var body := sign + u;
    assert TrimStart(ws + body) == body by {
      assert body[0] == if sign == "" then u[0] else sign[0];
      TrimStartSkips(ws, body);
    }
    SignedOf(sign, u);
  }

  /** parseInt's optional sign in front of a run of digits. */
  lemma SignedOf(sign: string, u: string)
    requires sign == "" || sign == "+" || sign == "-"
    requires |u| > 0 && IsDigit(u[0], 10)
    ensures ParseSigned(sign + u) == if sign == "-" then Negate(ParseMagnitude(u)) else ParseMagnitude(u)
  {
    if sign == "" {
      assert sign + u == u;
    } else {
      assert (sign + u)[0] == sign[0] && (sign + u)[1..] == u;
    }
  }

  /** The converse of ParseIntDigits: when no decimal digit follows the leading white space and
      the optional sign, parseInt gives NaN, so the answer is refused. */
  lemma NoNumeralIsNaN(ws: string, sign: string, rest: string)
    requires forall i :: 0 <= i < |ws| ==> IsJsSpace(ws[i])
    requires sign == "" || sign == "+" || sign == "-"
    requires |rest| == 0 || !IsDigit(rest[0], 10)
    requires sign == "" && |rest| > 0 ==> !IsJsSpace(rest[0]) && rest[0] != '+' && rest[0] != '-'
    ensures ParseInt(ws + (sign + rest)) == NaN
  {
    var body := sign + rest;
    assert ParseMagnitude(rest) == NaN by {
      assert |rest| > 0 ==> rest[0] != '0';
      assert DigitPrefix(rest, 10) == "";
    }
    assert ParseSigned(body) == NaN by {
      if sign == "" {
        assert body == rest;
      } else {
        assert body[0] == sign[0] && body[1..] == rest;
      }
    }
    assert TrimStart(ws + body) == body by {
      assert sign != "" ==> body[0] == sign[0];
      TrimStartSkips(ws, body);
    }
  }

  /** The digits of a decimal numeral, as parseInt reads them after the sign. */
  lemma MagnitudeOfDigits(d: string, rest: string)
    requires |d| > 0 && AllDigits(d, 10)
    requires |rest| == 0 || !IsDigit(rest[0], 10)
    requires d == "0" && |rest| > 0 ==> rest[0] != 'x' && rest[0] != 'X'
    ensures |d + rest| > 0 && IsDigit((d + rest)[0], 10)
    ensures ParseMagnitude(d + rest) == Num(DigitsValue(d, 10))
  {
    var u := d + rest;
    assert u[0] == d[0];
    if |d| >= 2 {
      assert u[1] == d[1] && IsDigit(d[1], 10);
    } else if |rest| > 0 {
      assert d == [d[0]] && u[1] == rest[0];
    }
    assert !(|u| >= 2 && u[0] == '0' && (u[1] == 'x' || u[1] == 'X'));
    DigitPrefixOfDigits(d, rest, 10);
  }

  /** The hex digits after "0x", as parseInt reads them after the sign. */
  lemma HexMagnitude(x: char, h: string, rest: string)
    requires x == 'x' || x == 'X'
    requires AllDigits(h, 16)
    requires |rest| == 0 || !IsDigit(rest[0], 16)
    ensures |['0', x] + (h + rest)| > 0 && IsDigit((['0', x] + (h + rest))[0], 10)
    ensures ParseMagnitude(['0', x] + (h + rest)) == if |h| == 0 then NaN else Num(DigitsValue(h, 16))
  {
    var u := ['0', x] + (h + rest);
    assert u[0] == '0' && u[1] == x && u[2..] == h + rest;
    DigitPrefixOfDigits(h, rest, 16);
  }

  /** The decimal text of `n` parses back to `n`. */
  lemma DecimalParses(n: nat)
    ensures ParseInt(Decimal(n)) == Num(n)
  {
    ParseIntNumeral("", "", n, "");
    assert "" + ("" + (Decimal(n) + "")) == Decimal(n);
  }

  /** Different numbers have different decimal texts. */
  lemma DecimalInjective(m: nat, n: nat)
    requires Decimal(m) == Decimal(n)
    ensures m == n
  {
    DecimalParses(m);
    DecimalParses(n);
  }

  /** Number() reads back the decimal text of any integer it represents exactly. */
  lemma ToNumberOfIntToString(x: int)
    requires -ExactLimit <= x <= ExactLimit
    ensures ToNumber(IntToString(x)) == Num(x)
  {
    IntToStringIsPlain(x);
    SignedDecimalOfIntToString(x);
  }

  /** The decimal text of an integer has no surrounding white space and no radix prefix. */
  lemma IntToStringIsPlain(x: int)
    ensures Trim(IntToString(x)) == IntToString(x)
    ensures !IsRadixPrefixed(IntToString(x))
  {
    var t := IntToString(x);
    assert !IsJsSpace(t[0]) && !IsJsSpace(t[|t| - 1]);
    TrimUnchanged(t);
    assert x >= 0 ==> |t| >= 2 ==> IsDigit(t[1], 10);
  }

  lemma SignedDecimalOfIntToString(x: int)
    ensures SignedDecimal(IntToString(x)) == Num(x)
  {
    var t := IntToString(x);
    if x < 0 {
      assert t[0] == '-' && t[1..] == Decimal(-x);
      DecimalValue(-x);
    } else {
      assert t == Decimal(x) && IsDigit(t[0], 10);
      DecimalValue(x);
    }
  }

  /** Number() of a dice field: surrounding white space is ignored, and an optionally signed run
      of decimal digits, leading zeros included, reads as its value. */
  lemma ToNumberField(ws1: string, sign: string, d: string, ws2: string)
    requires forall i :: 0 <= i < |ws1| ==> IsJsSpace(ws1[i])
    requires forall i :: 0 <= i < |ws2| ==> IsJsSpace(ws2[i])
    requires sign == "" || sign == "+" || sign == "-"
    requires |d| > 0 && AllDigits(d, 10)
    ensures ToNumber(ws1 + (sign + d) + ws2)
         == Num(if sign == "-" then -(DigitsValue(d, 10) as int) else DigitsValue(d, 10))
  {
    TrimSignedDigits(ws1, sign, d, ws2);
    SignedDigitsArePlain(sign, d);
    SignedDecimalOf(sign, d);
    NumberOfTrimmed(ws1 + (sign + d) + ws2, sign + d);
  }

  lemma TrimSignedDigits(ws1: string, sign: string, d: string, ws2: string)
    requires forall i :: 0 <= i < |ws1| ==> IsJsSpace(ws1[i])
    requires forall i :: 0 <= i < |ws2| ==> IsJsSpace(ws2[i])
    requires sign == "" || sign == "+" || sign == "-"
    requires |d| > 0 && AllDigits(d, 10)
    ensures Trim(ws1 + (sign + d) + ws2) == sign + d
  {
    var body := sign + d;
    assert body[0] == if sign == "" then d[0] else sign[0];
    assert body[|body| - 1] == d[|d| - 1];
    TrimAround(ws1, body, ws2);
  }

  /** A signed decimal literal does not look like a "0x", "0o" or "0b" literal. */
  lemma SignedDigitsArePlain(sign: string, d: string)
    requires sign == "" || sign == "+" || sign == "-"
    requires |d| > 0 && AllDigits(d, 10)
    ensures |sign + d| > 0 && !IsRadixPrefixed(sign + d)
  {
    var body := sign + d;
    if sign == "" && |d| >= 2 {
      assert body[1] == d[1] && IsDigit(d[1], 10);
    } else if sign != "" {
      assert body[0] == sign[0];
    }
  }

  /** Number() of a text whose trimmed form is a decimal literal. */
  lemma NumberOfTrimmed(s: string, t: string)
    requires Trim(s) == t && |t| > 0 && !IsRadixPrefixed(t)
    ensures ToNumber(s) == SignedDecimal(t)
  {
  }

  /** Number() of white space, a decimal literal with non-space ends, and white space. */
  lemma NumberOfSpaced(ws1: string, t: string, ws2: string)
    requires forall i :: 0 <= i < |ws1| ==> IsJsSpace(ws1[i])
    requires forall i :: 0 <= i < |ws2| ==> IsJsSpace(ws2[i])
    requires |t| > 0 && !IsJsSpace(t[0]) && !IsJsSpace(t[|t| - 1]) && !IsRadixPrefixed(t)
    ensures ToNumber(ws1 + t + ws2) == SignedDecimal(t)
  {
    TrimAround(ws1, t, ws2);
    NumberOfTrimmed(ws1 + t + ws2, t);
  }

  /** A decimal literal with an optional sign, once trimmed. */
  lemma SignedDecimalOf(sign: string, d: string)
    requires sign == "" || sign == "+" || sign == "-"
    requires |d| > 0 && AllDigits(d, 10)
    ensures SignedDecimal(sign + d) == Num(if sign == "-" then -(DigitsValue(d, 10) as int) else DigitsValue(d, 10))
  {
    SignedDecimalParts(sign, d);
  }

  /** SignedDecimal reads an optional sign and then requires a non-empty run of decimal digits. */
  lemma SignedDecimalParts(sign: string, u: string)
    requires sign == "" || sign == "+" || sign == "-"
    requires |sign + u| > 0
    requires sign == "" ==> u[0] != '-' && u[0] != '+'
    ensures SignedDecimal(sign + u)
         == if |u| > 0 && AllDigits(u, 10) then Num(if sign == "-" then -(DigitsValue(u, 10) as int) else DigitsValue(u, 10))
            else NaN
  {
    var t := sign + u;
    if sign == "" {
      assert t == u;
    } else {
      assert t[0] == sign[0] && t[1..] == u;
    }
  }

  /** Number() of a "0x", "0o" or "0b" field (either case): the digits of that base that follow,
      and NaN when nothing or anything else follows. */
  lemma ToNumberPrefixed(ws1: string, p: char, u: string, ws2: string)
    requires forall i :: 0 <= i < |ws1| ==> IsJsSpace(ws1[i])
    requires forall i :: 0 <= i < |ws2| ==> IsJsSpace(ws2[i])
    requires p in "xXoObB"
    requires |u| == 0 || !IsJsSpace(u[|u| - 1])
    ensures ToNumber(ws1 + (['0', p] + u) + ws2)
         == if |u| > 0 && AllDigits(u, PrefixRadix(p)) then Num(DigitsValue(u, PrefixRadix(p))) else NaN
  {
    var body := ['0', p] + u;
    assert Trim(ws1 + body + ws2) == body by {
      assert body[0] == '0' && body[|body| - 1] == if |u| == 0 then p else u[|u| - 1];
      TrimAround(ws1, body, ws2);
    }
    assert IsRadixPrefixed(body) && body[1] == p && body[2..] == u;
  }

  /** The converse of ToNumberField and ToNumberPrefixed: a field whose trimmed text is neither an
      optionally signed run of decimal digits nor a "0x", "0o" or "0b" literal ("12abc", "-", "1 2",
      "-0x1") converts to NaN. */
  lemma ToNumberOtherIsNaN(ws1: string, t: string, ws2: string)
    requires forall i :: 0 <= i < |ws1| ==> IsJsSpace(ws1[i])
    requires forall i :: 0 <= i < |ws2| ==> IsJsSpace(ws2[i])
    requires |t| > 0 && !IsJsSpace(t[0]) && !IsJsSpace(t[|t| - 1]) && !IsRadixPrefixed(t)
    requires forall sign: string, d: string ::
               (sign == "" || sign == "+" || sign == "-") && |d| > 0 && AllDigits(d, 10) ==> t != sign + d
    ensures ToNumber(ws1 + t + ws2) == NaN
  {
    NumberOfSpaced(ws1, t, ws2);
    var signed := t[0] == '-' || t[0] == '+';
    var sign := if signed then t[..1] else "";
    var u := if signed then t[1..] else t;
    assert t == sign + u;
    SignedDecimalParts(sign, u);
  }

  /** A blank dice field reads as 0, not NaN. */
  lemma BlankFieldIsZero(s: string)
    requires forall i :: 0 <= i < |s| ==> IsJsSpace(s[i])
    ensures ToNumber(s) == Num(0)
  {
    TrimStartSkips(s, "");
    assert s + "" == s;
  }
}
