/** The global `parseInt(string)` of ECMAScript (section 19.2.5 of ECMA-262), called
    without a radix argument: leading white space is skipped, one sign is accepted, a
    `0x`/`0X` prefix selects radix 16 (otherwise radix 10), and the longest prefix of
    radix digits is read. No digits at all gives NaN, represented here by `None`. */
module JsParseInt {
  import opened Wrappers

  /** A radix that `parseInt` accepts. */
  type Radix = r: int | 2 <= r <= 36 witness 10

  /** The code points TrimString removes: WhiteSpace (section 12.2 of ECMA-262: TAB, VT, FF,
      ZWNBSP and every code point of category Zs) and LineTerminator (section 12.3). */
  predicate IsStrWhiteSpace(c: char) {
    || c == '\t' || c == '\U{000B}' || c == '\U{000C}' || c == '\U{FEFF}'
    || c == ' ' || c == '\U{00A0}' || c == '\U{1680}' || ('\U{2000}' <= c <= '\U{200A}')
    || c == '\U{202F}' || c == '\U{205F}' || c == '\U{3000}'
    || c == '\n' || c == '\r' || c == '\U{2028}' || c == '\U{2029}'
  }

  /** The value of `c` as a digit of radix up to 36 (letters in either case stand for 10..35);
      36 for a code point that is no digit in any radix. */
  function DigitValue(c: char): (d: nat)
    ensures d <= 36
  {
    if '0' <= c <= '9' then c as int - '0' as int
    else if 'a' <= c <= 'z' then c as int - 'a' as int + 10
    else if 'A' <= c <= 'Z' then c as int - 'A' as int + 10
    else 36
  }

  predicate IsRadixDigit(c: char, radix: Radix) {
    DigitValue(c) < radix
  }

  predicate AllRadixDigits(z: string, radix: Radix) {
    forall i :: 0 <= i < |z| ==> IsRadixDigit(z[i], radix)
  }

  predicate AllWhiteSpace(w: string) {
    forall i :: 0 <= i < |w| ==> IsStrWhiteSpace(w[i])
  }

  /** The string with its leading white space removed (TrimString with `start`). */
  function TrimStart(s: string): string {
    if s != [] && IsStrWhiteSpace(s[0]) then TrimStart(s[1..]) else s
  }

  /** TrimStart removes a prefix made only of white space, and the rest does not begin
      with white space. */
  lemma {:induction false} TrimStartSplits(s: string)
    ensures var t := TrimStart(s);
            && |t| <= |s| && s == s[..|s| - |t|] + t
            && AllWhiteSpace(s[..|s| - |t|])
            && (t == [] || !IsStrWhiteSpace(t[0]))
  {
    if s != [] && IsStrWhiteSpace(s[0]) {
      TrimStartSplits(s[1..]);
      var t := TrimStart(s);
      assert s[..|s| - |t|] == [s[0]] + s[1..][..|s| - 1 - |t|];
    }
  }

  /** The longest prefix of `s` made of radix digits. */
  function DigitPrefix(s: string, radix: Radix): string {
    if s != [] && IsRadixDigit(s[0], radix) then [s[0]] + DigitPrefix(s[1..], radix) else []
  }

  /** DigitPrefix is a prefix, all digits, and cannot be made longer. */
  lemma {:induction false} DigitPrefixIsLongest(s: string, radix: Radix)
    ensures var z := DigitPrefix(s, radix);
            && |z| <= |s| && z == s[..|z|]
            && AllRadixDigits(z, radix)
            && (|z| == |s| || !IsRadixDigit(s[|z|], radix))
  {
    if s != [] && IsRadixDigit(s[0], radix) {
      DigitPrefixIsLongest(s[1..], radix);
    }
  }

  function Pow(radix: Radix, e: nat): (p: nat)
    ensures p >= 1
  {
    if e == 0 then 1 else radix * Pow(radix, e - 1)
  }

  /** The integer a string of digits denotes, most significant digit first. */
  function DigitsValue(z: string, radix: Radix): nat {
    if z == [] then 0 else DigitsValue(z[..|z| - 1], radix) * radix + DigitValue(z[|z| - 1])
  }

  /** `k` digits of radix `radix` denote a number below `radix` to the power `k`. */
  lemma {:induction false} DigitsValueBound(z: string, radix: Radix)
    requires AllRadixDigits(z, radix)
    ensures DigitsValue(z, radix) < Pow(radix, |z|)
  {
    if z != [] {
      DigitsValueBound(z[..|z| - 1], radix);
      ShiftBound(DigitsValue(z[..|z| - 1], radix), Pow(radix, |z| - 1), radix, DigitValue(z[|z| - 1]));
    }
  }

  /** Appending one digit to a number below `p` gives a number below `p * radix`. */
  lemma ShiftBound(high: nat, p: nat, radix: Radix, d: nat)
    requires high < p && d < radix
    ensures high * radix + d < p * radix
  {
    MulMonotone(high, p - 1, radix);
    assert (p - 1) * radix == p * radix - radix;
  }

  lemma MulMonotone(a: int, b: int, c: nat)
    requires a <= b
    ensures a * c <= b * c
  {
    assert b * c - a * c == (b - a) * c;
  }

  /** Euclidean division of `n` by a radix it is at least. */
  lemma DivFacts(n: nat, radix: Radix)
    requires n >= radix
    ensures n == (n / radix) * radix + n % radix
    ensures 1 <= n / radix < n && n % radix < radix
  {
    var q, r := n / radix, n % radix;
    assert q * radix == n - r > 0;
    PositiveFactor(q, radix);
    assert q * radix >= q * 2;
  }

  lemma PositiveFactor(q: int, k: int)
    requires k > 0 && q * k > 0
    ensures q > 0
  {
  }

  /** What `parseInt` reads from its argument before it looks at digits: the sign, the radix
      and the text after the sign and the `0x` prefix. */
  datatype Header = Header(negative: bool, radix: Radix, digits: string)

  /** Skips white space, one sign and, when present, the `0x`/`0X` prefix that selects
      radix 16 (steps 2 to 10 of section 19.2.5 of ECMA-262 with radix undefined). */
  function ReadHeader(s: string): Header {
    ReadSignAndPrefix(TrimStart(s))
  }

  /** Steps 3 to 10 on a string whose leading white space is gone. */
  function ReadSignAndPrefix(t: string): Header {
    var negative := t != [] && t[0] == '-';
    var u := if t != [] && (t[0] == '-' || t[0] == '+') then t[1..] else t;
    if |u| >= 2 && u[0] == '0' && (u[1] == 'x' || u[1] == 'X') then Header(negative, 16, u[2..])
    else Header(negative, 10, u)
  }

  /** The signed value of the longest digit prefix; `None` (NaN) when it is empty (steps 11
      to 16). */
  function ReadDigits(h: Header): Option<int> {
    var z := DigitPrefix(h.digits, h.radix);
    if z == [] then None
    else
      var v: int := DigitsValue(z, h.radix);
      Some(if h.negative then -v else v)
  }

  /** `parseInt(s)` with no radix argument; `None` stands for NaN. A result of -0 is
      represented as 0. */
  function ParseInt(s: string): (r: Option<int>)
    ensures r.Some? && r.value != 0 ==> (r.value < 0 <==> ReadHeader(s).negative)
  {
    ReadDigits(ReadHeader(s))
  }

  // ---------------------------------------------------------------------------
  // Rendering integers as digit strings: the partner of ParseInt.

  /** The lower-case digit character for `d`. */
  function DigitChar(d: nat): (c: char)
    requires d < 36
    ensures DigitValue(c) == d
  {
    if d < 10 then ('0' as int + d) as char else ('a' as int + d - 10) as char
  }

  /** The plain positional notation of `n` in the given radix, without leading zeros. */
  function ToDigits(n: nat, radix: Radix): (z: string)
    ensures z != [] && AllRadixDigits(z, radix)
    ensures z[0] == '0' <==> n == 0
    ensures n == 0 ==> z == "0"
  {
    if n < radix then [DigitChar(n)]
    else
      DivFacts(n, radix);
      ToDigits(n / radix, radix) + [DigitChar(n % radix)]
  }

  /** The plain positional decimal notation of `n`, with a leading `-` when negative. */
  function DecimalString(n: int): string {
    if n < 0 then "-" + ToDigits(-n, 10) else ToDigits(n, 10)
  }

  lemma {:induction false} DigitsValueOfToDigits(n: nat, radix: Radix)
    ensures DigitsValue(ToDigits(n, radix), radix) == n
  {
    if n >= radix {
      DivFacts(n, radix);
      var z := ToDigits(n, radix);
      assert z[..|z| - 1] == ToDigits(n / radix, radix);
      DigitsValueOfToDigits(n / radix, radix);
    }
  }

  /** Reading digits stops exactly where the digit string ends. */
  lemma {:induction false} DigitPrefixOfDigits(z: string, rest: string, radix: Radix)
    requires AllRadixDigits(z, radix)
    requires rest == [] || !IsRadixDigit(rest[0], radix)
    ensures DigitPrefix(z + rest, radix) == z
  {
    if z != [] {
      assert (z + rest)[1..] == z[1..] + rest;
      DigitPrefixOfDigits(z[1..], rest, radix);
    } else {
      assert z + rest == rest;
    }
  }

  /** Leading white space is skipped and nothing else is. */
  lemma {:induction false} TrimStartOfWhiteSpace(ws: string, t: string)
    requires AllWhiteSpace(ws)
    requires t == [] || !IsStrWhiteSpace(t[0])
    ensures TrimStart(ws + t) == t
  {
    if ws != [] {
      assert (ws + t)[1..] == ws[1..] + t;
      TrimStartOfWhiteSpace(ws[1..], t);
    } else {
      assert ws + t == t;
    }
  }

  /** The header is read from the first code point that is not white space. */
  lemma ReadHeaderAfterWhiteSpace(ws: string, t: string)
    requires AllWhiteSpace(ws)
    requires t == [] || !IsStrWhiteSpace(t[0])
    ensures ReadHeader(ws + t) == ReadSignAndPrefix(t)
  {
    TrimStartOfWhiteSpace(ws, t);
  }

  /** Leading white space never changes the result. */
  lemma LeadingWhiteSpaceIgnored(ws: string, s: string)
    requires AllWhiteSpace(ws)
    ensures ParseInt(ws + s) == ParseInt(s)
  {
    var t := TrimStart(s);
    TrimStartSplits(s);
    var p := s[..|s| - |t|];
    assert AllWhiteSpace(ws + p) by {
      forall i | 0 <= i < |ws + p| ensures IsStrWhiteSpace((ws + p)[i]) {
        if i < |ws| { assert (ws + p)[i] == ws[i]; } else { assert (ws + p)[i] == p[i - |ws|]; }
      }
    }
    assert ws + s == (ws + p) + t;
    ReadHeaderAfterWhiteSpace(ws + p, t);
  }

  /** An optional `-` before text that starts with a decimal digit and not with `0x`/`0X`
      is read in radix 10. */
  lemma SignAndPrefixOfDecimal(negative: bool, u: string)
    requires u != [] && IsRadixDigit(u[0], 10)
    requires !(|u| >= 2 && u[0] == '0' && (u[1] == 'x' || u[1] == 'X'))
    ensures ReadSignAndPrefix(if negative then "-" + u else u) == Header(negative, 10, u)
  {
    if negative {
      assert ("-" + u)[1..] == u;
    }
  }

  /** Round trip: the decimal text of any integer, after any white space and before any
      text that cannot continue the number, parses back to that integer. */
  lemma DecimalRoundTrip(ws: string, n: int, rest: string)
    requires AllWhiteSpace(ws)
    requires rest == [] || !IsRadixDigit(rest[0], 10)
    requires n == 0 && rest != [] ==> rest[0] != 'x' && rest[0] != 'X'
    ensures ParseInt(ws + DecimalString(n) + rest) == Some(n)
  {
    var m := if n < 0 then -n else n;
    var z := ToDigits(m, 10);
    var u := z + rest;
    var t := if n < 0 then "-" + u else u;
    assert ws + DecimalString(n) + rest == ws + t;
    assert ReadHeader(ws + t) == Header(n < 0, 10, u) by {
      assert u[0] == z[0];
      assert |u| >= 2 && u[0] == '0' ==> z == "0" && u[1] == rest[0];
      SignAndPrefixOfDecimal(n < 0, u);
      assert t[0] == '-' || IsRadixDigit(t[0], 10);
      ReadHeaderAfterWhiteSpace(ws, t);
    }
    assert DigitPrefix(u, 10) == z by { DigitPrefixOfDigits(z, rest, 10); }
    assert DigitsValue(z, 10) == m by { DigitsValueOfToDigits(m, 10); }
  }

  /** Round trip in radix 16: `0x` or `0X` followed by the hexadecimal digits of `n`. */
  lemma HexRoundTrip(ws: string, n: nat, rest: string, upper: bool)
    requires AllWhiteSpace(ws)
    requires rest == [] || !IsRadixDigit(rest[0], 16)
    ensures ParseInt(ws + (if upper then "0X" else "0x") + ToDigits(n, 16) + rest) == Some(n)
  {
    var z := ToDigits(n, 16);
    var u := (if upper then "0X" else "0x") + z + rest;
    assert ws + (if upper then "0X" else "0x") + z + rest == ws + u;
    assert ReadHeader(ws + u) == Header(false, 16, z + rest) by {
      assert u[0] == '0' && u[1] == (if upper then 'X' else 'x');
      assert u[2..] == z + rest;
      ReadHeaderAfterWhiteSpace(ws, u);
    }
    assert DigitPrefix(z + rest, 16) == z by { DigitPrefixOfDigits(z, rest, 16); }
    assert DigitsValue(z, 16) == n by { DigitsValueOfToDigits(n, 16); }
  }

  /** A `-` sign negates whatever the rest parses to (NaN stays NaN). */
  lemma MinusNegates(s: string)
    requires s == [] || (s[0] != '-' && s[0] != '+' && !IsStrWhiteSpace(s[0]))
    ensures ParseInt("-" + s) == match ParseInt(s) case None => None case Some(v) => Some(-v)
  {
    var t := "-" + s;
    assert ReadHeader(t) == ReadHeader(s).(negative := true) by {
      assert t[0] == '-' && t[1..] == s;
      assert [] + t == t && [] + s == s;
      ReadHeaderAfterWhiteSpace([], t);
      ReadHeaderAfterWhiteSpace([], s);
    }
  }

  /** A `+` sign leaves whatever the rest parses to unchanged. */
  lemma PlusIgnored(s: string)
    requires s == [] || (s[0] != '-' && s[0] != '+' && !IsStrWhiteSpace(s[0]))
    ensures ParseInt("+" + s) == ParseInt(s)
  {
    var t := "+" + s;
    assert ReadHeader(t) == ReadHeader(s) by {
      assert t[0] == '+' && t[1..] == s;
      assert [] + t == t && [] + s == s;
      ReadHeaderAfterWhiteSpace([], t);
      ReadHeaderAfterWhiteSpace([], s);
    }
  }

  /** The magnitude of a parsed value is below the radix to the power of the number of
      digits read; so with at most 308 decimal digits a result stays below 10^308, and with
      at most 255 hexadecimal digits below 16^255 = 2^1020, under the largest finite double
      (about 1.8 * 10^308). */
  lemma ParseIntMagnitude(s: string)
    requires ParseInt(s).Some?
    ensures var h := ReadHeader(s);
            var bound: int := Pow(h.radix, |DigitPrefix(h.digits, h.radix)|);
            -bound < ParseInt(s).value < bound
  {
    var h := ReadHeader(s);
    DigitPrefixIsLongest(h.digits, h.radix);
    DigitsValueBound(DigitPrefix(h.digits, h.radix), h.radix);
  }

  /** NaN exactly when, after white space and one sign, the text does not begin with a
      decimal digit, or begins with `0x`/`0X` not followed by a hexadecimal digit. */
  lemma NaNExactly(s: string)
    ensures ParseInt(s).None? <==>
      var t := TrimStart(s);
      var u := if t != [] && (t[0] == '-' || t[0] == '+') then t[1..] else t;
      || u == [] || !IsRadixDigit(u[0], 10)
      || (|u| >= 2 && u[0] == '0' && (u[1] == 'x' || u[1] == 'X') && (|u| == 2 || !IsRadixDigit(u[2], 16)))
  {
  }

  /** A fractional part is not read: `parseInt("3.9")` is 3. */
  lemma FractionIsCut()
    ensures ParseInt("3.9") == Some(3)
  {
    assert "3.9" == [] + DecimalString(3) + ".9";
    DecimalRoundTrip([], 3, ".9");
  }

  /** `parseInt("-4")` is -4. */
  lemma NegativeNumber()
    ensures ParseInt("-4") == Some(-4)
  {
    assert "-4" == [] + DecimalString(-4) + [];
    DecimalRoundTrip([], -4, []);
  }

  /** `parseInt("0x10")` is 16: the prefix switches to radix 16. */
  lemma HexPrefix()
    ensures ParseInt("0x10") == Some(16)
  {
    assert ToDigits(16, 16) == "10";
    assert "0x10" == [] + "0x" + ToDigits(16, 16) + [];
    HexRoundTrip([], 16, [], false);
  }

  /** Text that starts with a code point that is neither white space, a sign nor a decimal
      digit is NaN. */
  lemma NonDigitStartIsNaN(s: string)
    requires s != [] && !IsStrWhiteSpace(s[0]) && !IsRadixDigit(s[0], 10)
    requires s[0] != '-' && s[0] != '+'
    ensures ParseInt(s) == None
  {
    assert ReadHeader(s) == Header(false, 10, s) by {
      assert [] + s == s;
      ReadHeaderAfterWhiteSpace([], s);
    }
  }

  /** `parseInt("abc")` is NaN. */
  lemma LettersAreNaN()
    ensures ParseInt("abc") == None
  {
    NonDigitStartIsNaN("abc");
  }

  /** The empty string is NaN. */
  lemma EmptyIsNaN()
    ensures ParseInt("") == None
  {
  }

  /** A sign alone is NaN. */
  lemma SignAloneIsNaN()
    ensures ParseInt("-") == None
  {
    assert ReadHeader("-") == Header(true, 10, "") by {
      assert TrimStart("-") == "-";
      assert ReadSignAndPrefix("-") == Header(true, 10, "");
    }
  }

  /** The bare prefix `0x` is NaN, whereas `"0"` alone is 0. */
  lemma BarePrefixIsNaN()
    ensures ParseInt("0x") == None
  {
    assert ReadHeader("0x") == Header(false, 16, "") by {
      assert TrimStart("0x") == "0x";
      assert ReadSignAndPrefix("0x") == Header(false, 16, "");
    }
    assert ReadDigits(Header(false, 16, "")) == None;
  }
}
