/**
 * The two conversions between numbers and strings that the friend list relies on:
 * JavaScript's global `parseInt(string)` with no radix argument (ECMAScript,
 * section 19.2.5 "parseInt ( string, radix )") and `Number.prototype.toString()`
 * on a non-negative integer.
 *
 * `parseInt` skips leading white space, reads an optional sign, switches to radix 16
 * after a `0x`/`0X` prefix, then reads the longest run of digits of the radix.
 * No digits gives NaN, written `None` here.
 */
module JsParseInt {
  import opened Wrappers

  /** StrWhiteSpaceChar of ECMAScript: WhiteSpace (including Unicode Zs) or LineTerminator. */
  predicate IsJsWhitespace(c: char) {
    var k := c as int;
    k == 0x09 || k == 0x0A || k == 0x0B || k == 0x0C || k == 0x0D || k == 0x20 || k == 0xA0
    || k == 0x1680 || (0x2000 <= k <= 0x200A) || k == 0x2028 || k == 0x2029 || k == 0x202F
    || k == 0x205F || k == 0x3000 || k == 0xFEFF
  }

  /** The value of `c` as a digit in any radix up to 16, or 16 when `c` is no such digit. */
  function DigitValue(c: char): (d: nat)
    ensures d <= 16
  {
    if '0' <= c <= '9' then c as nat - '0' as nat
    else if 'a' <= c <= 'f' then c as nat - 'a' as nat + 10
    else if 'A' <= c <= 'F' then c as nat - 'A' as nat + 10
    else 16
  }

  /** A digit of `radix` (10 or 16 here). */
  predicate IsRadixDigit(c: char, radix: nat) {
    DigitValue(c) < radix
  }

  predicate IsDecimalDigit(c: char) {
    IsRadixDigit(c, 10)
  }

  predicate AllRadixDigits(s: string, radix: nat) {
    forall i :: 0 <= i < |s| ==> IsRadixDigit(s[i], radix)
  }

  /** TrimString(s, start): `s` without its leading white space. */
  function TrimStart(s: string): string {
    if |s| > 0 && IsJsWhitespace(s[0]) then TrimStart(s[1..]) else s
  }

  /** The longest prefix of `s` made of digits of `radix`. */
  function DigitPrefix(s: string, radix: nat): string {
    if |s| == 0 || !IsRadixDigit(s[0], radix) then [] else [s[0]] + DigitPrefix(s[1..], radix)
  }

  /** The number that the digit string `z` denotes in `radix`, most significant digit first. */
  function Value(z: string, radix: nat): nat {
    if |z| == 0 then 0 else Value(z[..|z| - 1], radix) * radix + DigitValue(z[|z| - 1])
  }

  predicate HasHexPrefix(u: string) {
    |u| >= 2 && u[0] == '0' && (u[1] == 'x' || u[1] == 'X')
  }

  /** What `parseInt` reads after the sign: a hexadecimal number after `0x`/`0X`, else a decimal one. */
  function ParseUnsigned(u: string): Option<nat> {
    var hex := HasHexPrefix(u);
    var radix := if hex then 16 else 10;
    var z := DigitPrefix(if hex then u[2..] else u, radix);
    if z == [] then None else Some(Value(z, radix))
  }

  function ApplySign(negative: bool, r: Option<nat>): Option<int> {
    match r
    case None => None
    case Some(v) => if negative then Some(0 - v) else Some(v)
  }

  /** `parseInt(s)`: `None` is NaN. A minus sign on a zero gives -0, which is 0 here. */
  function ParseInt(s: string): (r: Option<int>)
    ensures TrimStart(s) == [] ==> r == None
    ensures r.Some? && r.value < 0 ==> |TrimStart(s)| > 0 && TrimStart(s)[0] == '-'
  {
    var t := TrimStart(s);
    var unsigned := if |t| > 0 && (t[0] == '-' || t[0] == '+') then t[1..] else t;
    ApplySign(|t| > 0 && t[0] == '-', ParseUnsigned(unsigned))
  }

  /** `(n).toString()` for a non-negative integer: decimal digits without leading zeros. */
  function NatToString(n: nat): (s: string)
    ensures |s| > 0 && AllRadixDigits(s, 10)
    ensures Value(s, 10) == n
    ensures n > 0 ==> s[0] != '0'
  {
    var last := ['0' + (n % 10) as char];
    if n < 10 then last
    else
      var s := NatToString(n / 10) + last;
      assert s[..|s| - 1] == NatToString(n / 10);
      s
  }

  /** `TrimStart` removes exactly the leading white space. */
  lemma {:induction false} TrimStartSkips(ws: string, x: string)
    requires forall i :: 0 <= i < |ws| ==> IsJsWhitespace(ws[i])
    requires x == [] || !IsJsWhitespace(x[0])
    ensures TrimStart(ws + x) == x
  {
    if ws == [] {
      assert ws + x == x;
    } else {
      assert (ws + x)[1..] == ws[1..] + x;
      TrimStartSkips(ws[1..], x);
    }
  }

  lemma {:induction false} TrimStartSkipsWhitespace(ws: string, s: string)
    requires forall i :: 0 <= i < |ws| ==> IsJsWhitespace(ws[i])
    ensures TrimStart(ws + s) == TrimStart(s)
  {
    if ws == [] {
      assert ws + s == s;
    } else {
      assert (ws + s)[1..] == ws[1..] + s;
      TrimStartSkipsWhitespace(ws[1..], s);
    }
  }

  /** `DigitPrefix` stops at the first character that is not a digit of the radix. */
  lemma {:induction false} DigitPrefixStops(z: string, rest: string, radix: nat)
    requires AllRadixDigits(z, radix)
    requires rest == [] || !IsRadixDigit(rest[0], radix)
    ensures DigitPrefix(z + rest, radix) == z
  {
    if z == [] {
      assert z + rest == rest;
    } else {
      assert (z + rest)[1..] == z[1..] + rest;
      DigitPrefixStops(z[1..], rest, radix);
    }
  }

  lemma ParseUnsignedDecimal(z: string, rest: string)
    requires z != [] && AllRadixDigits(z, 10)
    requires rest == [] || !IsDecimalDigit(rest[0])
    requires !HasHexPrefix(z + rest)
    ensures ParseUnsigned(z + rest) == Some(Value(z, 10))
  {
    DigitPrefixStops(z, rest, 10);
  }

  lemma ParseUnsignedHex(x: char, z: string, rest: string)
    requires x == 'x' || x == 'X'
    requires z != [] && AllRadixDigits(z, 16)
    requires rest == [] || !IsRadixDigit(rest[0], 16)
    ensures ParseUnsigned(['0', x] + z + rest) == Some(Value(z, 16))
  {
    var u := ['0', x] + z + rest;
    assert HasHexPrefix(u);
    assert u[2..] == z + rest;
    DigitPrefixStops(z, rest, 16);
  }

  /** After an optional sign, `parseInt` reads the unsigned part and applies the sign. */
  lemma ParseIntAfterSign(sign: string, u: string)
    requires |sign| <= 1 && (|sign| == 1 ==> sign[0] == '+' || sign[0] == '-')
    requires u == [] || (sign == [] ==> !IsJsWhitespace(u[0]) && u[0] != '+' && u[0] != '-')
    ensures ParseInt(sign + u) == ApplySign(sign == ['-'], ParseUnsigned(u))
  {
    var x := sign + u;
    TrimStartSkips([], x);
    assert [] + x == x;
    if sign == [] {
      assert x == u;
    } else {
      assert x[1..] == u;
      assert x[0] == sign[0];
    }
  }

  /** Leading white space never changes what `parseInt` reads: `parseInt(" 7") == parseInt("7")`. */
  lemma ParseIntSkipsWhitespace(ws: string, s: string)
    requires forall i :: 0 <= i < |ws| ==> IsJsWhitespace(ws[i])
    ensures ParseInt(ws + s) == ParseInt(s)
  {
    TrimStartSkipsWhitespace(ws, s);
  }

  /**
   * `parseInt` reads the decimal digits that follow an optional sign and ignores
   * everything after them: `parseInt("03") == 3`, `parseInt("-7") == -7`,
   * `parseInt("5abc") == 5`. The digits must not themselves start with `0x`, or the
   * string would be read as hexadecimal.
   */
  lemma ParseIntReadsDecimal(sign: string, z: string, rest: string)
    requires |sign| <= 1 && (|sign| == 1 ==> sign[0] == '+' || sign[0] == '-')
    requires z != [] && AllRadixDigits(z, 10)
    requires rest == [] || !IsDecimalDigit(rest[0])
    requires !HasHexPrefix(z + rest)
    ensures ParseInt(sign + (z + rest)) == Some(if sign == ['-'] then 0 - Value(z, 10) else Value(z, 10))
  {
    var u := z + rest;
    ParseUnsignedDecimal(z, rest);
    assert u[0] == z[0] && IsRadixDigit(z[0], 10);
    ParseIntAfterSign(sign, u);
  }

  /** After a `0x` or `0X` prefix `parseInt` reads hexadecimal digits: `parseInt("-0x1Fz") == -31`. */
  lemma ParseIntReadsHex(sign: string, x: char, z: string, rest: string)
    requires |sign| <= 1 && (|sign| == 1 ==> sign[0] == '+' || sign[0] == '-')
    requires x == 'x' || x == 'X'
    requires z != [] && AllRadixDigits(z, 16)
    requires rest == [] || !IsRadixDigit(rest[0], 16)
    ensures ParseInt(sign + (['0', x] + z + rest)) == Some(if sign == ['-'] then 0 - Value(z, 16) else Value(z, 16))
  {
    var u := ['0', x] + z + rest;
    ParseUnsignedHex(x, z, rest);
    ParseIntAfterSign(sign, u);
  }

  /**
   * Without a digit at the start (after white space and a sign), `parseInt` gives NaN:
   * `parseInt("abc")`, `parseInt("undefined")`, `parseInt("+-5")`, and `parseInt("- 5")`, since
   * no white space is skipped after the sign.
   */
  lemma ParseIntWithoutDigits(ws: string, sign: string, rest: string)
    requires forall i :: 0 <= i < |ws| ==> IsJsWhitespace(ws[i])
    requires |sign| <= 1 && (|sign| == 1 ==> sign[0] == '+' || sign[0] == '-')
    requires rest == [] || (!IsDecimalDigit(rest[0]) && (sign == [] ==> !IsJsWhitespace(rest[0]) && rest[0] != '+' && rest[0] != '-'))
    ensures ParseInt(ws + (sign + rest)) == None
  {
    ParseIntSkipsWhitespace(ws, sign + rest);
    ParseIntAfterSign(sign, rest);
    assert !HasHexPrefix(rest);
  }

  /** A `0x` or `0X` prefix with no hexadecimal digit after it gives NaN: `parseInt("0x")`, `parseInt("-0xg")`. */
  lemma ParseIntHexWithoutDigits(sign: string, x: char, rest: string)
    requires |sign| <= 1 && (|sign| == 1 ==> sign[0] == '+' || sign[0] == '-')
    requires x == 'x' || x == 'X'
    requires rest == [] || !IsRadixDigit(rest[0], 16)
    ensures ParseInt(sign + (['0', x] + rest)) == None
  {
    var u := ['0', x] + rest;
    assert HasHexPrefix(u) && u[2..] == rest;
    assert DigitPrefix(rest, 16) == [];
    ParseIntAfterSign(sign, u);
  }

  /** Round trip: `parseInt((n).toString()) == n`. */
  lemma ParseIntOfNatToString(n: nat)
    ensures ParseInt(NatToString(n)) == Some(n)
  {
    var s := NatToString(n);
    assert [] + (s + []) == s;
    ParseIntReadsDecimal([], s, []);
  }

  /** Distinct numbers print as distinct strings. */
  lemma NatToStringInjective(m: nat, n: nat)
    ensures NatToString(m) == NatToString(n) ==> m == n
  {
    ParseIntOfNatToString(m);
    ParseIntOfNatToString(n);
  }
}
