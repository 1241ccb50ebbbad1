/** ECMAScript numbers as far as the front end tells them apart, the decimal text
    a template literal `${n}` gives an integer, and `parseInt(s)` with no radix
    (section 19.2.5 of ECMA-262). */
module JsNumber {
  import opened Wrappers
  import JsString

  /** A JavaScript number: an integral value, a finite value with a fractional
      part (its digits are never inspected), or NaN / an infinity. */
  datatype Number = Integral(value: int) | Fractional | NonFinite

  /** `Number.isInteger(n)`. */
  predicate IsInteger(n: Number) {
    n.Integral?
  }

  predicate IsDecimalDigit(c: char) {
    '0' <= c <= '9'
  }

  function DigitChar(d: nat): (c: char)
    requires d < 10
    ensures IsDecimalDigit(c) && c as int - '0' as int == d
  {
    ('0' as int + d) as char
  }

  /** The value of `c` as a digit of radix up to 16, if it is one. */
  function DigitValue(c: char): (d: Option<nat>)
    ensures d.Some? ==> d.value < 16
    ensures IsDecimalDigit(c) <==> d.Some? && d.value < 10
  {
    if '0' <= c <= '9' then Some(c as int - '0' as int)
    else if 'a' <= c <= 'f' then Some(c as int - 'a' as int + 10)
    else if 'A' <= c <= 'F' then Some(c as int - 'A' as int + 10)
    else None
  }

  predicate IsRadixDigit(c: char, radix: nat) {
    DigitValue(c).Some? && DigitValue(c).value < radix
  }

  /** `${n}` for a non-negative integer below 10^21: decimal digits, no leading zero. */
  function NatToString(n: nat): (r: string)
    ensures |r| >= 1
    ensures forall i :: 0 <= i < |r| ==> IsDecimalDigit(r[i])
    ensures r[0] == '0' ==> n == 0
    decreases n
  {
    if n < 10 then [DigitChar(n)] else NatToString(n / 10) + [DigitChar(n % 10)]
  }

  /** `${i}` for an integer of magnitude below 10^21. */
  function IntToString(i: int): (r: string)
    ensures i >= 0 ==> r == NatToString(i)
    ensures i < 0 ==> r == "-" + NatToString(-i)
    ensures |r| > 0 && (r[0] == '-' <==> i < 0)
  {
    if i < 0 then "-" + NatToString(-i) else NatToString(i)
  }

  /** One more digit at the low end of a numeral. */
  function AppendDigit(high: nat, radix: nat, d: nat): nat {
    high * radix + d
  }

  /** The value of a string of radix digits, most significant first. */
  function RadixValue(ds: string, radix: nat): nat
    requires forall i :: 0 <= i < |ds| ==> IsRadixDigit(ds[i], radix)
    decreases |ds|
  {
    if |ds| == 0 then 0
    else
      assert IsRadixDigit(ds[|ds| - 1], radix);
      AppendDigit(RadixValue(ds[..|ds| - 1], radix), radix, DigitValue(ds[|ds| - 1]).value)
  }

  /** Decimal formatting and reading are inverse. */
  lemma {:induction false} NatToStringValue(n: nat)
    ensures RadixValue(NatToString(n), 10) == n
    decreases n
  {
    var s := NatToString(n);
    if n < 10 {
      assert s[..|s| - 1] == [];
    } else {
      NatToStringValue(n / 10);
      assert s[..|s| - 1] == NatToString(n / 10);
    }
  }

  /** The end of the run of radix digits that starts at `from`. */
  function DigitRunEnd(s: string, from: nat, radix: nat): (e: nat)
    requires from <= |s|
    ensures from <= e <= |s|
    ensures forall i :: from <= i < e ==> IsRadixDigit(s[i], radix)
    ensures e < |s| ==> !IsRadixDigit(s[e], radix)
    decreases |s| - from
  {
    if from == |s| || !IsRadixDigit(s[from], radix) then from else DigitRunEnd(s, from + 1, radix)
  }

  /** The digits `parseInt` reads from index `j` on, after any sign: radix 16 after a
      `0x`/`0X` prefix, else radix 10; no digit at all gives NaN. */
  function ParseDigits(s: string, j: nat, sign: int): (r: Number)
    requires j <= |s|
    ensures !r.Fractional?
    ensures j == |s| ==> r == NonFinite
  {
    var hex := j + 1 < |s| && s[j] == '0' && (s[j + 1] == 'x' || s[j + 1] == 'X');
    var radix := if hex then 16 else 10;
    var k := if hex then j + 2 else j;
    var e := DigitRunEnd(s, k, radix);
    assert forall m :: 0 <= m < e - k ==> s[k..e][m] == s[k + m];
    if e == k then NonFinite else Integral(sign * RadixValue(s[k..e], radix))
  }

  /** `parseInt(s)`: skip leading whitespace, read an optional sign, then the digits. */
  function ParseInt(s: string): (r: Number)
    ensures !r.Fractional?
    ensures JsString.AllWhitespace(s) ==> r == NonFinite
  {
    var i := JsString.SkipWhitespace(s, 0);
    var sign := if i < |s| && s[i] == '-' then -1 else 1;
    var j := if i < |s| && (s[i] == '-' || s[i] == '+') then i + 1 else i;
    ParseDigits(s, j, sign)
  }

  /** The text that may follow a numeral without `parseInt` reading it as part of
      the number. */
  predicate EndsNumeral(rest: string) {
    |rest| == 0 || (!IsDecimalDigit(rest[0]) && rest[0] != 'x' && rest[0] != 'X')
  }

  /** The digit scan from `k` stops exactly at `e` when `s[k..e]` are digits and
      `s[e]` is not. */
  lemma {:induction false} DigitRunEndIs(s: string, k: nat, e: nat, radix: nat)
    requires k <= e <= |s|
    requires forall i :: k <= i < e ==> IsRadixDigit(s[i], radix)
    requires e < |s| ==> !IsRadixDigit(s[e], radix)
    ensures DigitRunEnd(s, k, radix) == e
    decreases e - k
  {
    if k < e {
      DigitRunEndIs(s, k + 1, e, radix);
    }
  }

  /** A numeral of `NatToString` never looks like a `0x` prefix. */
  lemma NumeralNotHex(s: string, k: nat, n: nat)
    requires k + |NatToString(n)| <= |s|
    requires s[k..k + |NatToString(n)|] == NatToString(n)
    requires EndsNumeral(s[k + |NatToString(n)|..])
    ensures !(k + 1 < |s| && s[k] == '0' && (s[k + 1] == 'x' || s[k + 1] == 'X'))
  {
    var t := NatToString(n);
    if k + 1 < |s| && s[k] == '0' {
      assert t[0] == s[k];
      assert |t| == 1;
      assert s[k + 1] == s[k + |t|..][0];
    }
  }

  /** A numeral of `NatToString` at index `k` of `s`, followed by text that ends
      it, is read by `parseInt`'s digit scan as exactly that number. */
  lemma NumeralAt(s: string, k: nat, n: nat, sign: int)
    requires k + |NatToString(n)| <= |s|
    requires s[k..k + |NatToString(n)|] == NatToString(n)
    requires EndsNumeral(s[k + |NatToString(n)|..])
    ensures ParseDigits(s, k, sign) == Integral(sign * n)
  {
    var t := NatToString(n);
    var e := k + |t|;
    forall i | k <= i < e ensures IsRadixDigit(s[i], 10) {
      assert s[i] == t[i - k];
    }
    if e < |s| {
      assert s[e] == s[e..][0];
    }
    DigitRunEndIs(s, k, e, 10);
    NumeralNotHex(s, k, n);
    NatToStringValue(n);
  }

  /** Where the scan starts when the text begins with a digit. */
  lemma ParseIntAtDigit(s: string)
    requires |s| > 0 && IsDecimalDigit(s[0])
    ensures ParseInt(s) == ParseDigits(s, 0, 1)
  {
    assert JsString.SkipWhitespace(s, 0) == 0;
  }

  /** Where the scan starts when the text begins with a minus sign and a digit. */
  lemma ParseIntAtMinus(s: string)
    requires |s| > 1 && s[0] == '-'
    ensures ParseInt(s) == ParseDigits(s, 1, -1)
  {
    assert JsString.SkipWhitespace(s, 0) == 0;
  }

  /** `parseInt` reads back the number a template literal printed, whatever
      non-numeric text follows it. */
  lemma ParseIntOfNatString(n: nat, rest: string)
    requires EndsNumeral(rest)
    ensures ParseInt(NatToString(n) + rest) == Integral(n)
  {
    var t := NatToString(n);
    var s := t + rest;
    assert s[0] == t[0];
    ParseIntAtDigit(s);
    assert s[0..|t|] == t && s[|t|..] == rest;
    NumeralAt(s, 0, n, 1);
  }

  /** The same for a possibly negative integer. */
  lemma ParseIntOfIntString(i: int, rest: string)
    requires EndsNumeral(rest)
    ensures ParseInt(IntToString(i) + rest) == Integral(i)
  {
    if i >= 0 {
      ParseIntOfNatString(i, rest);
    } else {
      var t := NatToString(-i);
      var s := "-" + t + rest;
      assert s[0] == '-';
      ParseIntAtMinus(s);
      assert s[1..1 + |t|] == t && s[1 + |t|..] == rest;
      NumeralAt(s, 1, -i, -1);
    }
  }
}
