/** Decimal rendering of naturals and the ECMAScript `parseInt(string)` algorithm
    (radix argument omitted, as every call in the tools does). */
module Numerals {
  import opened Wrappers

  predicate IsDecimalDigit(c: char) {
    '0' <= c <= '9'
  }

  function DigitChar(d: nat): (c: char)
    requires d < 10
    ensures IsDecimalDigit(c)
  {
    "0123456789"[d]
  }

  /** The decimal numeral of `n`, as `String(n)` prints a non-negative integer. */
  function DecimalString(n: nat): (s: string)
    ensures |s| >= 1
    ensures forall i :: 0 <= i < |s| ==> IsDecimalDigit(s[i])
    ensures n > 0 ==> s[0] != '0'
    decreases n
  {
    if n < 10 then [DigitChar(n)] else DecimalString(n / 10) + [DigitChar(n % 10)]
  }

  /** StrWhiteSpaceChar: WhiteSpace and LineTerminator code points. */
  predicate IsStrWhiteSpace(c: char) {
    || c == '\t' || c == '\n' || c == '\U{000B}' || c == '\U{000C}' || c == '\r' || c == ' '
    || c == '\U{00A0}' || c == '\U{1680}' || ('\U{2000}' <= c <= '\U{200A}')
    || c == '\U{2028}' || c == '\U{2029}' || c == '\U{202F}' || c == '\U{205F}'
    || c == '\U{3000}' || c == '\U{FEFF}'
  }

  /** `s` without its leading white space. */
  function TrimStart(s: string): (t: string)
    ensures |t| <= |s|
    ensures |t| > 0 ==> !IsStrWhiteSpace(t[0])
  {
    if |s| > 0 && IsStrWhiteSpace(s[0]) then TrimStart(s[1..]) else s
  }

  /** What `TrimStart` drops is white space, and what it keeps is the rest of `s`. */
  lemma {:induction false} TrimStartSuffix(s: string)
    ensures var t := TrimStart(s);
            && t == s[|s| - |t|..]
            && forall i :: 0 <= i < |s| - |t| ==> IsStrWhiteSpace(s[i])
    decreases |s|
  {
    if |s| > 0 && IsStrWhiteSpace(s[0]) {
      TrimStartSuffix(s[1..]);
    }
  }

  /** The value of `c` as a digit in base `radix` (10 or 16), if it is one. */
  function DigitValue(c: char, radix: nat): Option<nat> {
    if '0' <= c <= '9' then Some((c - '0') as nat)
    else if radix == 16 && 'a' <= c <= 'f' then Some((c - 'a') as nat + 10)
    else if radix == 16 && 'A' <= c <= 'F' then Some((c - 'A') as nat + 10)
    else None
  }

  predicate AllDigits(s: string, radix: nat) {
    forall i :: 0 <= i < |s| ==> DigitValue(s[i], radix).Some?
  }

  /** Length of the longest prefix of `s` made of digits of the radix. */
  function DigitPrefixLength(s: string, radix: nat): (k: nat)
    ensures k <= |s| && forall i :: 0 <= i < k ==> DigitValue(s[i], radix).Some?
    ensures k < |s| ==> DigitValue(s[k], radix).None?
  {
    if |s| > 0 && DigitValue(s[0], radix).Some? then 1 + DigitPrefixLength(s[1..], radix)
    else 0
  }

  /** The number a digit string denotes, most significant digit first. */
  function DigitsValue(s: string, radix: nat): nat
    requires AllDigits(s, radix)
  {
    if |s| == 0 then 0
    else DigitsValue(s[..|s| - 1], radix) * radix + DigitValue(s[|s| - 1], radix).value
  }

  /** `parseInt(s)`: skip leading white space, read an optional sign, then the magnitude;
      None stands for NaN. */
  function ParseInt(s: string): (r: Option<int>)
    ensures r.None? <==> NoMagnitude(Unsigned(s))
    ensures r.Some? && r.value < 0 ==> |TrimStart(s)| > 0 && TrimStart(s)[0] == '-'
    ensures r.Some? && |TrimStart(s)| > 0 && TrimStart(s)[0] == '-' ==> r.value <= 0
  {
    var t := TrimStart(s);
    var negative := |t| > 0 && t[0] == '-';
    match ParseMagnitude(Unsigned(s))
    case None => None
    case Some(m) => Some(if negative then -(m as int) else m as int)
  }

  /** The magnitude after the sign: an optional `0x`/`0X` prefix selecting base 16,
      then the longest run of digits of the base (none at all is NaN). */
  function ParseMagnitude(u: string): (r: Option<nat>)
    ensures r.None? <==> NoMagnitude(u)
    ensures r.Some? && !(|u| >= 2 && u[0] == '0' && (u[1] == 'x' || u[1] == 'X')) ==>
              |u| > 0 && IsDecimalDigit(u[0])
  {
    var hex := |u| >= 2 && u[0] == '0' && (u[1] == 'x' || u[1] == 'X');
    var radix := if hex then 16 else 10;
    var v := if hex then u[2..] else u;
    var k := DigitPrefixLength(v, radix);
    if k == 0 then None else Some(DigitsValue(v[..k], radix))
  }

  /** `parseInt(s) || 0`: NaN (and zero) become 0. */
  function ParseIntOrZero(s: string): (r: int)
    ensures NoMagnitude(Unsigned(s)) ==> r == 0
    ensures !NoMagnitude(Unsigned(s)) ==> ParseInt(s) == Some(r)
  {
    match ParseInt(s)
    case None => 0
    case Some(n) => n
  }

  /** The text after the sign holds no digit to read: it is empty, it does not start with a
      decimal digit, or it is a `0x`/`0X` prefix with no hexadecimal digit after it. */
  predicate NoMagnitude(u: string) {
    || |u| == 0
    || !IsDecimalDigit(u[0])
    || (|u| >= 2 && u[0] == '0' && (u[1] == 'x' || u[1] == 'X')
        && (|u| == 2 || DigitValue(u[2], 16).None?))
  }

  /** What `parseInt` looks at once white space and sign are skipped. */
  function Unsigned(s: string): string {
    var t := TrimStart(s);
    if |t| > 0 && (t[0] == '-' || t[0] == '+') then t[1..] else t
  }

  lemma {:induction false} DigitsOfDecimalString(n: nat)
    ensures AllDigits(DecimalString(n), 10)
    ensures DigitsValue(DecimalString(n), 10) == n
    decreases n
  {
    var s := DecimalString(n);
    if n >= 10 {
      DigitsOfDecimalString(n / 10);
      assert s[..|s| - 1] == DecimalString(n / 10);
    }
  }

  /** The digit run of a numeral followed by anything that is not a digit is the numeral. */
  lemma DigitPrefixOfNumeral(n: nat, rest: string)
    requires rest == [] || !IsDecimalDigit(rest[0])
    ensures DigitPrefixLength(DecimalString(n) + rest, 10) == |DecimalString(n)|
  {
    DigitsOfDecimalString(n);
    DigitRunThenStop(DecimalString(n), rest, 10);
  }

  lemma {:induction false} DigitRunThenStop(s: string, rest: string, radix: nat)
    requires AllDigits(s, radix)
    requires rest == [] || DigitValue(rest[0], radix).None?
    ensures DigitPrefixLength(s + rest, radix) == |s|
    decreases |s|
  {
    if |s| > 0 {
      assert (s + rest)[1..] == s[1..] + rest;
      DigitRunThenStop(s[1..], rest, radix);
    }
  }

  /** A numeral followed by non-digit text has the numeral's value as its magnitude. */
  lemma MagnitudeOfNumeral(n: nat, rest: string)
    requires rest == [] || (!IsDecimalDigit(rest[0]) && (n == 0 ==> rest[0] != 'x' && rest[0] != 'X'))
    ensures ParseMagnitude(DecimalString(n) + rest) == Some(n)
  {
    var s := DecimalString(n);
    DigitsOfDecimalString(n);
    DigitPrefixOfNumeral(n, rest);
    assert (s + rest)[..|s|] == s;
    if |s| >= 2 {
      assert s[0] != '0';
    } else if rest != [] {
      assert (s + rest)[1] == rest[0];
    }
  }

  /** Reading back a rendered natural: `parseInt` recovers `n` from its numeral, with or
      without a leading minus sign, whatever non-digit text follows it ("12.5", "3e2"). */
  lemma ParseDecimalString(n: nat, rest: string)
    requires rest == [] || (!IsDecimalDigit(rest[0]) && (n == 0 ==> rest[0] != 'x' && rest[0] != 'X'))
    ensures ParseInt(DecimalString(n) + rest) == Some(n)
    ensures ParseInt("-" + (DecimalString(n) + rest)) == Some(-(n as int))
    ensures ParseIntOrZero(DecimalString(n) + rest) == n
    ensures ParseIntOrZero("-" + (DecimalString(n) + rest)) == -(n as int)
  {
    UnsignedNumeral(n, rest);
    NegatedNumeral(n, rest);
  }

  lemma UnsignedNumeral(n: nat, rest: string)
    requires rest == [] || (!IsDecimalDigit(rest[0]) && (n == 0 ==> rest[0] != 'x' && rest[0] != 'X'))
    ensures ParseInt(DecimalString(n) + rest) == Some(n)
  {
    MagnitudeOfNumeral(n, rest);
    DigitLed(DecimalString(n) + rest, n);
  }

  lemma NegatedNumeral(n: nat, rest: string)
    requires rest == [] || (!IsDecimalDigit(rest[0]) && (n == 0 ==> rest[0] != 'x' && rest[0] != 'X'))
    ensures ParseInt("-" + (DecimalString(n) + rest)) == Some(-(n as int))
  {
    MagnitudeOfNumeral(n, rest);
    NegatedDigitLed(DecimalString(n) + rest, n);
  }

  /** Text that starts with a digit is its own unsigned part, and parses to its magnitude. */
  lemma DigitLed(u: string, m: nat)
    requires |u| > 0 && IsDecimalDigit(u[0]) && ParseMagnitude(u) == Some(m)
    ensures ParseInt(u) == Some(m)
  {
    assert TrimStart(u) == u;
    assert Unsigned(u) == u;
  }

  /** A minus sign before digit-led text negates its magnitude. */
  lemma NegatedDigitLed(u: string, m: nat)
    requires |u| > 0 && IsDecimalDigit(u[0]) && ParseMagnitude(u) == Some(m)
    ensures ParseInt("-" + u) == Some(-(m as int))
  {
    var t := "-" + u;
    assert t[0] == '-';
    assert TrimStart(t) == t;
    assert t[1..] == u;
    assert Unsigned(t) == u;
  }

  /** Text whose first significant character is not a digit, or that is a bare `0x`
      prefix, parses to NaN, which `|| 0` stores as 0. */
  lemma NonNumericIsZero(s: string)
    requires NoMagnitude(Unsigned(s))
    ensures ParseInt(s) == None
    ensures ParseIntOrZero(s) == 0
  {
  }
}
