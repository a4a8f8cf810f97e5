/**
 * Decimal text for integers: what `{}` prints for `u16` and `i32`, and
 * what `str::parse::<u16>` accepts.
 */
module Decimal {
  import opened Wrappers
  import opened RustInt

  predicate IsDigit(c: char) {
    '0' <= c <= '9'
  }

  predicate AllDigits(s: string) {
    forall i :: 0 <= i < |s| ==> IsDigit(s[i])
  }

  function DigitValue(c: char): nat
    requires IsDigit(c)
  {
    (c as int) - ('0' as int)
  }

  function DigitChar(d: nat): (c: char)
    requires d < 10
    ensures IsDigit(c) && DigitValue(c) == d
  {
    (('0' as int) + d) as char
  }

  /** The number a string of decimal digits denotes, most significant first. */
  function DigitsValue(s: string): nat
    requires AllDigits(s)
  {
    if s == [] then 0 else 10 * DigitsValue(s[..|s| - 1]) + DigitValue(s[|s| - 1])
  }

  /** Appending a digit multiplies the value by ten and adds the digit. */
  lemma DigitsValueSnoc(s: string, c: char)
    requires AllDigits(s) && IsDigit(c)
    ensures AllDigits(s + [c])
    ensures DigitsValue(s + [c]) == 10 * DigitsValue(s) + DigitValue(c)
  {
  }

  /** `{}` formatting of a non-negative integer: its shortest decimal digits. */
  function NatToString(n: nat): (s: string)
    ensures |s| >= 1 && AllDigits(s)
    ensures |s| > 1 ==> s[0] != '0'
  {
    if n < 10 then [DigitChar(n)] else NatToString(n / 10) + [DigitChar(n % 10)]
  }

  /** The digits `NatToString` prints denote the number printed. */
  lemma {:induction false} NatToStringValue(n: nat)
    ensures DigitsValue(NatToString(n)) == n
  {
    if n >= 10 {
      NatToStringValue(n / 10);
      var s := NatToString(n);
      assert s[..|s| - 1] == NatToString(n / 10);
    }
  }

  /**
   * `{}` formatting of a signed integer: a minus sign before a negative
   * one, then the shortest decimal digits of its magnitude.
   */
  function IntToString(n: int): (s: string)
    ensures |s| >= 1
    ensures s[0] == '-' <==> n < 0
    ensures n >= 0 ==> AllDigits(s)
  {
    if n < 0 then "-" + NatToString(-n) else NatToString(n)
  }

  /** After the sign, `IntToString` prints the shortest decimal digits of the magnitude. */
  lemma IntToStringDigits(n: int)
    ensures var s := IntToString(n);
            var d := if n < 0 then s[1..] else s;
            && |d| >= 1 && AllDigits(d) && DigitsValue(d) == Abs(n)
            && (|d| > 1 ==> d[0] != '0')
  {
    NatToStringValue(Abs(n));
    var d := NatToString(Abs(n));
    assert ("-" + d)[1..] == d;
  }

  /**
   * `str::parse::<u16>`: an optional `+` followed by at least one ASCII
   * digit, denoting a value no greater than `u16::MAX`. Anything else,
   * the empty string, a lone `+`, a `-` sign, a space, or an overflowing
   * value, is an error, given here as `None`.
   */
  function ParseU16(s: string): (r: Option<uint16>)
    ensures r.Some? <==> exists d :: (s == d || s == "+" + d) && IsU16Digits(d)
    ensures r.Some? ==> var d := UnsignedDigits(s); AllDigits(d) && r.value == DigitsValue(d)
  {
    var d := UnsignedDigits(s);
    if IsU16Digits(d) then
      assert s == d || s == "+" + d;
      Some(DigitsValue(d))
    else
      assert forall e :: (s == e || s == "+" + e) && IsU16Digits(e) ==> e == d;
      None
  }

  /** The text after an optional leading `+`. */
  function UnsignedDigits(s: string): string {
    if s != [] && s[0] == '+' then s[1..] else s
  }

  /** A non-empty string of ASCII digits whose value fits in `u16`. */
  predicate IsU16Digits(d: string) {
    d != [] && AllDigits(d) && DigitsValue(d) <= U16_MAX
  }

  /** Parsing what `{}` prints for a `u16` gives the number back. */
  lemma ParseU16OfNatToString(n: uint16)
    ensures ParseU16(NatToString(n)) == Some(n)
  {
    NatToStringValue(n);
  }
}
