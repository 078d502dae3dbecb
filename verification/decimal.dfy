/** Decimal text for small unsigned integers: the `u8` parser that `str::parse`
    uses for the CIDR prefix length, and the decimal rendering used by the
    `Display` forms of addresses and prefixes. */
module Decimal {
  import opened Wrappers

  /** Rust's `u8`. */
  newtype u8 = x: int | 0 <= x < 256

  predicate IsDigit(c: char) {
    '0' <= c <= '9'
  }

  predicate AllDigits(s: string) {
    forall i | 0 <= i < |s| :: IsDigit(s[i])
  }

  function DigitValue(c: char): (d: nat)
    requires IsDigit(c)
    ensures d < 10
  {
    (c as int) - ('0' as int)
  }

  function DigitChar(d: nat): (c: char)
    requires d < 10
    ensures IsDigit(c) && DigitValue(c) == d
  {
    (('0' as int) + d) as char
  }

  /** The number a string of decimal digits denotes (most significant digit first;
      leading zeros allowed). */
  function DigitsValue(s: string): nat
    requires AllDigits(s)
  {
    if s == [] then 0 else DigitsValue(s[..|s| - 1]) * 10 + DigitValue(s[|s| - 1])
  }

  /** Shortest decimal rendering of `n`, as `Display` for unsigned integers writes it. */
  function ToDecimal(n: nat): (s: string)
    ensures 0 < |s| && AllDigits(s)
    ensures 1 < |s| ==> s[0] != '0'
  {
    if n < 10 then [DigitChar(n)] else ToDecimal(n / 10) + [DigitChar(n % 10)]
  }

  /** `u8::from_str`: an optional leading `+`, then one or more ASCII digits whose
      value fits in eight bits. A lone sign, any other character (a `-` included)
      and overflow are rejected. */
  function ParseU8(s: string): (r: Option<u8>)
    ensures r.Some? ==> 0 < |s| && (IsDigit(s[0]) || s[0] == '+')
    ensures r.Some? ==> forall i | 1 <= i < |s| :: IsDigit(s[i])
    ensures 0 < |s| && AllDigits(s) ==>
              (DigitsValue(s) < 256 ==> r == Some(DigitsValue(s) as u8))
              && (DigitsValue(s) >= 256 ==> r.None?)
    ensures s == "+" ==> r.None?
  {
    if s == [] then None
    else
      var digits := if s[0] == '+' then s[1..] else s;
      if digits == [] || !AllDigits(digits) then None
      else
        var v := DigitsValue(digits);
        if v < 256 then Some(v as u8) else None
  }

  lemma {:induction false} DigitsValueOfDecimal(n: nat)
    ensures DigitsValue(ToDecimal(n)) == n
  {
    if n >= 10 {
      var s := ToDecimal(n);
      assert s[..|s| - 1] == ToDecimal(n / 10);
      DigitsValueOfDecimal(n / 10);
    }
  }

  /** Rendering then parsing gives back every eight-bit value. */
  lemma ParseU8OfDecimal(n: u8)
    ensures ParseU8(ToDecimal(n as nat)) == Some(n)
  {
    DigitsValueOfDecimal(n as nat);
  }

  /** A string holding any non-digit after its first character never parses;
      in particular a prefix text that still contains a `/`. */
  lemma ParseU8RejectsSeparator(s: string, i: nat)
    requires i < |s| && s[i] == '/'
    ensures ParseU8(s).None?
  {
  }

  /** Leading zeros and a single leading `+` do not change the parsed value. */
  lemma ParseU8IgnoresSignAndZeros(digits: string)
    requires 0 < |digits| && AllDigits(digits)
    ensures ParseU8("+" + digits) == ParseU8(digits)
    ensures ParseU8("0" + digits) == ParseU8(digits)
  {
    assert ("+" + digits)[1..] == digits;
    LeadingZero(digits);
  }

  lemma {:induction false} LeadingZero(s: string)
    requires AllDigits(s)
    ensures AllDigits("0" + s) && DigitsValue("0" + s) == DigitsValue(s)
  {
    if s != [] {
      assert ("0" + s)[..|"0" + s| - 1] == "0" + s[..|s| - 1];
      LeadingZero(s[..|s| - 1]);
    }
  }
}
