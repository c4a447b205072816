/**
  Digit strings for non-negative integers, as Python's "%d" and "%x" format
  operators write them: base 10 or base 16, lowercase letters, no padding and
  no leading zeros ("0" is the only string that starts with '0'). The parser
  is the partner of the printer: each undoes the other.
 */
module Numerals {
  import opened Wrappers

  type Base = b: nat | b == 10 || b == 16 witness 10

  /** The character "%x" / "%d" writes for the digit d. */
  function DigitChar(d: nat): (c: char)
    requires d < 16
    ensures d < 10 ==> '0' <= c <= '9'
    ensures 10 <= d ==> 'a' <= c <= 'f'
  {
    if d < 10 then ('0' as int + d) as char else ('a' as int + (d - 10)) as char
  }

  /** The value of a digit character in the given base, or -1 when c is not one. */
  function DigitValue(c: char, base: Base): (v: int)
    ensures -1 <= v < base
  {
    if '0' <= c <= '9' then c as int - '0' as int
    else if base == 16 && 'a' <= c <= 'f' then c as int - 'a' as int + 10
    else -1
  }

  predicate IsDigits(s: string, base: Base) {
    |s| > 0 && forall i :: 0 <= i < |s| ==> DigitValue(s[i], base) >= 0
  }

  /** No padding: only the string "0" itself begins with the digit zero. */
  predicate NoLeadingZero(s: string) {
    |s| > 0 && (s[0] == '0' ==> s == "0")
  }

  /** The number a digit string denotes (most significant digit first). */
  function ValueOf(s: string, base: Base): nat
    requires IsDigits(s, base)
    decreases |s|
  {
    var last := DigitValue(s[|s| - 1], base);
    if |s| == 1 then last else ValueOf(s[..|s| - 1], base) * base + last
  }

  /** "%d" / "%x" of a non-negative integer. */
  function Digits(n: nat, base: Base): (s: string)
    ensures IsDigits(s, base)
    ensures NoLeadingZero(s)
    ensures ValueOf(s, base) == n
    decreases n
  {
    if n < base then [DigitChar(n)]
    else
      var front := Digits(n / base, base);
      var s := front + [DigitChar(n % base)];
      assert s[..|s| - 1] == front;
      s
  }

  /** Parses a digit string; None when it is empty or holds a non-digit. */
  function Parse(s: string, base: Base): (r: Option<nat>)
    ensures r.Some? <==> IsDigits(s, base)
  {
    if IsDigits(s, base) then Some(ValueOf(s, base)) else None
  }

  /** A digit string worth zero is made of zeros only. */
  lemma {:induction false} ZeroValueIsAllZeros(s: string, base: Base)
    requires IsDigits(s, base) && ValueOf(s, base) == 0
    ensures forall i :: 0 <= i < |s| ==> s[i] == '0'
    decreases |s|
  {
    if |s| > 1 {
      ZeroValueIsAllZeros(s[..|s| - 1], base);
    }
  }

  lemma DivModDigit(a: nat, d: nat, base: Base)
    requires d < base
    ensures (a * base + d) / base == a && (a * base + d) % base == d
    ensures a >= 1 ==> a * base + d >= base
  {
  }

  lemma DigitCharOfValue(c: char, base: Base)
    requires DigitValue(c, base) >= 0
    ensures DigitChar(DigitValue(c, base)) == c
  {
  }

  /** A digit string of two or more digits without padding denotes at least one base step. */
  lemma FrontIsPositive(s: string, base: Base)
    requires IsDigits(s, base) && NoLeadingZero(s) && |s| > 1
    ensures IsDigits(s[..|s| - 1], base) && NoLeadingZero(s[..|s| - 1])
    ensures ValueOf(s[..|s| - 1], base) >= 1
  {
    var front := s[..|s| - 1];
    assert front[0] == s[0];
    if ValueOf(front, base) == 0 {
      ZeroValueIsAllZeros(front, base);
    }
  }

  /** Printing the parsed value gives back an unpadded digit string. */
  lemma {:induction false} DigitsOfValue(s: string, base: Base)
    requires IsDigits(s, base) && NoLeadingZero(s)
    ensures Digits(ValueOf(s, base), base) == s
    decreases |s|
  {
    var c := s[|s| - 1];
    var low := DigitValue(c, base);
    DigitCharOfValue(c, base);
    if |s| == 1 {
      assert s == [c];
    } else {
      var front := s[..|s| - 1];
      FrontIsPositive(s, base);
      DigitsOfValue(front, base);
      var high := ValueOf(front, base);
      var n := ValueOf(s, base);
      ValueOfLast(s, base);
      DigitsAppend(n, high, low, base);
    }
  }

  lemma ValueOfLast(s: string, base: Base)
    requires IsDigits(s, base) && |s| > 1
    ensures IsDigits(s[..|s| - 1], base)
    ensures ValueOf(s, base) == ValueOf(s[..|s| - 1], base) * base + DigitValue(s[|s| - 1], base)
    ensures s == s[..|s| - 1] + [s[|s| - 1]]
  {
  }

  /** Appending a digit to a positive number appends its character. */
  lemma DigitsAppend(n: nat, high: nat, low: nat, base: Base)
    requires 1 <= high && low < base && n == high * base + low
    ensures Digits(n, base) == Digits(high, base) + [DigitChar(low)]
  {
    DivModDigit(high, low, base);
  }

  /** "%x": lowercase hexadecimal, no padding. */
  function Hex(n: nat): (s: string)
    ensures Parse(s, 16) == Some(n)
    ensures NoLeadingZero(s)
    ensures forall i :: 0 <= i < |s| ==> '0' <= s[i] <= '9' || 'a' <= s[i] <= 'f'
  {
    Digits(n, 16)
  }

  /** Every unpadded hexadecimal string is the "%x" of exactly the number it denotes. */
  lemma HexRoundTrip(s: string, n: nat)
    requires Parse(s, 16) == Some(n) && NoLeadingZero(s)
    ensures Hex(n) == s
  {
    DigitsOfValue(s, 16);
  }

  /** A value below 16^w needs at most w hexadecimal digits; so a masked CRC-32 needs at most eight. */
  lemma {:induction false} HexWidth(n: nat, w: nat)
    requires 1 <= w && n < Pow16(w)
    ensures |Hex(n)| <= w
    decreases w
  {
    if 16 <= n {
      assert Pow16(1) == 16;
      HexWidth(n / 16, w - 1);
      assert |Digits(n, 16)| == |Digits(n / 16, 16)| + 1;
    }
  }

  function Pow16(k: nat): nat {
    if k == 0 then 1 else 16 * Pow16(k - 1)
  }

  /** "%d" of any integer: a minus sign in front of the digits of a negative value. */
  function Decimal(i: int): (s: string)
    ensures ParseDecimal(s) == Some(i)
    ensures forall k :: 0 <= k < |s| ==> '0' <= s[k] <= '9' || s[k] == '-'
  {
    if i < 0 then
      var s := "-" + Digits(-i, 10);
      assert s[1..] == Digits(-i, 10);
      s
    else Digits(i, 10)
  }

  /** Reads back what "%d" writes; None for anything else. */
  function ParseDecimal(s: string): (r: Option<int>)
    ensures r.Some? ==> IsDigits(if |s| > 0 && s[0] == '-' then s[1..] else s, 10)
  {
    if |s| > 0 && s[0] == '-' then
      match Parse(s[1..], 10)
      case Some(n) => Some(0 - n as int)
      case None => None
    else
      match Parse(s, 10)
      case Some(n) => Some(n as int)
      case None => None
  }

  /** Two integers with the same "%d" text are equal. */
  lemma DecimalInjective(i: int, j: int)
    requires Decimal(i) == Decimal(j)
    ensures i == j
  {
    assert ParseDecimal(Decimal(i)) == Some(i);
  }
}
