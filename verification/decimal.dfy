/**
 Decimal text for integers as JavaScript produces and reads it: `String(n)`
 for an integer-valued number, the digit sum the numerology engine takes of
 that text, and `parseInt(s)` without a radix argument.
 */
module Decimal {
  import opened Strings

  predicate IsDigit(c: char) {
    '0' <= c <= '9'
  }

  function DigitChar(d: nat): (c: char)
    requires d < 10
    ensures IsDigit(c) && c as int - '0' as int == d
  {
    ('0' as int + d) as char
  }

  function DigitValue(c: char): (d: nat)
    requires IsDigit(c)
    ensures d < 10 && DigitChar(d) == c
  {
    c as int - '0' as int
  }

  predicate AllDigits(s: string) {
    forall i :: 0 <= i < |s| ==> IsDigit(s[i])
  }

  /** `String(n)` for a non-negative integer: decimal digits, no leading zero. */
  function NatToString(n: nat): (s: string)
    ensures |s| >= 1 && AllDigits(s)
    ensures |s| > 1 ==> s[0] != '0'
    ensures n < 10 <==> |s| == 1
    decreases n
  {
    if n < 10 then [DigitChar(n)] else NatToString(n / 10) + [DigitChar(n % 10)]
  }

  /** `String(i)` for an integer: a minus sign in front of the magnitude when negative. */
  function IntToString(i: int): (s: string)
    ensures |s| >= 1
    ensures i < 0 <==> s[0] == '-'
  {
    if i < 0 then "-" + NatToString(-i) else NatToString(i)
  }

  /** The value a string of decimal digits denotes. */
  function DigitsValue(s: string): nat
    requires AllDigits(s)
    decreases |s|
  {
    if |s| == 0 then 0 else 10 * DigitsValue(s[..|s| - 1]) + DigitValue(s[|s| - 1])
  }

  lemma {:induction false} NatToStringValue(n: nat)
    ensures DigitsValue(NatToString(n)) == n
    decreases n
  {
    var s := NatToString(n);
    if n >= 10 {
      assert s[..|s| - 1] == NatToString(n / 10);
      NatToStringValue(n / 10);
    }
  }

  /** `s.split('').reduce((a, d) => a + parseInt(d), 0)` over a string of digits. */
  function CharDigitSum(s: string): nat
    requires AllDigits(s)
    decreases |s|
  {
    if |s| == 0 then 0 else CharDigitSum(s[..|s| - 1]) + DigitValue(s[|s| - 1])
  }

  /** The sum of the decimal digits of `n`, taken over the text `String(n)` as the source does. */
  function DigitSum(n: nat): nat {
    CharDigitSum(NatToString(n))
  }

  lemma DigitSumStep(n: nat)
    requires n >= 10
    ensures DigitSum(n) == DigitSum(n / 10) + n % 10
  {
    var s := NatToString(n);
    assert s[..|s| - 1] == NatToString(n / 10);
  }

  /** Summing decimal digits keeps the value modulo 9 (since 10 leaves remainder 1). */
  lemma {:induction false} DigitSumCongruent(n: nat)
    ensures DigitSum(n) % 9 == n % 9
    decreases n
  {
    if n >= 10 {
      var q, d := n / 10, n % 10;
      DigitSumStep(n);
      DigitSumCongruent(q);
      SameRemainderPlus(DigitSum(q), q, d);
      NineMultiplePlus(q, q + d);
      assert n == 9 * q + (q + d);
    } else {
      DigitSumSmaller(n);
    }
  }

  lemma SameRemainderPlus(a: nat, b: nat, c: nat)
    requires a % 9 == b % 9
    ensures (a + c) % 9 == (b + c) % 9
  {
    assert a == 9 * (a / 9) + a % 9;
    assert b == 9 * (b / 9) + b % 9;
  }

  lemma NineMultiplePlus(q: nat, x: nat)
    ensures (9 * q + x) % 9 == x % 9
  {
  }

  /** Congruence modulo 9 is preserved by addition. */
  lemma SumCongruent(a: nat, b: nat, x: nat, y: nat)
    requires a % 9 == x % 9 && b % 9 == y % 9
    ensures (a + b) % 9 == (x + y) % 9
  {
    SameRemainderPlus(a, x, b);
    SameRemainderPlus(b, y, x);
  }

  /** Every number with two or more digits is larger than its digit sum. */
  lemma {:induction false} DigitSumSmaller(n: nat)
    ensures n < 10 ==> DigitSum(n) == n
    ensures n >= 10 ==> DigitSum(n) < n
    ensures n > 0 ==> DigitSum(n) > 0
    decreases n
  {
    if n >= 10 {
      DigitSumStep(n);
      DigitSumSmaller(n / 10);
    } else {
      var s := NatToString(n);
      assert s == [DigitChar(n)];
      assert s[..0] == [];
      assert CharDigitSum(s) == CharDigitSum(s[..0]) + DigitValue(s[0]);
    }
  }

  /** A digit value in the given radix (10 or 16), case-insensitive for letters. */
  function RadixDigit(c: char, radix: nat): Option<nat> {
    if '0' <= c <= '9' && (c as int - '0' as int) < radix then Some(c as int - '0' as int)
    else if radix == 16 && 'a' <= c <= 'f' then Some(c as int - 'a' as int + 10)
    else if radix == 16 && 'A' <= c <= 'F' then Some(c as int - 'A' as int + 10)
    else None
  }

  /** Length of the longest prefix of `s` made of radix digits. */
  function DigitRun(s: string, radix: nat): (k: nat)
    ensures k <= |s|
    ensures forall i :: 0 <= i < k ==> RadixDigit(s[i], radix).Some?
    ensures k < |s| ==> RadixDigit(s[k], radix).None?
    decreases |s|
  {
    if |s| > 0 && RadixDigit(s[0], radix).Some? then 1 + DigitRun(s[1..], radix) else 0
  }

  function RadixValue(s: string, radix: nat): nat
    requires forall i :: 0 <= i < |s| ==> RadixDigit(s[i], radix).Some?
    decreases |s|
  {
    if |s| == 0 then 0
    else radix * RadixValue(s[..|s| - 1], radix) + RadixDigit(s[|s| - 1], radix).value
  }

  /**
   `parseInt(s)` with no radix argument: leading white space is skipped, an
   optional sign is read, and the rest is read by `ParseMagnitude`. `None`
   stands for `NaN`.
   */
  function ParseInt(s: string): Option<int> {
    var t := TrimStart(s);
    if |t| > 0 && t[0] == '-' then
      match ParseMagnitude(t[1..])
      case None => None
      case Some(m) => Some(-(m as int))
    else if |t| > 0 && t[0] == '+' then
      match ParseMagnitude(t[1..])
      case None => None
      case Some(m) => Some(m)
    else
      match ParseMagnitude(t)
      case None => None
      case Some(m) => Some(m)
  }

  /**
   The unsigned part of `parseInt`: a `0x`/`0X` prefix selects base 16, and the
   longest run of digits that follows is the value; no digit gives `None`.
   */
  function ParseMagnitude(u: string): Option<nat> {
    var hex := |u| >= 2 && u[0] == '0' && (u[1] == 'x' || u[1] == 'X');
    var radix := if hex then 16 else 10;
    var body := if hex then u[2..] else u;
    var k := DigitRun(body, radix);
    if k == 0 then
      None
    else
      Some(RadixValue(body[..k], radix))
  }

  lemma DecimalDigitsAreRadix(s: string)
    requires AllDigits(s)
    ensures forall i :: 0 <= i < |s| ==> RadixDigit(s[i], 10) == Some(DigitValue(s[i]))
  {
  }

  lemma {:induction false} DigitsRadixValue(s: string)
    requires AllDigits(s)
    ensures forall i :: 0 <= i < |s| ==> RadixDigit(s[i], 10).Some?
    ensures RadixValue(s, 10) == DigitsValue(s)
    decreases |s|
  {
    DecimalDigitsAreRadix(s);
    if |s| > 0 {
      DigitsRadixValue(s[..|s| - 1]);
    }
  }

  /** Reading back the text `String(i)` with `parseInt` gives `i`, negative values included. */
  lemma ParseIntToString(i: int)
    ensures ParseInt(IntToString(i)) == Some(i)
  {
    if i < 0 {
      MagnitudeOfString(-i);
      ParseIntNegative(NatToString(-i), -i);
    } else {
      MagnitudeOfString(i);
      ParseIntUnsigned(NatToString(i), i);
    }
  }

  lemma ParseIntNegative(u: string, m: nat)
    requires ParseMagnitude(u) == Some(m)
    ensures ParseInt("-" + u) == Some(-(m as int))
  {
    var s := "-" + u;
    assert s[0] == '-' && s[1..] == u;
    TrimStartOfNonSpace(s);
  }

  lemma ParseIntUnsigned(u: string, m: nat)
    requires |u| > 0 && IsDigit(u[0])
    requires ParseMagnitude(u) == Some(m)
    ensures ParseInt(u) == Some(m)
  {
    TrimStartOfNonSpace(u);
  }

  /** Text that starts with neither white space, a sign nor a digit is `NaN` to `parseInt`. */
  lemma ParseIntOfNonDigit(s: string)
    requires |s| > 0 && !IsSpace(s[0]) && !IsDigit(s[0]) && s[0] != '-' && s[0] != '+'
    ensures ParseInt(s) == None
  {
    TrimStartOfNonSpace(s);
    assert RadixDigit(s[0], 10).None?;
  }

  lemma TrimStartOfNonSpace(s: string)
    requires |s| > 0 && !IsSpace(s[0])
    ensures TrimStart(s) == s
  {
  }

  lemma MagnitudeOfString(n: nat)
    ensures ParseMagnitude(NatToString(n)) == Some(n)
  {
    var digits := NatToString(n);
    DigitsRadixValue(digits);
    DigitRunAll(digits, 10);
    assert digits[..|digits|] == digits;
    NatToStringValue(n);
  }

  lemma {:induction false} DigitRunAll(s: string, radix: nat)
    requires forall i :: 0 <= i < |s| ==> RadixDigit(s[i], radix).Some?
    ensures DigitRun(s, radix) == |s|
    decreases |s|
  {
    if |s| > 0 {
      DigitRunAll(s[1..], radix);
    }
  }
}
