/**
 * Decimal text of integers, as PHP's string interpolation writes it, and
 * PHP's `intval` applied to a string (leading white space, an optional
 * sign, then the longest run of decimal digits).
 */
module Decimal {

  predicate IsDigit(c: char) {
    '0' <= c <= '9'
  }

  predicate AllDigits(s: string) {
    forall i :: 0 <= i < |s| ==> IsDigit(s[i])
  }

  /** The white space that PHP skips before a leading-numeric string. */
  predicate IsSpace(c: char) {
    c == ' ' || c == '\t' || c == '\n' || c == '\r' || c == '\U{0B}' || c == '\U{0C}'
  }

  function DigitChar(d: nat): (c: char)
    requires d < 10
    ensures IsDigit(c)
  {
    (('0' as int) + d) as char
  }

  function DigitValue(c: char): (d: nat)
    requires IsDigit(c)
    ensures d < 10
  {
    (c as int) - ('0' as int)
  }

  /** `strval($n)` for a natural number: its decimal digits, no leading zero. */
  function NatToString(n: nat): (s: string)
    ensures |s| >= 1
  {
    if n < 10 then [DigitChar(n)] else NatToString(n / 10) + [DigitChar(n % 10)]
  }

  /** The decimal text is all digits, has no leading zero, and is one digit exactly below 10. */
  lemma {:induction false} NatToStringDigits(n: nat)
    ensures AllDigits(NatToString(n))
    ensures n > 0 ==> NatToString(n)[0] != '0'
    ensures n < 10 <==> |NatToString(n)| == 1
  {
    if n >= 10 {
      NatToStringDigits(n / 10);
      var s := NatToString(n);
      assert s == NatToString(n / 10) + [DigitChar(n % 10)];
      assert s[0] == NatToString(n / 10)[0];
    }
  }

  /** `strval($i)` for any integer. */
  function IntToString(i: int): (s: string)
    ensures |s| >= 1
    ensures i < 0 <==> s[0] == '-'
  {
    NatToStringDigits(if i < 0 then -i else i);
    if i < 0 then "-" + NatToString(-i) else NatToString(i)
  }

  /** The number a run of decimal digits denotes, read from the left onto `acc`. */
  function DigitsValue(acc: nat, d: string): nat
    requires AllDigits(d)
    decreases |d|
  {
    if d == [] then acc else DigitsValue(acc * 10 + DigitValue(d[0]), d[1..])
  }

  /** `10` to the power `k`. */
  function Pow10(k: nat): (p: nat)
    ensures p >= 1
  {
    if k == 0 then 1 else 10 * Pow10(k - 1)
  }

  /** Multiplying both sides of `a <= b` by a natural number. */
  lemma MultiplyBoth(a: int, b: int, p: nat)
    requires a <= b
    ensures a * p <= b * p
  {
  }

  /** One digit read onto `acc`. */
  lemma DigitsValueCons(acc: nat, d: string)
    requires AllDigits(d) && d != []
    ensures DigitsValue(acc, d) == DigitsValue(acc * 10 + DigitValue(d[0]), d[1..])
  {
  }

  /** Reading digits onto `acc` shifts `acc` left by their count and adds their own value. */
  lemma {:induction false} DigitsValueShift(acc: nat, d: string)
    requires AllDigits(d)
    ensures DigitsValue(acc, d) == acc * Pow10(|d|) + DigitsValue(0, d)
    decreases |d|
  {
    if d != [] {
      var c := DigitValue(d[0]);
      var p := Pow10(|d| - 1);
      DigitsValueCons(0, d);
      DigitsValueCons(acc, d);
      hide DigitsValue;
      DigitsValueShift(acc * 10 + c, d[1..]);
      DigitsValueShift(c, d[1..]);
      assert Pow10(|d|) == 10 * p;
      ShiftDistributes(acc, c, p);
    }
  }

  /** The arithmetic step of `DigitsValueShift`. */
  lemma ShiftDistributes(acc: nat, c: nat, p: nat)
    ensures (acc * 10 + c) * p == acc * (10 * p) + c * p
  {
  }

  /** Dividing `n * p + r` by `p` gives back `n` when `r` is below `p`. */
  lemma DivideShifted(n: nat, p: nat, r: nat)
    requires p >= 1 && r < p
    ensures (n * p + r) / p == n
  {
    var x := n * p + r;
    var q := x / p;
    var m := x % p;
    assert q * p + m == x && 0 <= m < p;
    if q > n {
      MultiplyBoth(n + 1, q, p);
    } else if q < n {
      MultiplyBoth(q + 1, n, p);
    }
  }

  /** A run of `k` digits denotes less than `10^k`. */
  lemma {:induction false} DigitsValueBound(d: string)
    requires AllDigits(d)
    ensures DigitsValue(0, d) < Pow10(|d|)
    decreases |d|
  {
    if d != [] {
      var c := DigitValue(d[0]);
      var p := Pow10(|d| - 1);
      DigitsValueCons(0, d);
      hide DigitsValue;
      DigitsValueShift(c, d[1..]);
      DigitsValueBound(d[1..]);
      assert Pow10(|d|) == 10 * p;
      hide *;
      MultiplyBoth(c, 9, p);
    }
  }

  /** The suffix of `s` after its leading white space. */
  function SkipSpace(s: string): (t: string)
    ensures |t| <= |s|
    ensures t == [] || !IsSpace(t[0])
  {
    if s != [] && IsSpace(s[0]) then SkipSpace(s[1..]) else s
  }

  /** Skipping white space leaves a suffix. */
  lemma {:induction false} SkipSpaceSuffix(s: string)
    ensures SkipSpace(s) == s[|s| - |SkipSpace(s)|..]
  {
    if s != [] && IsSpace(s[0]) {
      SkipSpaceSuffix(s[1..]);
      assert s[1..][|s| - 1 - |SkipSpace(s)|..] == s[|s| - |SkipSpace(s)|..];
    }
  }

  /** The value of the leading run of digits of `s`, read onto `acc`. */
  function LeadingValue(s: string, acc: nat): nat {
    if s == [] || !IsDigit(s[0]) then acc else LeadingValue(s[1..], acc * 10 + DigitValue(s[0]))
  }

  /** PHP `intval($s)` for a string (exponent forms and overflow aside). */
  function IntVal(s: string): int {
    var t := SkipSpace(s);
    if t != [] && t[0] == '-' then -(LeadingValue(t[1..], 0) as int)
    else if t != [] && t[0] == '+' then LeadingValue(t[1..], 0)
    else LeadingValue(t, 0)
  }

  lemma {:induction false} DigitsValueSnoc(acc: nat, d: string, c: char)
    requires AllDigits(d) && IsDigit(c)
    ensures DigitsValue(acc, d + [c]) == DigitsValue(acc, d) * 10 + DigitValue(c)
    decreases |d|
  {
    if d != [] {
      assert (d + [c])[1..] == d[1..] + [c];
      DigitsValueSnoc(acc * 10 + DigitValue(d[0]), d[1..], c);
    }
  }

  lemma {:induction false} NatToStringValue(n: nat)
    ensures AllDigits(NatToString(n)) && DigitsValue(0, NatToString(n)) == n
  {
    NatToStringDigits(n);
    if n >= 10 {
      NatToStringDigits(n / 10);
      NatToStringValue(n / 10);
      DigitsValueSnoc(0, NatToString(n / 10), DigitChar(n % 10));
    }
  }

  lemma {:induction false} LeadingValueOfDigits(d: string, rest: string, acc: nat)
    requires AllDigits(d)
    requires rest == [] || !IsDigit(rest[0])
    ensures LeadingValue(d + rest, acc) == DigitsValue(acc, d)
  {
    if d != [] {
      assert (d + rest)[1..] == d[1..] + rest;
      LeadingValueOfDigits(d[1..], rest, acc * 10 + DigitValue(d[0]));
    }
  }

  /** `intval` reads back exactly the number `strval` wrote, when a non-digit follows. */
  lemma IntValOfNatToString(n: nat, rest: string)
    requires rest == [] || !IsDigit(rest[0])
    ensures IntVal(NatToString(n) + rest) == n
  {
    var d := NatToString(n);
    NatToStringDigits(n);
    assert SkipSpace(d + rest) == d + rest;
    LeadingValueOfDigits(d, rest, 0);
    NatToStringValue(n);
  }

  /** With no digits in front, `intval` gives 0. */
  lemma IntValOfNonDigit(s: string)
    requires s != [] && !IsDigit(s[0]) && !IsSpace(s[0]) && s[0] != '+' && s[0] != '-'
    ensures IntVal(s) == 0
  {
  }
}
