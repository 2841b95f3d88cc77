/**
 * The loosely typed PHP values the query builders and the connection
 * settings accept as arguments, with the PHP tests applied to them.
 */
module PhpValue {
  import opened Wrappers
  import opened Decimal

  /** A PHP value; float values and resources are not modelled (a numeric string may still denote a float). */
  datatype Value =
    | Null
    | Bool(b: bool)
    | Int(i: int)
    | Str(s: string)
    | Arr(entries: seq<(string, Value)>)
    | Object

  /** PHP `empty()`: null, false, 0, "", "0" and the empty array. */
  predicate Empty(v: Value) {
    match v
    case Null => true
    case Bool(b) => !b
    case Int(i) => i == 0
    case Str(s) => s == "" || s == "0"
    case Arr(e) => e == []
    case Object => false
  }

  /** Whether `t` starts with a sign. */
  predicate Signed(t: string) {
    t != [] && (t[0] == '+' || t[0] == '-')
  }

  /** `t` past its sign, if it has one. */
  function AfterSign(t: string): (u: string)
    ensures u == if Signed(t) then t[1..] else t
  {
    if Signed(t) then t[1..] else t
  }

  /** The optional white space, sign and digits, then white space, of a numeric integer string. */
  predicate IntegerString(s: string) {
    var u := AfterSign(SkipSpace(s));
    var d := DigitRun(u);
    d != [] && forall i :: |d| <= i < |u| ==> IsSpace(u[i])
  }

  /** The leading run of digits of `s`. */
  function DigitRun(s: string): (d: string)
    ensures |d| <= |s| && d == s[..|d|] && AllDigits(d)
    ensures |d| < |s| ==> !IsDigit(s[|d|])
  {
    if s != [] && IsDigit(s[0]) then [s[0]] + DigitRun(s[1..]) else []
  }

  /**
   * A number read from a string: an integer, or, once a decimal point or an
   * exponent occurs, a float, held exactly as a sign, digits and a power of ten.
   */
  datatype Number = IntNumber(i: int) | FloatNumber(negative: bool, digits: nat, scale: int)

  /** An exponent at the head of `s` (`e` or `E`, a sign, digits): its value and length. */
  function ExponentPart(s: string): (r: Option<(int, nat)>)
    ensures r.Some? ==> 2 <= r.value.1 <= |s| && (s[0] == 'e' || s[0] == 'E')
    ensures s == [] || (s[0] != 'e' && s[0] != 'E') ==> r.None?
  {
    if s == [] || (s[0] != 'e' && s[0] != 'E') then None
    else
      var w := s[1..];
      var signed := w != [] && (w[0] == '+' || w[0] == '-');
      var d := DigitRun(if signed then w[1..] else w);
      if d == [] then None
      else
        var k := DigitsValue(0, d);
        Some((if signed && w[0] == '-' then -(k as int) else k, 1 + (if signed then 1 else 0) + |d|))
  }

  /**
   * The digits of a number before its exponent: their value read as one
   * run, how many of them follow the point, whether there is a point, and
   * the length of text they take.
   */
  datatype Mantissa = Mantissa(digits: nat, fractionLength: nat, point: bool, length: nat)

  /** Digits with an optional point and fraction at the head of `u`, one digit at least. */
  function MantissaPart(u: string): (r: Option<Mantissa>)
    ensures r.Some? ==> 0 < r.value.length <= |u|
    ensures r.Some? && !r.value.point ==> r.value.fractionLength == 0
  {
    var whole := DigitRun(u);
    var after := u[|whole|..];
    var point := after != [] && after[0] == '.';
    var fraction := if point then DigitRun(after[1..]) else [];
    if whole == [] && fraction == [] then None
    else
      Some(Mantissa(DigitsValue(DigitsValue(0, whole), fraction), |fraction|, point,
        |whole| + (if point then 1 + |fraction| else 0)))
  }

  /** An unsigned number at the head of `u`, and its length: an integer unless a point or an exponent occurs. */
  function UnsignedPrefix(u: string): (r: Option<(Number, nat)>)
    ensures r.Some? ==> 0 < r.value.1 <= |u|
    ensures r.Some? && r.value.0.FloatNumber? ==> !r.value.0.negative
    ensures r.Some? && r.value.0.IntNumber? ==> r.value.0.i >= 0
  {
    match MantissaPart(u)
    case None => None
    case Some(m) =>
      var exponent := ExponentPart(u[m.length..]);
      var number :=
        if !m.point && exponent.None? then IntNumber(m.digits)
        else FloatNumber(false, m.digits, (if exponent.Some? then exponent.value.0 else 0) - m.fractionLength);
      Some((number, m.length + (if exponent.Some? then exponent.value.1 else 0)))
  }

  /** The number with a minus sign in front. */
  function Negate(n: Number): (r: Number)
    ensures r.IntNumber? <==> n.IntNumber?
  {
    match n
    case IntNumber(i) => IntNumber(-i)
    case FloatNumber(_, digits, scale) => FloatNumber(true, digits, scale)
  }

  /**
   * The number at the head of `s` as PHP reads it, and how much of `s` it
   * takes: white space, a sign, digits with an optional point and fraction
   * (one digit at least), then an optional exponent.
   */
  function NumberPrefix(s: string): (r: Option<(Number, nat)>)
    ensures r.Some? ==> 0 < r.value.1 <= |s|
  {
    var t := SkipSpace(s);
    var u := AfterSign(t);
    match UnsignedPrefix(u)
    case None => None
    case Some((number, length)) =>
      Some((if Signed(t) && t[0] == '-' then Negate(number) else number, |s| - |u| + length))
  }

  /** A numeric string: its number followed by nothing but white space. */
  predicate NumericString(s: string) {
    var r := NumberPrefix(s);
    r.Some? && forall i :: r.value.1 <= i < |s| ==> IsSpace(s[i])
  }

  /** PHP `is_numeric()`: an integer or a numeric string (floats are not values here). */
  predicate IsNumeric(v: Value) {
    match v
    case Int(_) => true
    case Str(s) => NumericString(s)
    case _ => false
  }

  /** The integer part of a number: a float is truncated toward zero. */
  function Truncate(n: Number): (i: int)
    ensures n.FloatNumber? && n.scale >= 0 ==> i == (if n.negative then -1 else 1) * n.digits * Pow10(n.scale)
    ensures n.FloatNumber? && n.scale < 0 ==> i == (if n.negative then -1 else 1) * (n.digits / Pow10(-n.scale))
  {
    match n
    case IntNumber(i) => i
    case FloatNumber(negative, digits, scale) =>
      var magnitude := if scale >= 0 then digits * Pow10(scale) else digits / Pow10(-scale);
      if negative then -magnitude else magnitude
  }

  /** `(integer) $v` for a numeric value. */
  function IntCast(v: Value): int
    requires IsNumeric(v)
  {
    match v
    case Int(i) => i
    case Str(s) => Truncate(NumberPrefix(s).value.0)
  }

  /** The digit run of digits followed by a non-digit is those digits. */
  lemma {:induction false} DigitRunOf(d: string, rest: string)
    requires AllDigits(d) && (rest == [] || !IsDigit(rest[0]))
    ensures DigitRun(d + rest) == d
    decreases |d|
  {
    if d != [] {
      assert (d + rest)[1..] == d[1..] + rest;
      DigitRunOf(d[1..], rest);
    }
  }

  /** A whole number, then text that neither continues it nor starts a fraction, is a mantissa without a point. */
  lemma WholeMantissa(whole: string, rest: string)
    requires whole != [] && AllDigits(whole)
    requires rest == [] || (!IsDigit(rest[0]) && rest[0] != '.')
    ensures MantissaPart(whole + rest) == Some(Mantissa(DigitsValue(0, whole), 0, false, |whole|))
  {
    DigitRunOf(whole, rest);
    assert (whole + rest)[|whole|..] == rest;
  }

  /** Concatenation regrouped, away from any quantified facts about the parts. */
  lemma Regroup(a: string, b: string, c: string, d: string)
    ensures a + (b + c + d) == a + b + c + d
  {
  }

  /** Concatenation regrouped, three parts. */
  lemma Regroup3(a: string, b: string, c: string)
    ensures a + b + c == a + (b + c)
  {
  }

  /** Appending nothing. */
  lemma AppendEmpty(a: string)
    ensures a + [] == a
  {
  }

  /** The mantissa of `u` once its whole digits, its point and its fraction digits are known. */
  lemma MantissaWithPoint(u: string, whole: string, fraction: string)
    requires DigitRun(u) == whole && whole != []
    requires |whole| < |u| && u[|whole|] == '.' && DigitRun(u[|whole| + 1..]) == fraction
    ensures MantissaPart(u) ==
      Some(Mantissa(DigitsValue(DigitsValue(0, whole), fraction), |fraction|, true, |whole| + 1 + |fraction|))
  {
    hide DigitRun, DigitsValue;
    assert u[|whole|..][1..] == u[|whole| + 1..];
  }

  /** A whole number, a point and a fraction, then text that is not a digit, is a mantissa with a point. */
  lemma PointMantissa(whole: string, fraction: string, rest: string)
    requires whole != [] && AllDigits(whole) && AllDigits(fraction)
    requires rest == [] || !IsDigit(rest[0])
    ensures MantissaPart(whole + "." + fraction + rest) ==
      Some(Mantissa(DigitsValue(DigitsValue(0, whole), fraction), |fraction|, true, |whole| + 1 + |fraction|))
  {
    hide DigitRun, DigitsValue, AllDigits, MantissaPart;
    var tail := "." + fraction + rest;
    var u := whole + tail;
    Regroup(whole, ".", fraction, rest);
    DigitRunOf(whole, tail);
    DigitRunOf(fraction, rest);
    assert u[|whole|] == '.';
    assert u[|whole| + 1..] == fraction + rest;
    hide *;
    MantissaWithPoint(u, whole, fraction);
  }

  /** An exponent of digits only, `e` then a natural number, then nothing. */
  lemma PlainExponent(k: nat)
    ensures ExponentPart("e" + NatToString(k)) == Some((k as int, 1 + |NatToString(k)|))
  {
    var power := NatToString(k);
    NatToStringDigits(k);
    NatToStringValue(k);
    assert ("e" + power)[1..] == power;
    DigitRunOf(power, []);
    assert power + [] == power;
  }

  /** A string that starts with a digit is read without white space or sign. */
  lemma DigitFirst(s: string)
    requires s != [] && IsDigit(s[0])
    ensures NumberPrefix(s) == UnsignedPrefix(s)
  {
    assert SkipSpace(s) == s;
    assert !Signed(s) && AfterSign(s) == s;
    hide SkipSpace, Signed, AfterSign, UnsignedPrefix, MantissaPart, ExponentPart, DigitRun, DigitsValue;
  }

  /** What is left after white space and a sign is a suffix of the string. */
  lemma AfterSignSuffix(s: string)
    ensures var u := AfterSign(SkipSpace(s)); u == s[|s| - |u|..]
  {
    var t := SkipSpace(s);
    var u := AfterSign(t);
    SkipSpaceSuffix(s);
    if Signed(t) {
      assert u == t[1..];
      assert t == s[|s| - |t|..];
      assert u == s[|s| - |t| + 1..];
    }
  }

  /** The number at the head of `s` is the unsigned one after white space and sign, with the sign applied. */
  lemma NumberPrefixParts(s: string)
    ensures var t := SkipSpace(s); var u := AfterSign(t); var r := UnsignedPrefix(u);
      NumberPrefix(s) == if r.None? then None
        else Some((if Signed(t) && t[0] == '-' then Negate(r.value.0) else r.value.0, |s| - |u| + r.value.1))
  {
    hide SkipSpace, Signed, AfterSign, UnsignedPrefix, MantissaPart, ExponentPart, DigitRun, DigitsValue;
  }

  /** Digits followed by white space only are read as an integer, over the digits. */
  lemma SpacedWhole(u: string)
    requires DigitRun(u) != [] && forall i :: |DigitRun(u)| <= i < |u| ==> IsSpace(u[i])
    ensures UnsignedPrefix(u) == Some((IntNumber(DigitsValue(0, DigitRun(u))), |DigitRun(u)|))
    ensures LeadingValue(u, 0) == DigitsValue(0, DigitRun(u))
  {
    var whole := DigitRun(u);
    var after := u[|whole|..];
    assert u == whole + after;
    assert after != [] ==> after[0] == u[|whole|];
    LeadingValueOfDigits(whole, after, 0);
    WholeMantissa(whole, after);
    assert ExponentPart(after) == None;
    hide DigitRun, DigitsValue, MantissaPart, ExponentPart;
  }

  /** A number read as an integer takes exactly its leading digits. */
  lemma IntegerLength(u: string)
    requires UnsignedPrefix(u).Some? && UnsignedPrefix(u).value.0.IntNumber?
    ensures UnsignedPrefix(u).value.1 == |DigitRun(u)|
  {
    var m := MantissaPart(u).value;
    assert !m.point && ExponentPart(u[m.length..]).None?;
    assert m.length == |DigitRun(u)|;
  }

  /** `intval` reads the digits after white space and sign, negated after a minus. */
  lemma IntValParts(s: string)
    ensures var t := SkipSpace(s); var v := LeadingValue(AfterSign(t), 0) as int;
      IntVal(s) == if Signed(t) && t[0] == '-' then -v else v
  {
  }

  /** An integer string is numeric, and read as the integer `intval` gives. */
  lemma IntegerStringNumber(s: string)
    requires IntegerString(s)
    ensures NumericString(s) && NumberPrefix(s).value.0 == IntNumber(IntVal(s))
  {
    var t := SkipSpace(s);
    var u := AfterSign(t);
    var whole := DigitRun(u);
    NumberPrefixParts(s);
    AfterSignSuffix(s);
    IntValParts(s);
    var k := |s| - |u|;
    assert u == s[k..];
    hide NumberPrefix, SkipSpace, Signed, AfterSign, UnsignedPrefix, MantissaPart, ExponentPart, DigitsValue,
      IntVal, LeadingValue;
    SpacedWhole(u);
    hide IntegerString, DigitRun;
    forall i | k + |whole| <= i < |s|
      ensures IsSpace(s[i])
    {
      assert s[i] == s[k..][i - k] == u[i - k];
    }
  }

  /** A numeric string read as an integer is an integer string. */
  lemma NumberIntegerString(s: string)
    requires NumericString(s) && NumberPrefix(s).value.0.IntNumber?
    ensures IntegerString(s)
  {
    var t := SkipSpace(s);
    var u := AfterSign(t);
    var whole := DigitRun(u);
    NumberPrefixParts(s);
    AfterSignSuffix(s);
    assert u == s[|s| - |u|..];
    hide NumberPrefix, SkipSpace, Signed, AfterSign, MantissaPart, ExponentPart, DigitRun, DigitsValue;
    IntegerLength(u);
    hide UnsignedPrefix;
    var k := |s| - |u|;
    forall i | |whole| <= i < |u|
      ensures IsSpace(u[i])
    {
      assert u[i] == s[k..][i] == s[k + i];
    }
  }

  /**
   * The numeric strings read as integers are exactly the integer strings,
   * and their value is the one `intval` reads.
   */
  lemma IntegerNumbers(s: string)
    ensures IntegerString(s) <==> NumericString(s) && NumberPrefix(s).value.0.IntNumber?
    ensures IntegerString(s) ==> NumberPrefix(s).value.0 == IntNumber(IntVal(s))
  {
    if IntegerString(s) {
      IntegerStringNumber(s);
    }
    if NumericString(s) && NumberPrefix(s).value.0.IntNumber? {
      NumberIntegerString(s);
    }
  }

  /** A string that starts with neither white space, a sign, a digit nor a point holds no number. */
  lemma NoNumberAhead(s: string)
    requires s != [] && !IsSpace(s[0]) && !Signed(s) && !IsDigit(s[0]) && s[0] != '.'
    ensures NumberPrefix(s) == None && !IsNumeric(Str(s))
  {
    assert SkipSpace(s) == s && AfterSign(s) == s;
    assert DigitRun(s) == [];
    assert MantissaPart(s) == None;
    hide SkipSpace, AfterSign, Signed, DigitRun, MantissaPart;
  }

  /** The decimal text of `n` in front of other text: read from its first digit, and worth `n`. */
  lemma NatInFront(n: nat, rest: string)
    ensures var s := NatToString(n) + rest;
      s != [] && IsDigit(s[0]) && NumberPrefix(s) == UnsignedPrefix(s) &&
      NatToString(n) != [] && AllDigits(NatToString(n)) && DigitsValue(0, NatToString(n)) == n &&
      s[|NatToString(n)|..] == rest
  {
    var whole := NatToString(n);
    NatToStringDigits(n);
    NatToStringValue(n);
    assert IsDigit(whole[0]);
    var s := whole + rest;
    assert s[0] == whole[0];
    hide AllDigits, NatToString, DigitsValue;
    DigitFirst(s);
  }

  /** A decimal fraction after a whole number is a float, which `(integer)` truncates to the whole number. */
  lemma FractionTruncates(n: nat, fraction: string)
    requires AllDigits(fraction)
    ensures var s := NatToString(n) + "." + fraction;
      var x := FloatNumber(false, n * Pow10(|fraction|) + DigitsValue(0, fraction), -|fraction|);
      NumberPrefix(s) == Some((x, |s|)) && NumericString(s) && Truncate(x) == n
  {
    var whole := NatToString(n);
    var s := whole + "." + fraction;
    NatInFront(n, "." + fraction);
    Regroup3(whole, ".", fraction);
    AppendEmpty(s);
    hide AllDigits, NatToString, DigitRun, MantissaPart, NumberPrefix;
    PointMantissa(whole, fraction, []);
    DigitsValueShift(n, fraction);
    DigitsValueBound(fraction);
    hide DigitsValue;
    DivideShifted(n, Pow10(|fraction|), DigitsValue(0, fraction));
  }

  /** The number `"n.f"` reads as: its digits over `10^|f|`, taking the whole text. */
  lemma FractionNumber(n: nat, fraction: string)
    requires AllDigits(fraction)
    ensures NumberPrefix(NatToString(n) + "." + fraction) ==
      Some((FloatNumber(false, n * Pow10(|fraction|) + DigitsValue(0, fraction), -|fraction|), |NatToString(n) + "." + fraction|))
  {
    FractionTruncates(n, fraction);
  }

  /** A whole number with an exponent is a float; `(integer)` gives the number times that power of ten. */
  lemma ExponentScales(n: nat, k: nat)
    ensures var s := NatToString(n) + "e" + NatToString(k);
      NumberPrefix(s) == Some((FloatNumber(false, n, k), |s|)) && NumericString(s) &&
      Truncate(FloatNumber(false, n, k)) == n * Pow10(k)
  {
    var whole := NatToString(n);
    var power := "e" + NatToString(k);
    var s := whole + "e" + NatToString(k);
    Regroup3(whole, "e", NatToString(k));
    NatInFront(n, power);
    PlainExponent(k);
    hide AllDigits, NatToString, DigitRun, DigitsValue, NumberPrefix;
    WholeMantissa(whole, power);
  }

  /**
   * A whole number followed by text that cannot continue it is read as
   * that integer; the string is numeric only when the text is white space.
   */
  lemma LeadingInteger(n: nat, rest: string)
    requires rest != [] && !IsDigit(rest[0]) && rest[0] != '.' && rest[0] != 'e' && rest[0] != 'E'
    ensures NumberPrefix(NatToString(n) + rest) == Some((IntNumber(n), |NatToString(n)|))
    ensures !IsSpace(rest[0]) ==> !NumericString(NatToString(n) + rest)
  {
    var whole := NatToString(n);
    var s := whole + rest;
    NatInFront(n, rest);
    hide AllDigits, NatToString, DigitRun, DigitsValue, NumberPrefix;
    WholeMantissa(whole, rest);
    assert s[|whole|] == rest[0];
  }

  /** `(string) $v`; an object without `__toString` cannot be converted. */
  function StrCast(v: Value): (r: Result<string>)
    ensures r.Failure? <==> v.Object?
    ensures v.Str? ==> r == Success(v.s)
    ensures v.Null? || v == Bool(false) ==> r == Success("")
  {
    match v
    case Null => Success("")
    case Bool(b) => Success(if b then "1" else "")
    case Int(i) => Success(IntToString(i))
    case Str(s) => Success(s)
    case Arr(_) => Success("Array")
    case Object => Failure("Object could not be converted to string")
  }

  /** `array_key_exists($key, $a)`. */
  predicate HasKey(entries: seq<(string, Value)>, key: string) {
    exists i :: 0 <= i < |entries| && entries[i].0 == key
  }

  /** `$a[$key]`: null when the key is absent. */
  function Lookup(entries: seq<(string, Value)>, key: string): (v: Value)
    ensures !HasKey(entries, key) ==> v == Null
  {
    if entries == [] then Null
    else if entries[0].0 == key then entries[0].1
    else Lookup(entries[1..], key)
  }

  /** A key is in an array with a first entry when it is that entry's key or a key of the rest. */
  lemma HasKeyCons(first: (string, Value), rest: seq<(string, Value)>)
    ensures forall k :: HasKey([first] + rest, k) <==> first.0 == k || HasKey(rest, k)
  {
    forall k | HasKey([first] + rest, k) && first.0 != k
      ensures HasKey(rest, k)
    {
      var i :| 0 <= i < |[first] + rest| && ([first] + rest)[i].0 == k;
      assert rest[i - 1].0 == k;
    }
    forall k | HasKey(rest, k)
      ensures HasKey([first] + rest, k)
    {
      var i :| 0 <= i < |rest| && rest[i].0 == k;
      assert ([first] + rest)[i + 1].0 == k;
    }
    assert ([first] + rest)[0].0 == first.0;
  }

  /** `$a[$key] = $v`: replace the value in place when the key exists, append the entry otherwise. */
  function Assign(entries: seq<(string, Value)>, key: string, v: Value): (r: seq<(string, Value)>)
    ensures HasKey(r, key) && Lookup(r, key) == v
    ensures forall k :: k != key ==> (HasKey(r, k) <==> HasKey(entries, k)) && Lookup(r, k) == Lookup(entries, k)
  {
    if entries == [] then
      HasKeyCons((key, v), []);
      [(key, v)]
    else
      assert entries == [entries[0]] + entries[1..];
      HasKeyCons(entries[0], entries[1..]);
      if entries[0].0 == key then
        HasKeyCons((key, v), entries[1..]);
        [(key, v)] + entries[1..]
      else
        var rest := Assign(entries[1..], key, v);
        HasKeyCons(entries[0], rest);
        [entries[0]] + rest
  }
}
