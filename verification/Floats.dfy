/** Which texts are positive, finite floating-point numbers of double precision. */
module Floats {
  import opened Wrappers
  import opened Text

  /** `digits` times ten to the power of `exponent`. */
  datatype Scientific = Scientific(digits: nat, exponent: int)

  function Pow(base: nat, n: nat): nat {
    if n == 0 then 1 else base * Pow(base, n - 1)
  }

  /** The position of the letter before the exponent, or the length of the text. */
  function ExponentAt(s: string): (n: nat)
    ensures n <= |s|
    ensures n < |s| ==> s[n] == 'e' || s[n] == 'E'
  {
    if s == [] || s[0] == 'e' || s[0] == 'E' then 0 else 1 + ExponentAt(s[1..])
  }

  function ParseExponent(s: string): Option<int> {
    var negative := s != [] && s[0] == '-';
    var digits := if s != [] && (s[0] == '-' || s[0] == '+') then s[1..] else s;
    if digits == [] || !AllDigits(digits) then None
    else
      var n: int := DigitsValue(digits);
      Some(if negative then -n else n)
  }

  /** Digits, with at most one point among or beside them, but not the point alone. */
  function ParseMantissa(s: string): Option<Scientific> {
    var (whole, fraction) :=
      match SplitOnce(s, ".")
      case None => (s, [])
      case Some((left, right)) => (left, right);
    var digits := whole + fraction;
    if digits == [] || !AllDigits(digits) then None else Some(Scientific(DigitsValue(digits), -|fraction|))
  }

  function ParseScientific(s: string): Option<Scientific> {
    var n := ExponentAt(s);
    match ParseMantissa(s[..n])
    case None => None
    case Some(mantissa) =>
      if n == |s| then Some(mantissa)
      else
        match ParseExponent(s[n + 1..])
        case None => None
        case Some(exponent) => Some(Scientific(mantissa.digits, mantissa.exponent + exponent))
  }

  /** The smallest number that is rounded to infinity. */
  function Infinite(): int {
    Pow(2, 1024) - Pow(2, 970)
  }

  /** The number is neither rounded to zero, as half the smallest positive one is, nor to infinity. */
  predicate InRange(x: Scientific) {
    if x.exponent >= 0 then 0 < x.digits * Pow(10, x.exponent) < Infinite()
    else
      var scale := Pow(10, -x.exponent);
      scale < x.digits * Pow(2, 1075) && x.digits < Infinite() * scale
  }

  /** Infinities, not-a-number and numbers with a minus sign are not positive and finite. */
  predicate PositiveFinite(s: string) {
    var x := ParseScientific(if s != [] && s[0] == '+' then s[1..] else s);
    x.Some? && InRange(x.value)
  }

  lemma {:induction false} NoExponent(s: string)
    requires AllDigits(s)
    ensures ExponentAt(s) == |s|
  {
    if s != [] {
      NoExponent(s[1..]);
    }
  }

  lemma NoPoint(s: string)
    requires AllDigits(s)
    ensures SplitOnce(s, ".") == None
  {
    SplitOnceNone(s, ".");
    forall i | 0 <= i <= |s| ensures !("." <= s[i..]) {
      assert i < |s| ==> s[i..][0] == s[i];
    }
  }

  /** A whole number is one exactly if it is positive and not rounded to infinity. */
  lemma WholeNumbers(n: nat)
    ensures PositiveFinite(Decimal(n)) <==> 0 < n < Pow(2, 1024) - Pow(2, 970)
  {
    hide SplitOnce, Infinite, Decimal, DigitsValue, Pow, InRange, ExponentAt;
    var s := Decimal(n);
    DecimalValue(n);
    NoExponent(s);
    NoPoint(s);
    assert s[..|s|] == s && s + [] == s;
    WholeInRange(n);
  }

  lemma WholeInRange(n: nat)
    ensures InRange(Scientific(n, 0)) <==> 0 < n < Pow(2, 1024) - Pow(2, 970)
  {
    assert Pow(10, 0) == 1;
  }

  lemma TimesTen(x: nat, p: nat, y: nat, d: nat)
    ensures (x * p + y) * 10 + d == x * (10 * p) + (y * 10 + d)
  {
  }

  lemma {:induction false} DigitsJoined(a: string, b: string)
    requires AllDigits(a) && AllDigits(b)
    ensures AllDigits(a + b) && DigitsValue(a + b) == DigitsValue(a) * Pow(10, |b|) + DigitsValue(b)
    decreases |b|
  {
    if b == [] {
      assert a + b == a;
    } else {
      var front, d := b[..|b| - 1], b[|b| - 1];
      DigitsJoined(a, front);
      assert (a + b)[..|a + b| - 1] == a + front && (a + b)[|a + b| - 1] == d;
      assert Pow(10, |b|) == 10 * Pow(10, |front|);
      var digit: nat := (d - '0') as nat;
      assert DigitsValue(a + b) == DigitsValue(a + front) * 10 + digit;
      assert DigitsValue(b) == DigitsValue(front) * 10 + digit;
      TimesTen(DigitsValue(a), Pow(10, |front|), DigitsValue(front), digit);
      hide DigitsValue, Pow;
    }
  }

  /** A decimal fraction: the whole number and the digits behind the point, to the power of their number. */
  lemma Fractions(a: nat, fraction: string)
    requires AllDigits(fraction)
    ensures var number, scale := a * Pow(10, |fraction|) + DigitsValue(fraction), Pow(10, |fraction|);
      PositiveFinite(Decimal(a) + "." + fraction) <==>
        scale < number * Pow(2, 1075) && number < (Pow(2, 1024) - Pow(2, 970)) * scale
  {
    FractionInRange(a, fraction);
    var whole := Decimal(a);
    var s := whole + "." + fraction;
    hide SplitOnce, InRange, Decimal, Pow, ExponentAt;
    FractionMantissa(a, fraction);
    PointHasNoExponent(whole, fraction);
    assert s[..|s|] == s && s[0] == whole[0];
    hide ParseMantissa, DigitsValue;
  }

  lemma FractionInRange(a: nat, fraction: string)
    requires AllDigits(fraction)
    ensures var number, scale := a * Pow(10, |fraction|) + DigitsValue(fraction), Pow(10, |fraction|);
      InRange(Scientific(number, -|fraction|)) <==>
        scale < number * Pow(2, 1075) && number < (Pow(2, 1024) - Pow(2, 970)) * scale
  {
    hide DigitsValue, Pow, InRange;
    var number := a * Pow(10, |fraction|) + DigitsValue(fraction);
    if fraction == [] {
      PointAlone(number);
    } else {
      BelowOne(number, |fraction|);
    }
  }

  lemma PointAlone(number: nat)
    ensures Pow(10, 0) == 1
    ensures InRange(Scientific(number, 0)) <==>
      1 < number * Pow(2, 1075) && number < (Pow(2, 1024) - Pow(2, 970)) * 1
  {
    assert Pow(10, 0) == 1;
    PowDoubles(1074);
    var p := Pow(2, 1075);
    hide Pow;
    Doubled(number, p);
  }

  lemma Doubled(number: nat, p: nat)
    requires p >= 2
    ensures number > 0 <==> number * p > 1
  {
  }

  lemma BelowOne(number: nat, k: int)
    requires k > 0
    ensures InRange(Scientific(number, -k)) <==>
      Pow(10, k) < number * Pow(2, 1075) && number < (Pow(2, 1024) - Pow(2, 970)) * Pow(10, k)
  {
    hide Pow;
  }

  lemma {:induction false} PowPositive(n: nat)
    ensures Pow(2, n) >= 1
  {
    if n > 0 {
      PowPositive(n - 1);
    }
  }

  lemma PowDoubles(n: nat)
    ensures Pow(2, n + 1) >= 2
  {
    PowPositive(n);
  }

  lemma FractionMantissa(a: nat, fraction: string)
    requires AllDigits(fraction)
    ensures ParseMantissa(Decimal(a) + "." + fraction)
         == Some(Scientific(a * Pow(10, |fraction|) + DigitsValue(fraction), -|fraction|))
  {
    hide SplitOnce, Decimal, Pow, DigitsValue;
    DecimalValue(a);
    DigitsJoined(Decimal(a), fraction);
    SplitAtPoint(Decimal(a), fraction);
  }

  lemma PointHasNoExponent(whole: string, fraction: string)
    requires AllDigits(whole) && AllDigits(fraction)
    ensures ExponentAt(whole + "." + fraction) == |whole + "." + fraction|
  {
    var s := whole + "." + fraction;
    forall k | 0 <= k < |s| ensures s[k] != 'e' && s[k] != 'E' {
    }
    NoLetter(s);
  }

  lemma {:induction false} NoLetter(s: string)
    requires forall k | 0 <= k < |s| :: s[k] != 'e' && s[k] != 'E'
    ensures ExponentAt(s) == |s|
  {
    if s != [] {
      NoLetter(s[1..]);
    }
  }

  lemma SplitAtPoint(whole: string, fraction: string)
    requires AllDigits(whole)
    ensures SplitOnce(whole + "." + fraction, ".") == Some((whole, fraction))
  {
    forall i | 0 <= i < |whole| ensures !("." <= (whole + ".")[i..]) {
      assert (whole + ".")[i..][0] == whole[i];
    }
    SplitOnceExact(whole, ".", fraction);
  }

  /** A whole number with an exponent. */
  lemma Exponents(a: nat, exponent: int)
    ensures PositiveFinite(Decimal(a) + "e" + SignedDecimal(exponent)) <==>
      if exponent >= 0 then 0 < a * Pow(10, exponent) < Pow(2, 1024) - Pow(2, 970)
      else Pow(10, -exponent) < a * Pow(2, 1075) && a < (Pow(2, 1024) - Pow(2, 970)) * Pow(10, -exponent)
  {
    hide SplitOnce, InRange, Decimal, SignedDecimal, DigitsValue, ExponentAt, ParseExponent, ParseMantissa, Pow;
    var whole, power := Decimal(a), SignedDecimal(exponent);
    var s := whole + "e" + power;
    ExponentFound(whole, power);
    ExponentRead(exponent);
    WholeMantissa(a);
    PowerInRange(a, exponent);
    assert s[..|whole|] == whole && s[|whole| + 1..] == power && s[0] == whole[0];
  }

  lemma PowerInRange(a: nat, exponent: int)
    ensures InRange(Scientific(a, exponent)) <==>
      if exponent >= 0 then 0 < a * Pow(10, exponent) < Pow(2, 1024) - Pow(2, 970)
      else Pow(10, -exponent) < a * Pow(2, 1075) && a < (Pow(2, 1024) - Pow(2, 970)) * Pow(10, -exponent)
  {
  }

  lemma WholeMantissa(a: nat)
    ensures ParseMantissa(Decimal(a)) == Some(Scientific(a, 0))
  {
    hide SplitOnce, Decimal, DigitsValue;
    DecimalValue(a);
    NoPoint(Decimal(a));
    assert Decimal(a) + [] == Decimal(a);
  }

  lemma ExponentRead(exponent: int)
    ensures ParseExponent(SignedDecimal(exponent)) == Some(exponent)
  {
    var digits := Decimal(if exponent < 0 then -exponent else exponent);
    DecimalValue(if exponent < 0 then -exponent else exponent);
    assert IsDigit(digits[0]);
    if exponent < 0 {
      assert SignedDecimal(exponent)[1..] == digits;
    }
  }

  lemma {:induction false} ExponentFound(whole: string, power: string)
    requires AllDigits(whole)
    ensures ExponentAt(whole + "e" + power) == |whole|
    decreases |whole|
  {
    if whole != [] {
      ExponentFound(whole[1..], power);
      assert (whole + "e" + power)[1..] == whole[1..] + "e" + power;
    }
  }
}
