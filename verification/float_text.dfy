/** What `int(float(price))` does to a quote's price: Python's `float()`
    reads a number from text, and `int()` truncates it toward zero. The value
    of a finite float is kept exact here (see README, "Left out"). */
module FloatText {
  import opened Wrappers
  import opened Digits

  /** The exact number `units * 10^exponent`. */
  datatype Scaled = Scaled(units: int, exponent: int)

  /** What `float()` makes of a string: a finite number, an infinity, a NaN,
      or nothing (it raises ValueError). */
  datatype FloatValue = Finite(value: Scaled) | Infinite | NotANumber | Invalid

  function Abs(i: int): nat {
    if i < 0 then -i else i
  }

  /** `int()` of a finite number: the integer part, truncated toward zero. */
  function Truncate(x: Scaled): int
  {
    if x.exponent >= 0 then x.units * Pow10(x.exponent)
    else DivTowardZero(x.units, Pow10(-x.exponent))
  }

  /** `u / p` rounded toward zero, as Python's `int()` rounds (Dafny's own `/`
      rounds a negative quotient down instead). */
  function DivTowardZero(u: int, p: nat): int
    requires p >= 1
  {
    var q := Abs(u) / p;
    if u >= 0 then q else -q
  }

  /** The quotient rounded toward zero is the whole number of times `p`
      fits into `u`, with the sign of `u`. */
  lemma DivTowardZeroBounds(u: int, p: nat)
    requires p >= 1
    ensures var t := DivTowardZero(u, p); Abs(t) * p <= Abs(u) < (Abs(t) + 1) * p
    ensures var t := DivTowardZero(u, p); t == 0 || (t < 0 <==> u < 0)
  {
    var n := Abs(u);
    var q := n / p;
    DivisionBounds(n, p);
    if q < 0 {
      MulMonotone(q + 1, 0, p);
    }
    assert Abs(DivTowardZero(u, p)) == q;
  }

  /** Reference definition of truncation toward zero: `t` is `x` when `x` is
      whole; otherwise `|t|` is the number of whole times `10^-exponent` fits
      into `|units|`, and `t` has the sign of `units`. */
  predicate TruncatesTo(x: Scaled, t: int) {
    if x.exponent >= 0 then t == x.units * Pow10(x.exponent)
    else
      var p := Pow10(-x.exponent);
      && Abs(t) * p <= Abs(x.units) < (Abs(t) + 1) * p
      && (t == 0 || (t < 0 <==> x.units < 0))
  }

  /** `Truncate` meets the reference definition. */
  lemma TruncateMeetsSpec(x: Scaled)
    ensures TruncatesTo(x, Truncate(x))
  {
    if x.exponent < 0 {
      DivTowardZeroBounds(x.units, Pow10(-x.exponent));
    }
  }

  /** At most one integer meets the reference definition, so `Truncate` is
      the only function that does. */
  lemma TruncatesToUnique(x: Scaled, t1: int, t2: int)
    requires TruncatesTo(x, t1) && TruncatesTo(x, t2)
    ensures t1 == t2
  {
    if x.exponent < 0 {
      var p := Pow10(-x.exponent);
      if Abs(t1) < Abs(t2) {
        MulMonotone(Abs(t1) + 1, Abs(t2), p);
      } else if Abs(t2) < Abs(t1) {
        MulMonotone(Abs(t2) + 1, Abs(t1), p);
      }
    }
  }

  lemma DivisionBounds(n: nat, p: nat)
    requires p >= 1
    ensures (n / p) * p <= n < (n / p + 1) * p
  {
    assert n == (n / p) * p + n % p;
  }

  lemma MulMonotone(x: int, y: int, p: nat)
    requires x <= y
    ensures x * p <= y * p
  {
  }

  /** Division by `p` undoes multiplication by `p`, whatever remainder below
      `p` is added. */
  lemma DivisionUnique(a: nat, r: nat, p: nat)
    requires 0 <= r < p
    ensures (a * p + r) / p == a
  {
    var n := a * p + r;
    var q := n / p;
    DivisionBounds(n, p);
    if q < a {
      MulMonotone(q + 1, a, p);
    } else if q > a {
      MulMonotone(a + 1, q, p);
    }
  }

  /** The ASCII whitespace `float()` strips from both ends of its argument. */
  predicate IsSpace(c: char) {
    c == ' ' || c == '\t' || c == '\n' || c == '\r' || c == '\U{000B}' || c == '\U{000C}'
  }

  function TrimStart(s: string): (r: string)
    ensures |r| <= |s|
  {
    if s != [] && IsSpace(s[0]) then TrimStart(s[1..]) else s
  }

  function TrimEnd(s: string): (r: string)
    ensures |r| <= |s|
  {
    if s != [] && IsSpace(s[|s| - 1]) then TrimEnd(s[..|s| - 1]) else s
  }

  function LowerChar(c: char): char {
    if 'A' <= c <= 'Z' then (c as int + 32) as char else c
  }

  /** `s` spells the lower-case word `w`, ignoring the case of its letters. */
  predicate SpellsIgnoringCase(s: string, w: string) {
    |s| == |w| && forall i | 0 <= i < |s| :: LowerChar(s[i]) == w[i]
  }

  /** The index of the first character of `s` in `cs`, or `|s|` if none is. */
  function Find(s: string, cs: set<char>): (i: nat)
    ensures i <= |s|
    ensures i < |s| ==> s[i] in cs
    ensures forall j | 0 <= j < i :: s[j] !in cs
  {
    if s == [] then 0
    else if s[0] in cs then 0
    else 1 + Find(s[1..], cs)
  }

  /** The exponent after `e`/`E`: an optional sign and at least one digit. */
  function ParseExponent(t: string): Option<int>
  {
    var negative := t != [] && t[0] == '-';
    var digits := if t != [] && (t[0] == '+' || t[0] == '-') then t[1..] else t;
    if digits != [] && AllDigits(digits) then
      var v: int := Value(digits);
      Some(if negative then -v else v)
    else None
  }

  /** An unsigned decimal literal: digits, an optional `.` and fraction digits
      (at least one digit in all), then an optional exponent. */
  function ParseUnsigned(b: string): Option<Scaled>
  {
    var e := Find(b, {'e', 'E'});
    var mantissa := b[..e];
    var exponent := if e < |b| then ParseExponent(b[e + 1..]) else Some(0);
    var p := Find(mantissa, {'.'});
    var whole := mantissa[..p];
    var fraction := if p < |mantissa| then mantissa[p + 1..] else [];
    if AllDigits(whole) && AllDigits(fraction) && |whole| + |fraction| > 0 && exponent.Some? then
      ValueAppend(whole, fraction);
      Some(Scaled(Value(whole + fraction), exponent.value - |fraction|))
    else None
  }

  /** `float(s)` for a string `s`: surrounding whitespace is ignored. */
  function ParseFloat(s: string): FloatValue
  {
    ParseSigned(TrimEnd(TrimStart(s)))
  }

  /** An optional sign, then the number itself. */
  function ParseSigned(t: string): FloatValue
  {
    if t != [] && t[0] == '-' then Negate(ParseMagnitude(t[1..]))
    else if t != [] && t[0] == '+' then ParseMagnitude(t[1..])
    else ParseMagnitude(t)
  }

  /** The unsigned part: an infinity, a NaN (spelled in any case) or a
      decimal literal. */
  function ParseMagnitude(body: string): FloatValue
  {
    if SpellsIgnoringCase(body, "inf") || SpellsIgnoringCase(body, "infinity") then Infinite
    else if SpellsIgnoringCase(body, "nan") then NotANumber
    else match ParseUnsigned(body)
      case None => Invalid
      case Some(x) => Finite(x)
  }

  /** A minus sign negates a finite number; what `int()` makes of an
      infinity or a NaN does not depend on its sign. */
  function Negate(v: FloatValue): FloatValue
  {
    match v
    case Finite(x) => Finite(Scaled(-x.units, x.exponent))
    case _ => v
  }

  lemma TrimNothing(s: string)
    requires s != [] && !IsSpace(s[0]) && !IsSpace(s[|s| - 1])
    ensures TrimEnd(TrimStart(s)) == s
  {
  }

  lemma {:induction false} FindNone(s: string, cs: set<char>)
    requires forall i | 0 <= i < |s| :: s[i] !in cs
    ensures Find(s, cs) == |s|
  {
    if s != [] {
      FindNone(s[1..], cs);
    }
  }

  lemma {:induction false} FindFirst(a: string, c: char, b: string, cs: set<char>)
    requires forall i | 0 <= i < |a| :: a[i] !in cs
    requires c in cs
    ensures Find(a + [c] + b, cs) == |a|
  {
    if a != [] {
      assert (a + [c] + b)[1..] == a[1..] + [c] + b;
      FindFirst(a[1..], c, b, cs);
    }
  }

  /** Text that starts with a digit is neither signed nor a spelling of an
      infinity or a NaN, so `float()` reads it as an unsigned literal. */
  lemma ParseDigitFirst(s: string)
    requires s != [] && IsDigit(s[0]) && !IsSpace(s[|s| - 1])
    ensures ParseFloat(s) == ParseMagnitude(s)
    ensures ParseMagnitude(s) == if ParseUnsigned(s).Some? then Finite(ParseUnsigned(s).value) else Invalid
  {
    TrimNothing(s);
    assert LowerChar(s[0]) == s[0];
  }

  /** A leading minus sign negates what the rest of the text reads as. */
  lemma ParseNegated(s: string)
    requires s != [] && IsDigit(s[0]) && !IsSpace(s[|s| - 1])
    ensures ParseFloat("-" + s) == Negate(ParseFloat(s))
  {
    var t := "-" + s;
    TrimNothing(t);
    assert t[1..] == s;
    assert ParseFloat(t) == Negate(ParseMagnitude(s));
    ParseDigitFirst(s);
  }

  /** Leading whitespace does not change what `float()` reads. */
  lemma ParseIgnoresLeadingSpace(c: char, s: string)
    requires IsSpace(c)
    ensures ParseFloat([c] + s) == ParseFloat(s)
  {
    assert ([c] + s)[1..] == s;
  }

  lemma ParseUnsignedPoint(whole: string, fraction: string)
    requires AllDigits(whole) && AllDigits(fraction) && whole != []
    ensures AllDigits(whole + fraction)
    ensures ParseUnsigned(whole + "." + fraction) == Some(Scaled(Value(whole + fraction), -|fraction|))
  {
    var s := whole + "." + fraction;
    FindNone(s, {'e', 'E'});
    assert s[..|s|] == s;
    FindFirst(whole, '.', fraction, {'.'});
    assert s[..|whole|] == whole;
    assert s[|whole| + 1..] == fraction;
  }

  /** A plain decimal string `<whole>.<fraction>` reads as the exact number
      it spells. */
  lemma ParsePointDecimal(whole: string, fraction: string)
    requires AllDigits(whole) && AllDigits(fraction) && whole != []
    ensures AllDigits(whole + fraction)
    ensures ParseFloat(whole + "." + fraction) == Finite(Scaled(Value(whole + fraction), -|fraction|))
  {
    PointDecimalShape(whole, fraction);
    ParseUnsignedPoint(whole, fraction);
    ParseDigitFirst(whole + "." + fraction);
  }

  /** A string of digits reads as the integer it spells. */
  lemma ParseInteger(whole: string)
    requires AllDigits(whole) && whole != []
    ensures ParseFloat(whole) == Finite(Scaled(Value(whole), 0))
  {
    FindNone(whole, {'e', 'E'});
    assert whole[..|whole|] == whole;
    FindNone(whole, {'.'});
    assert whole + [] == whole;
    ParseDigitFirst(whole);
  }

  /** Truncating `<whole>.<fraction>` drops the fraction digits: the result is
      the number the whole-part digits spell, whatever the fraction. */
  lemma TruncateDropsFraction(whole: string, fraction: string)
    requires AllDigits(whole) && AllDigits(fraction)
    ensures AllDigits(whole + fraction)
    ensures Truncate(Scaled(Value(whole + fraction), -|fraction|)) == Value(whole)
  {
    ValueAppend(whole, fraction);
    ValueBound(fraction);
    if fraction != [] {
      DivisionUnique(Value(whole), Value(fraction), Pow10(|fraction|));
    } else {
      assert whole + fraction == whole;
    }
  }

  /** Text that starts with a letter other than `e`, `i` and `n` (in either
      case) and does not end in whitespace is not a number at all. */
  lemma ParseLetterFirst(s: string)
    requires s != [] && 'a' <= LowerChar(s[0]) <= 'z' && LowerChar(s[0]) !in {'e', 'i', 'n'}
    requires !IsSpace(s[|s| - 1])
    ensures ParseFloat(s) == Invalid
  {
    TrimNothing(s);
    assert LowerChar(s[0]) != "inf"[0] && LowerChar(s[0]) != "nan"[0];
    var e := Find(s, {'e', 'E'});
    assert e > 0;
    var mantissa := s[..e];
    var p := Find(mantissa, {'.'});
    assert p > 0;
    assert !IsDigit(mantissa[..p][0]);
  }

  /** `int(float(s))` of a plain decimal string is its whole part. */
  lemma PointDecimalTruncates(whole: string, fraction: string)
    requires AllDigits(whole) && AllDigits(fraction) && whole != []
    ensures ParseFloat(whole + "." + fraction).Finite?
    ensures Truncate(ParseFloat(whole + "." + fraction).value) == Value(whole)
  {
    ParsePointDecimal(whole, fraction);
    TruncateDropsFraction(whole, fraction);
  }

  /** Truncation toward zero is symmetric: negating the number negates the
      integer it truncates to (rounding down would not be). */
  lemma TruncateNegate(x: Scaled)
    ensures Truncate(Scaled(-x.units, x.exponent)) == -Truncate(x)
  {
    if x.exponent >= 0 {
      var p := Pow10(x.exponent);
      assert (-x.units) * p == -(x.units * p);
    } else {
      var p := Pow10(-x.exponent);
      var q := Abs(x.units) / p;
      assert Abs(-x.units) == Abs(x.units);
      if x.units == 0 {
        DivisionUnique(0, 0, p);
        assert q == 0;
      }
    }
  }

  /** Text that starts with a digit, read with a minus sign in front,
      truncates to minus what it truncates to without one. */
  lemma NegatedTextTruncates(s: string, x: Scaled)
    requires s != [] && IsDigit(s[0]) && !IsSpace(s[|s| - 1])
    requires ParseFloat(s) == Finite(x)
    ensures ParseFloat("-" + s) == Finite(Scaled(-x.units, x.exponent))
    ensures Truncate(Scaled(-x.units, x.exponent)) == -Truncate(x)
  {
    ParseNegated(s);
    TruncateNegate(x);
  }

  lemma PointDecimalShape(whole: string, fraction: string)
    requires AllDigits(whole) && AllDigits(fraction) && whole != []
    ensures var s := whole + "." + fraction; IsDigit(s[0]) && !IsSpace(s[|s| - 1])
  {
    var s := whole + "." + fraction;
    assert s[0] == whole[0];
    assert s[|s| - 1] == if fraction == [] then '.' else fraction[|fraction| - 1];
  }

  /** `int(float(s))` of a negative decimal string rounds toward zero: the
      result is minus the whole part, whatever the fraction (so "-3.7" gives
      -3, where rounding down would give -4). */
  lemma NegativePointDecimalTruncates(whole: string, fraction: string)
    requires AllDigits(whole) && AllDigits(fraction) && whole != []
    ensures ParseFloat("-" + (whole + "." + fraction)).Finite?
    ensures Truncate(ParseFloat("-" + (whole + "." + fraction)).value) == -(Value(whole) as int)
  {
    ValueAppend(whole, fraction);
    var x := Scaled(Value(whole + fraction), -|fraction|);
    ParsePointDecimal(whole, fraction);
    PointDecimalShape(whole, fraction);
    NegatedTextTruncates(whole + "." + fraction, x);
    TruncateDropsFraction(whole, fraction);
  }
}
