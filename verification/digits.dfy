/** Decimal digit strings: the text Python's `str(int)` gives for a
    non-negative integer, and the value a string of digits denotes. */
module Digits {

  predicate IsDigit(c: char) {
    '0' <= c <= '9'
  }

  predicate AllDigits(s: string) {
    forall i | 0 <= i < |s| :: IsDigit(s[i])
  }

  function DigitValue(c: char): (d: nat)
    requires IsDigit(c)
    ensures d < 10
  {
    c as int - '0' as int
  }

  function DigitChar(d: nat): (c: char)
    requires d < 10
    ensures IsDigit(c) && DigitValue(c) == d
  {
    ('0' as int + d) as char
  }

  function Pow10(k: nat): (p: nat)
    ensures p >= 1
  {
    if k == 0 then 1 else 10 * Pow10(k - 1)
  }

  /** The number a string of decimal digits denotes (most significant first). */
  function Value(s: string): nat
    requires AllDigits(s)
  {
    if s == [] then 0 else Value(s[..|s| - 1]) * 10 + DigitValue(s[|s| - 1])
  }

  /** The shortest decimal spelling of `n`: no sign, no leading zero. */
  function Spell(n: nat): (s: string)
    ensures Canonical(s)
    ensures n < 10 <==> |s| == 1
  {
    if n < 10 then [DigitChar(n)] else Spell(n / 10) + [DigitChar(n % 10)]
  }

  /** A digit string as Python's `str` prints a non-negative integer. */
  predicate Canonical(s: string) {
    AllDigits(s) && 1 <= |s| && (|s| > 1 ==> s[0] != '0')
  }

  /** Reading back the spelling of `n` gives `n`. */
  lemma {:induction false} ValueOfSpell(n: nat)
    ensures Value(Spell(n)) == n
  {
    if n >= 10 {
      var s := Spell(n);
      assert s[..|s| - 1] == Spell(n / 10);
      ValueOfSpell(n / 10);
    }
  }

  /** A digit string with a non-zero leading digit denotes a positive number. */
  lemma {:induction false} LeadingNonZeroIsPositive(s: string)
    requires AllDigits(s) && 1 <= |s| && s[0] != '0'
    ensures Value(s) >= Pow10(|s| - 1)
  {
    if |s| > 1 {
      var p := s[..|s| - 1];
      assert p[0] == s[0];
      LeadingNonZeroIsPositive(p);
    }
  }

  /** Every canonical digit string is the spelling of the number it denotes. */
  lemma {:induction false} SpellOfValue(s: string)
    requires Canonical(s)
    ensures Spell(Value(s)) == s
  {
    if |s| > 1 {
      var p := s[..|s| - 1];
      assert p[0] == s[0];
      LeadingNonZeroIsPositive(p);
      SpellOfValue(p);
      assert s == p + [s[|s| - 1]];
    }
  }

  /** A string of `k` digits denotes a number below 10^k. */
  lemma {:induction false} ValueBound(s: string)
    requires AllDigits(s)
    ensures Value(s) < Pow10(|s|)
  {
    if s != [] {
      ValueBound(s[..|s| - 1]);
    }
  }

  lemma ShiftArithmetic(va: int, p: int, vb: int, d: int)
    ensures (va * p + vb) * 10 + d == va * (p * 10) + (vb * 10 + d)
  {
  }

  /** Appending digits shifts the value of the prefix by the length of the suffix. */
  lemma {:induction false} ValueAppend(a: string, b: string)
    requires AllDigits(a) && AllDigits(b)
    ensures AllDigits(a + b)
    ensures Value(a + b) == Value(a) * Pow10(|b|) + Value(b)
  {
    if b != [] {
      var ab := a + b;
      var b' := b[..|b| - 1];
      var d := DigitValue(b[|b| - 1]);
      assert ab[..|ab| - 1] == a + b';
      assert ab[|ab| - 1] == b[|b| - 1];
      ValueAppend(a, b');
      var p := Pow10(|b'|);
      assert Value(ab) == Value(a + b') * 10 + d;
      assert Value(a + b') == Value(a) * p + Value(b');
      assert Value(b) == Value(b') * 10 + d;
      assert Pow10(|b|) == p * 10;
      ShiftArithmetic(Value(a), p, Value(b'), d);
    } else {
      assert a + b == a;
    }
  }
}
