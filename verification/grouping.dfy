/** Python's `{:,}` format of an integer: the decimal spelling with a comma
    between every group of three digits, counted from the right, and a
    leading `-` for a negative number. */
module Grouping {
  import opened Digits

  /** The three digits of `n`, with leading zeros: a group after the first. */
  function Pad3(n: nat): (s: string)
    requires n < 1000
    ensures |s| == 3 && AllDigits(s) && Value(s) == n
  {
    var s := [DigitChar(n / 100), DigitChar(n / 10 % 10), DigitChar(n % 10)];
    assert s[..2][..1] == [s[0]] && [s[0]][..0] == [];
    assert Value([s[0]]) == n / 100;
    assert Value(s[..2]) == n / 100 * 10 + n / 10 % 10;
    assert Value(s) == (n / 100 * 10 + n / 10 % 10) * 10 + n % 10;
    assert n / 10 == n / 100 * 10 + n / 10 % 10;
    s
  }

  /** `{:,}` of a non-negative integer. */
  function Group(n: nat): string
  {
    if n < 1000 then Spell(n) else Group(n / 1000) + "," + Pad3(n % 1000)
  }

  /** `{:,}` of any integer. */
  function Thousands(i: int): string
  {
    if i < 0 then "-" + Group(-i) else Group(i)
  }

  /** Reference definition: commas inserted into a digit string every three
      characters from the right. */
  function InsertCommas(s: string): string
  {
    if |s| <= 3 then s else InsertCommas(s[..|s| - 3]) + "," + s[|s| - 3..]
  }

  /** The string with every comma removed. */
  function RemoveCommas(s: string): (r: string)
    ensures |r| <= |s|
  {
    if s == [] then []
    else if s[0] == ',' then RemoveCommas(s[1..])
    else [s[0]] + RemoveCommas(s[1..])
  }

  /** The shape `{:,}` promises: every fourth character from the right is a
      comma, every other one a digit, so the groups after the first have three
      digits and the first has one to three. */
  predicate WellGrouped(s: string) {
    && |s| % 4 != 0
    && (forall i | 0 <= i < |s| :: s[i] == ',' <==> (|s| - i) % 4 == 0)
    && (forall i | 0 <= i < |s| && (|s| - i) % 4 != 0 :: IsDigit(s[i]))
  }

  lemma RemoveCommasAppend(a: string, b: string)
    ensures RemoveCommas(a + b) == RemoveCommas(a) + RemoveCommas(b)
  {
    if a != [] {
      assert (a + b)[1..] == a[1..] + b;
    } else {
      assert a + b == b;
    }
  }

  lemma {:induction false} RemoveCommasOfDigits(s: string)
    requires AllDigits(s)
    ensures RemoveCommas(s) == s
  {
    if s != [] {
      RemoveCommasOfDigits(s[1..]);
    }
  }

  lemma LastThreeDigits(n: nat)
    ensures n / 10 / 10 / 10 == n / 1000
    ensures n / 10 / 10 % 10 == n % 1000 / 100
    ensures n / 10 % 10 == n % 1000 / 10 % 10
    ensures n % 10 == n % 1000 % 10
  {
  }

  /** The spelling of a number of four digits or more ends in its last three
      digits, padded. */
  lemma SpellSplit(n: nat)
    requires n >= 1000
    ensures Spell(n) == Spell(n / 1000) + Pad3(n % 1000)
  {
    var a := n / 10;
    var b := a / 10;
    LastThreeDigits(n);
    var dx, dy, dz := DigitChar(b % 10), DigitChar(a % 10), DigitChar(n % 10);
    assert Spell(n) == Spell(a) + [dz];
    assert Spell(a) == Spell(b) + [dy];
    assert Spell(b) == Spell(n / 1000) + [dx];
    assert Pad3(n % 1000) == [dx] + [dy] + [dz];
  }

  lemma SpellLength(n: nat)
    ensures n < 1000 <==> |Spell(n)| <= 3
  {
    if n >= 1000 {
      SpellSplit(n);
    } else if n >= 100 {
      assert Spell(n) == Spell(n / 10) + [DigitChar(n % 10)];
    }
  }

  /** `{:,}` agrees with inserting commas into the plain decimal spelling. */
  lemma {:induction false} GroupIsInsertCommas(n: nat)
    ensures Group(n) == InsertCommas(Spell(n))
  {
    SpellLength(n);
    if n >= 1000 {
      var s := Spell(n);
      SpellSplit(n);
      assert s[..|s| - 3] == Spell(n / 1000);
      assert s[|s| - 3..] == Pad3(n % 1000);
      GroupIsInsertCommas(n / 1000);
    }
  }

  /** Removing the commas from `{:,}` of `n` gives the decimal digits of `n`. */
  lemma {:induction false} GroupStripsToSpell(n: nat)
    ensures RemoveCommas(Group(n)) == Spell(n)
  {
    if n < 1000 {
      RemoveCommasOfDigits(Spell(n));
    } else {
      var g := Group(n / 1000);
      RemoveCommasAppend(g + ",", Pad3(n % 1000));
      RemoveCommasAppend(g, ",");
      RemoveCommasOfDigits(Pad3(n % 1000));
      GroupStripsToSpell(n / 1000);
      SpellSplit(n);
    }
  }

  /** Round trip: reading the digits of `{:,}` of `n` back gives `n`. */
  lemma GroupRoundTrip(n: nat)
    ensures AllDigits(RemoveCommas(Group(n)))
    ensures Value(RemoveCommas(Group(n))) == n
  {
    GroupStripsToSpell(n);
    ValueOfSpell(n);
  }

  /** A comma and three more digits keep the shape. */
  lemma WellGroupedExtend(g: string, p: string)
    requires WellGrouped(g) && |p| == 3 && AllDigits(p)
    ensures WellGrouped(g + "," + p)
  {
    var s := g + "," + p;
    forall i | 0 <= i < |s|
      ensures s[i] == ',' <==> (|s| - i) % 4 == 0
      ensures (|s| - i) % 4 != 0 ==> IsDigit(s[i])
    {
      if i < |g| {
        assert s[i] == g[i];
        assert |s| - i == (|g| - i) + 4;
      } else if i > |g| {
        assert s[i] == p[i - |g| - 1];
      }
    }
  }

  /** `{:,}` of `n` has the comma-every-three-digits shape. */
  lemma {:induction false} GroupWellGrouped(n: nat)
    ensures WellGrouped(Group(n))
  {
    if n >= 1000 {
      GroupWellGrouped(n / 1000);
      WellGroupedExtend(Group(n / 1000), Pad3(n % 1000));
    } else {
      SpellLength(n);
    }
  }

  /** `{:,}` never contains a newline: it is digits, commas and a sign. */
  lemma ThousandsChars(i: int)
    ensures |Thousands(i)| >= 1
    ensures forall k | 0 <= k < |Thousands(i)| :: IsDigit(Thousands(i)[k]) || Thousands(i)[k] in ",-"
    ensures Thousands(i)[0] == '-' <==> i < 0
  {
    var n := if i < 0 then -i else i;
    GroupWellGrouped(n);
    var g := Group(n);
    assert forall k | 0 <= k < |g| :: IsDigit(g[k]) || g[k] == ',';
    assert |g| % 4 != 0;
    assert IsDigit(g[0]);
  }
}
