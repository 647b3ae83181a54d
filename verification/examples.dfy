/** Concrete reports: what `get_prices` makes of small payloads. */
module PriceExamples {
  import opened Wrappers
  import opened Digits
  import opened Grouping
  import opened FloatText
  import opened Prices

  lemma ValueFortyFiveMillion()
    ensures Value("45000000") == 45000000
  {
    assert "45000000"[..7] == "4500000";
    assert "4500000"[..6] == "450000";
    assert "450000"[..5] == "45000";
    assert "45000"[..4] == "4500";
    assert "4500"[..3] == "450";
    assert "450"[..2] == "45";
    assert "45"[..1] == "4";
    assert "4"[..0] == "";
  }

  /** "45000000.7" is truncated, not rounded. */
  lemma TruncatesNotRounds()
    ensures PriceOf(Text("45000000.7")) == Success(45000000)
  {
    PriceOfPointText("45000000", "7");
    ValueFortyFiveMillion();
    assert "45000000" + "." + "7" == "45000000.7";
  }

  /** `int(float("inf"))` raises OverflowError. */
  lemma InfinityOverflows()
    ensures PriceOf(Text("inf")) == Failure(InfinityToInteger)
  {
    TrimNothing("inf");
    assert SpellsIgnoringCase("inf", "inf");
  }

  /** The spelling of an infinity ignores case and sign. */
  lemma NegativeInfinityOverflows()
    ensures PriceOf(Text("-Infinity")) == Failure(InfinityToInteger)
  {
    TrimNothing("-Infinity");
    assert "-Infinity"[1..] == "Infinity";
    assert SpellsIgnoringCase("Infinity", "infinity");
  }

  /** `int(float("NaN"))` raises ValueError. */
  lemma NanRejected()
    ensures PriceOf(Text("NaN")) == Failure(NanToInteger)
  {
    TrimNothing("NaN");
    assert SpellsIgnoringCase("NaN", "nan");
  }

  /** `float()` accepts no empty text. */
  lemma EmptyTextRejected()
    ensures PriceOf(Text("")) == Failure(NotAFloat(""))
  {
  }

  /** `float()` accepts no thousands separators. */
  lemma GroupedTextRejected()
    ensures PriceOf(Text("1,000")) == Failure(NotAFloat("1,000"))
  {
    var t := "1,000";
    TrimNothing(t);
    FindNone(t, {'e', 'E'});
    FindNone(t, {'.'});
    assert t[..|t|] == t;
    assert !AllDigits(t) by { assert t[1] == ','; }
    assert ParseUnsigned(t) == None;
  }

  /** `float("abc")` and `float("xyz")` raise ValueErrors that quote the
      text, so the two failure texts differ whenever `describe` tells the two
      reasons apart. */
  lemma UnreadableTextKept(describe: Reason -> string)
    requires describe(NotAFloat("abc")) != describe(NotAFloat("xyz"))
    ensures Message(ReportOf([Quote(Some("BTC"), Some(Text("abc")))]), describe)
         == "خطا: " + describe(NotAFloat("abc"))
    ensures Message(ReportOf([Quote(Some("BTC"), Some(Text("abc")))]), describe)
         != Message(ReportOf([Quote(Some("BTC"), Some(Text("xyz")))]), describe)
  {
    UnreadableBitcoin("abc");
    UnreadableBitcoin("xyz");
    var m1 := Message(ReportOf([Quote(Some("BTC"), Some(Text("abc")))]), describe);
    var m2 := Message(ReportOf([Quote(Some("BTC"), Some(Text("xyz")))]), describe);
    assert m1 == FailurePrefix + describe(NotAFloat("abc"));
    assert m2 == FailurePrefix + describe(NotAFloat("xyz"));
    assert m1[|FailurePrefix|..] == describe(NotAFloat("abc"));
    assert m2[|FailurePrefix|..] == describe(NotAFloat("xyz"));
  }

  lemma UnreadableBitcoin(t: string)
    requires t != [] && 'a' <= t[0] <= 'z' && t[0] !in {'e', 'i', 'n'} && !IsSpace(t[|t| - 1])
    ensures ReportOf([Quote(Some("BTC"), Some(Text(t)))]) == Failed(NotAFloat(t))
  {
    ParseLetterFirst(t);
    assert [Quote(Some("BTC"), Some(Text(t)))][..0] == [];
    assert Scan([]) == Success([]);
  }

  /** A value that is neither text nor a number makes `float()` raise
      TypeError. */
  lemma NotNumericRejected()
    ensures PriceOf(NotNumeric(Null)) == Failure(WrongType(Null))
    ensures PriceOf(NotNumeric(Array)) == Failure(WrongType(Array))
    ensures PriceOf(NotNumeric(Object)) == Failure(WrongType(Object))
  {
  }

  /** 45000000 is grouped as "45,000,000". */
  lemma GroupsMillions()
    ensures Thousands(45000000) == "45,000,000"
  {
    assert Pad3(0) == "000";
    assert Spell(45) == "45" by { assert Spell(4) == "4"; }
    assert Group(45000) == "45,000";
  }

  /** A negative price is truncated toward zero: "-3.7" gives -3, not -4. */
  lemma NegativeTruncatesTowardZero()
    ensures PriceOf(Text("-3.7")).Success?
    ensures PriceOf(Text("-3.7")).value == -3
  {
    var whole, fraction := "3", "7";
    assert Value(whole) == 3 by { assert whole[..0] == ""; }
    PriceOfNegativePointText(whole, fraction);
    assert "-" + (whole + "." + fraction) == "-3.7";
  }

  lemma GroupsBillions()
    ensures Thousands(2345000000) == "2,345,000,000"
  {
    assert Pad3(0) == "000";
    assert Pad3(345) == "345";
    assert Spell(2) == "2";
    assert Group(2345) == "2,345";
    assert Group(2345000) == "2,345,000";
  }

  lemma BitcoinLine()
    ensures Line("BTC", 2345000000) == "بیتکوین: 2,345,000,000 تومان"
  {
    GroupsBillions();
    assert CryptoList["BTC"] == "بیتکوین";
    assert Line("BTC", 2345000000) == "بیتکوین" + ": " + "2,345,000,000" + " تومان";
    BitcoinLineText();
  }

  lemma BitcoinLineText()
    ensures "بیتکوین" + ": " + "2,345,000,000" + " تومان" == "بیتکوین: 2,345,000,000 تومان"
  {
  }

  /** An unlisted record is skipped and a listed one renders with grouping. */
  lemma MixedPayload(describe: Reason -> string)
    ensures Message(ReportOf([Quote(Some("BTC"), Some(Number(Scaled(2345000000, 0)))),
                              Quote(Some("XYZ"), Some(Number(Scaled(5, 0))))]), describe)
         == "بیتکوین: 2,345,000,000 تومان"
  {
    var q1 := Quote(Some("BTC"), Some(Number(Scaled(2345000000, 0))));
    var q2 := Quote(Some("XYZ"), Some(Number(Scaled(5, 0))));
    var l1 := Line("BTC", 2345000000);
    assert PriceOf(Number(Scaled(2345000000, 0))) == Success(2345000000);
    assert Step(q1) == Success(Some(l1));
    assert Step(q2) == Success(None);
    assert [q1, q2][..1] == [q1];
    assert [q1][..0] == [];
    assert Scan([]) == Success([]);
    assert Scan([q1]) == Success([] + [l1]);
    assert [] + [l1] == [l1];
    assert [q1, q2][|[q1, q2]| - 1] == q2;
    assert Scan([q1, q2][..1]) == Success([l1]);
    assert Scan([q1, q2]) == Success([l1]);
    BitcoinLine();
  }

  /** Lines follow the payload, not the order of the allow-list. */
  lemma PayloadOrder()
    ensures ReportOf([Quote(Some("ETH"), Some(Number(Scaled(1, 0)))),
                      Quote(Some("BTC"), Some(Number(Scaled(2, 0))))])
         == Lines(["اتریوم: 1 تومان", "بیتکوین: 2 تومان"])
  {
    var q1 := Quote(Some("ETH"), Some(Number(Scaled(1, 0))));
    var q2 := Quote(Some("BTC"), Some(Number(Scaled(2, 0))));
    assert Thousands(1) == "1" && Thousands(2) == "2";
    assert PriceOf(Number(Scaled(1, 0))) == Success(1);
    assert PriceOf(Number(Scaled(2, 0))) == Success(2);
    assert Line("ETH", 1) == "اتریوم: 1 تومان";
    assert Line("BTC", 2) == "بیتکوین: 2 تومان";
    assert Step(q1) == Success(Some("اتریوم: 1 تومان"));
    assert Step(q2) == Success(Some("بیتکوین: 2 تومان"));
    assert [q1, q2][..1] == [q1];
    assert [q1][..0] == [];
    assert Scan([]) == Success([]);
    assert Scan([q1]) == Success([] + ["اتریوم: 1 تومان"]);
    assert [q1, q2][|[q1, q2]| - 1] == q2;
  }

  /** A symbol that occurs twice gives two lines. */
  lemma DuplicatesKept()
    ensures ReportOf([Quote(Some("USDT"), Some(Number(Scaled(7, 0)))),
                      Quote(Some("USDT"), Some(Number(Scaled(7, 0))))])
         == Lines(["تتر: 7 تومان", "تتر: 7 تومان"])
  {
    var q := Quote(Some("USDT"), Some(Number(Scaled(7, 0))));
    assert Thousands(7) == "7";
    assert PriceOf(Number(Scaled(7, 0))) == Success(7);
    assert Line("USDT", 7) == "تتر: 7 تومان";
    assert Step(q) == Success(Some("تتر: 7 تومان"));
    assert [q, q][..1] == [q];
    assert [q][..0] == [];
    assert Scan([]) == Success([]);
    assert Scan([q]) == Success([] + ["تتر: 7 تومان"]);
    assert [q, q][|[q, q]| - 1] == q;
  }

  /** A record without a code fails the whole call, even after good lines. */
  lemma MissingCodeFails(describe: Reason -> string)
    ensures Message(ReportOf([Quote(Some("BTC"), Some(Number(Scaled(2, 0)))),
                              Quote(None, Some(Number(Scaled(5, 0))))]), describe)
         == "خطا: " + describe(MissingKey("code"))
  {
    var q1 := Quote(Some("BTC"), Some(Number(Scaled(2, 0))));
    var q2 := Quote(None, Some(Number(Scaled(5, 0))));
    assert PriceOf(Number(Scaled(2, 0))) == Success(2);
    assert Step(q1).Success?;
    assert Step(q2) == Failure(MissingKey("code"));
    assert [q1, q2][..1] == [q1];
    assert [q1][..0] == [];
    assert Scan([]) == Success([]);
    assert Scan([q1]).Success?;
    assert [q1, q2][|[q1, q2]| - 1] == q2;
  }

  /** An unlisted record without a price is harmless; a listed one is not. */
  lemma MissingPrice(describe: Reason -> string)
    ensures Message(ReportOf([Quote(Some("XYZ"), None)]), describe) == "خطا!"
    ensures Message(ReportOf([Quote(Some("ETH"), None)]), describe)
         == "خطا: " + describe(MissingKey("price"))
  {
    assert [Quote(Some("XYZ"), None)][..0] == [];
    assert [Quote(Some("ETH"), None)][..0] == [];
    assert Scan([]) == Success([]);
  }

  /** An empty list of results gives the no-match text; a body without a
      `results` key fails. */
  lemma EmptyResults(describe: Reason -> string)
    ensures Message(Outcome(Success(Payload(Some([])))), describe) == "خطا!"
    ensures Message(Outcome(Success(Payload(None))), describe)
         == "خطا: " + describe(MissingKey("results"))
  {
  }
}
