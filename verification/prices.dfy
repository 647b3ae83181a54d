/** The price report of `get_prices`: the quote records of the market's
    `results` list are filtered by the allow-list `CRYPTO_LIST`, each kept
    price is truncated and rendered with thousands separators, and the lines
    are joined by newlines; an empty report and any exception become fixed
    Persian error texts. */
module Prices {
  import opened Wrappers
  import opened Digits
  import opened Grouping
  import opened FloatText

  /** `CRYPTO_LIST`: exchange symbol to Persian display name. */
  const CryptoList: map<string, string> :=
    map["BTC" := "بیتکوین", "ETH" := "اتریوم", "USDT" := "تتر"]

  /** The currency word after each price ("toman"). */
  const Unit: string := " تومان"

  /** Returned when no record of the payload is on the allow-list ("error!"). */
  const NoMatchText: string := "خطا!"

  /** Put before the exception text when the call fails ("error: "). */
  const FailurePrefix: string := "خطا: "

  /** The JSON values `float()` refuses with TypeError; its message names
      their Python type (`NoneType`, `list`, `dict`). */
  datatype JsonKind = Null | Array | Object

  /** A quote's `price` field as decoded from JSON. */
  datatype PriceField =
    | Text(text: string)     // a JSON string, read by `float()`
    | Number(value: Scaled)  // a JSON number
    | NotNumeric(kind: JsonKind)  // `float()` raises TypeError

  /** One record of `data['results']`; an absent key is `None`. */
  datatype Quote = Quote(code: Option<string>, price: Option<PriceField>)

  /** The decoded response body; `results` is `None` when the key is absent. */
  datatype Payload = Payload(results: Option<seq<Quote>>)

  /** The exception that ends a call, with what its text `str(e)` depends on. */
  datatype Reason =
    | MissingKey(key: string)    // KeyError, quoting the key
    | NotAFloat(text: string)    // ValueError from `float()`, quoting the text
    | NanToInteger               // ValueError from `int()` of a NaN
    | InfinityToInteger          // OverflowError from `int()` of an infinity of either sign
    | WrongType(kind: JsonKind)  // TypeError from `float()`, naming the type
    | Request(detail: string)    // the request, the status check or JSON decoding failed

  /** What a call produced, before it is turned into text. */
  datatype Report = Lines(lines: seq<string>) | NoMatch | Failed(reason: Reason)

  /** `int(float(price))`. */
  function PriceOf(field: PriceField): Result<int, Reason>
  {
    match field
    case NotNumeric(kind) => Failure(WrongType(kind))
    case Number(x) => Success(Truncate(x))
    case Text(s) =>
      match ParseFloat(s)
      case Finite(x) => Success(Truncate(x))
      case Infinite => Failure(InfinityToInteger)
      case NotANumber => Failure(NanToInteger)
      case Invalid => Failure(NotAFloat(s))
  }

  /** The line of one kept record: display name, grouped price, unit. */
  function Line(symbol: string, price: int): string
    requires symbol in CryptoList
  {
    CryptoList[symbol] + ": " + Thousands(price) + Unit
  }

  /** One turn of the loop: the line a record adds, no line, or the
      exception it raises. */
  function Step(q: Quote): Result<Option<string>, Reason>
  {
    match q.code
    case None => Failure(MissingKey("code"))
    case Some(symbol) =>
      if symbol !in CryptoList then Success(None)
      else match q.price
        case None => Failure(MissingKey("price"))
        case Some(field) =>
          match PriceOf(field)
          case Failure(e) => Failure(e)
          case Success(p) => Success(Some(Line(symbol, p)))
  }

  /** The loop over `results`, one record after the other: the lines it
      collects, or the first exception. */
  function Scan(results: seq<Quote>): Result<seq<string>, Reason>
  {
    if results == [] then Success([])
    else
      match Scan(results[..|results| - 1])
      case Failure(e) => Failure(e)
      case Success(lines) =>
        match Step(results[|results| - 1])
        case Failure(e) => Failure(e)
        case Success(None) => Success(lines)
        case Success(Some(l)) => Success(lines + [l])
  }

  /** The report for a decoded list of records. */
  function ReportOf(results: seq<Quote>): Report
  {
    match Scan(results)
    case Failure(e) => Failed(e)
    case Success(lines) => if lines == [] then NoMatch else Lines(lines)
  }

  /** The report for a whole call: the response, or the request failure. */
  function Outcome(fetched: Result<Payload, Reason>): Report
  {
    match fetched
    case Failure(e) => Failed(e)
    case Success(data) =>
      match data.results
      case None => Failed(MissingKey("results"))
      case Some(results) => ReportOf(results)
  }

  /** `"\n".join(lines)`. */
  function Join(lines: seq<string>): string
  {
    if lines == [] then ""
    else if |lines| == 1 then lines[0]
    else lines[0] + "\n" + Join(lines[1..])
  }

  /** The text `get_prices` returns for a report; `describe` stands for
      Python's `str(e)` of the exception. */
  function Message(r: Report, describe: Reason -> string): string
  {
    match r
    case Lines(lines) => Join(lines)
    case NoMatch => NoMatchText
    case Failed(e) => FailurePrefix + describe(e)
  }

  /** `get_prices` after the response has been fetched and decoded (or the
      request has failed): the loop collects lines into `prices` and any
      exception ends the call with the failure text. */
  method GetPrices(fetched: Result<Payload, Reason>, describe: Reason -> string)
    returns (message: string)
    ensures message == Message(Outcome(fetched), describe)
  {
    if fetched.Failure? {
      return FailurePrefix + describe(fetched.error);
    }
    if fetched.value.results.None? {
      return FailurePrefix + describe(MissingKey("results"));
    }
    var results := fetched.value.results.value;
    var prices: seq<string> := [];
    var i := 0;
    while i < |results|
      invariant 0 <= i <= |results|
      invariant Scan(results[..i]) == Success(prices)
    {
      var currency := results[i];
      var reason: Reason;
      if currency.code.None? {
        reason := MissingKey("code");
      } else {
        var symbol := currency.code.value;
        if symbol !in CryptoList {
          ScanSkips(results, i);
          i := i + 1;
          continue;
        }
        if currency.price.None? {
          reason := MissingKey("price");
        } else {
          var price := PriceOf(currency.price.value);
          if price.Success? {
            ScanAdds(results, i, Line(symbol, price.value));
            prices := prices + [Line(symbol, price.value)];
            i := i + 1;
            continue;
          }
          reason := price.error;
        }
      }
      ScanStops(results, i, reason);
      ScanFailureLasts(results, i + 1, reason);
      return FailurePrefix + describe(reason);
    }
    assert results[..i] == results;
    message := if prices != [] then Join(prices) else NoMatchText;
  }

  /** A turn of the loop that skips its record. */
  lemma ScanSkips(results: seq<Quote>, i: nat)
    requires i < |results| && Step(results[i]) == Success(None)
    ensures Scan(results[..i + 1]) == Scan(results[..i])
  {
    assert results[..i + 1][..i] == results[..i];
  }

  /** A turn of the loop that adds a line. */
  lemma ScanAdds(results: seq<Quote>, i: nat, line: string)
    requires i < |results| && Step(results[i]) == Success(Some(line))
    requires Scan(results[..i]).Success?
    ensures Scan(results[..i + 1]) == Success(Scan(results[..i]).value + [line])
  {
    assert results[..i + 1][..i] == results[..i];
  }

  /** A turn of the loop that raises. */
  lemma ScanStops(results: seq<Quote>, i: nat, e: Reason)
    requires i < |results| && Step(results[i]) == Failure(e)
    requires Scan(results[..i]).Success?
    ensures Scan(results[..i + 1]) == Failure(e)
  {
    var front := results[..i + 1];
    assert front[..|front| - 1] == results[..i];
    assert front[|front| - 1] == results[i];
  }

  /** Once the loop has raised, the records after it change nothing. */
  lemma {:induction false} ScanFailureLasts(results: seq<Quote>, k: nat, e: Reason)
    requires k <= |results|
    requires Scan(results[..k]) == Failure(e)
    ensures Scan(results) == Failure(e)
    decreases |results| - k
  {
    if k < |results| {
      assert results[..k + 1][..k] == results[..k];
      ScanFailureLasts(results, k + 1, e);
    } else {
      assert results[..k] == results;
    }
  }

  // ---------------------------------------------------------------------
  // Reference definitions, independent of the loop

  /** The record carries a symbol of the allow-list. */
  predicate Listed(q: Quote) {
    q.code.Some? && q.code.value in CryptoList
  }

  /** The record makes the loop raise: no `code`, or a listed symbol whose
      `price` is absent or not convertible. */
  predicate Fails(q: Quote) {
    || q.code.None?
    || (Listed(q) && (q.price.None? || PriceOf(q.price.value).Failure?))
  }

  /** The exception a failing record raises. */
  function ReasonOf(q: Quote): Reason
    requires Fails(q)
  {
    if q.code.None? then MissingKey("code")
    else if q.price.None? then MissingKey("price")
    else PriceOf(q.price.value).error
  }

  /** The line a listed, non-failing record renders to. */
  function LineFor(q: Quote): string
    requires Listed(q) && !Fails(q)
  {
    Line(q.code.value, PriceOf(q.price.value).value)
  }

  /** The listed records, in payload order, duplicates kept. */
  function Matching(s: seq<Quote>): (m: seq<Quote>)
    ensures forall q | q in m :: Listed(q) && q in s
  {
    if s == [] then []
    else (if Listed(s[0]) then [s[0]] else []) + Matching(s[1..])
  }

  /** `str.split("\n")`: the pieces between newlines. */
  function Split(s: string): (parts: seq<string>)
    ensures |parts| >= 1
    decreases |s|
  {
    var i := Find(s, {'\n'});
    if i == |s| then [s] else [s[..i]] + Split(s[i + 1..])
  }

  // ---------------------------------------------------------------------
  // Properties

  lemma StepCases(q: Quote)
    ensures Step(q).Failure? <==> Fails(q)
    ensures Fails(q) ==> Step(q).error == ReasonOf(q)
    ensures !Fails(q) && Listed(q) ==> Step(q) == Success(Some(LineFor(q)))
    ensures !Fails(q) && !Listed(q) ==> Step(q) == Success(None)
  {
  }

  /** A price sent as the text `<whole>.<fraction>` becomes its whole part. */
  lemma PriceOfPointText(whole: string, fraction: string)
    requires AllDigits(whole) && AllDigits(fraction) && whole != []
    ensures PriceOf(Text(whole + "." + fraction)) == Success(Value(whole))
  {
    PointDecimalTruncates(whole, fraction);
  }

  /** A price sent as `-<whole>.<fraction>` becomes minus its whole part:
      truncated toward zero, not rounded down. */
  lemma PriceOfNegativePointText(whole: string, fraction: string)
    requires AllDigits(whole) && AllDigits(fraction) && whole != []
    ensures PriceOf(Text("-" + (whole + "." + fraction))).Success?
    ensures PriceOf(Text("-" + (whole + "." + fraction))).value == -(Value(whole) as int)
  {
    NegativePointDecimalTruncates(whole, fraction);
    PriceOfFinite("-" + (whole + "." + fraction), -(Value(whole) as int));
  }

  /** Two price texts that fail with the same reason are the same text, or
      both read as a NaN, or both as an infinity: the cases where Python's
      message is the same as well. */
  lemma SameFailureSameText(s: string, t: string)
    requires PriceOf(Text(s)).Failure? && PriceOf(Text(s)) == PriceOf(Text(t))
    ensures || s == t
            || (ParseFloat(s).NotANumber? && ParseFloat(t).NotANumber?)
            || (ParseFloat(s).Infinite? && ParseFloat(t).Infinite?)
  {
  }

  /** Text that `float()` reads as a finite number converts to that number
      rounded toward zero, in the sense of the reference definition. */
  lemma PriceOfFiniteText(s: string, x: Scaled)
    requires ParseFloat(s) == Finite(x)
    ensures PriceOf(Text(s)).Success?
    ensures TruncatesTo(x, PriceOf(Text(s)).value)
  {
    PriceOfFinite(s, Truncate(x));
    TruncateMeetsSpec(x);
  }

  lemma PriceOfFinite(s: string, v: int)
    requires ParseFloat(s).Finite? && Truncate(ParseFloat(s).value) == v
    ensures PriceOf(Text(s)) == Success(v)
  {
  }

  /** Filtering distributes over concatenation, so it keeps payload order. */
  lemma {:induction false} MatchingAppend(a: seq<Quote>, b: seq<Quote>)
    ensures Matching(a + b) == Matching(a) + Matching(b)
  {
    if a == [] {
      assert a + b == b;
    } else {
      assert (a + b)[0] == a[0] && (a + b)[1..] == a[1..] + b;
      MatchingAppend(a[1..], b);
    }
  }

  /** A listed record is kept as often as it occurs; any other is dropped. */
  lemma {:induction false} MatchingCounts(s: seq<Quote>, q: Quote)
    ensures multiset(Matching(s))[q] == if Listed(q) then multiset(s)[q] else 0
  {
    if s != [] {
      MatchingCounts(s[1..], q);
      assert s == [s[0]] + s[1..];
    }
  }

  /** The loop runs to the end exactly when no record fails. */
  lemma {:induction false} ScanSucceedsIff(s: seq<Quote>)
    ensures Scan(s).Success? <==> forall i | 0 <= i < |s| :: !Fails(s[i])
  {
    if s != [] {
      var p := s[..|s| - 1];
      ScanSucceedsIff(p);
      StepCases(s[|s| - 1]);
      assert forall i | 0 <= i < |p| :: p[i] == s[i];
    }
  }

  /** When the loop raises, the exception is that of the first failing
      record. */
  lemma {:induction false} ScanFailsAtFirst(s: seq<Quote>)
    requires Scan(s).Failure?
    ensures exists i | 0 <= i < |s| ::
      Fails(s[i]) && ReasonOf(s[i]) == Scan(s).error && forall j | 0 <= j < i :: !Fails(s[j])
  {
    var p := s[..|s| - 1];
    var q := s[|s| - 1];
    assert forall i | 0 <= i < |p| :: p[i] == s[i];
    StepCases(q);
    if Scan(p).Failure? {
      ScanFailsAtFirst(p);
      var i :| 0 <= i < |p| && Fails(p[i]) && ReasonOf(p[i]) == Scan(p).error
        && forall j | 0 <= j < i :: !Fails(p[j]);
      assert Fails(s[i]);
    } else {
      ScanSucceedsIff(p);
      assert Fails(s[|s| - 1]);
    }
  }

  /** When the loop completes, it has produced one line per listed record,
      in payload order, each rendered from that record's own symbol and
      price. */
  lemma {:induction false} ScanLines(s: seq<Quote>, lines: seq<string>)
    requires Scan(s) == Success(lines)
    ensures forall q | q in Matching(s) :: Listed(q) && !Fails(q)
    ensures |lines| == |Matching(s)|
    ensures forall k | 0 <= k < |lines| :: lines[k] == LineFor(Matching(s)[k])
  {
    ScanSucceedsIff(s);
    if s != [] {
      var p := s[..|s| - 1];
      var q := s[|s| - 1];
      assert s == p + [q];
      MatchingAppend(p, [q]);
      assert forall i | 0 <= i < |p| :: p[i] == s[i];
      ScanSucceedsIff(p);
      ScanLines(p, Scan(p).value);
      StepCases(q);
    }
  }

  /** Nothing is kept exactly when no record is listed. */
  lemma {:induction false} MatchingEmptyIff(s: seq<Quote>)
    ensures Matching(s) == [] <==> forall i | 0 <= i < |s| :: !Listed(s[i])
  {
    if s != [] {
      MatchingEmptyIff(s[1..]);
      assert forall i | 1 <= i < |s| :: s[i] == s[1..][i - 1];
    }
  }

  /** The report is the no-match text exactly when every record has a code
      and none of them is listed. */
  lemma ReportNoMatchIff(s: seq<Quote>)
    ensures ReportOf(s) == NoMatch <==>
      (forall i | 0 <= i < |s| :: s[i].code.Some?) && (forall i | 0 <= i < |s| :: !Listed(s[i]))
  {
    ScanSucceedsIff(s);
    MatchingEmptyIff(s);
    if Scan(s).Success? {
      ScanLines(s, Scan(s).value);
    }
  }

  lemma {:induction false} ScanPointwise(s: seq<Quote>, t: seq<Quote>)
    requires |s| == |t|
    requires forall i | 0 <= i < |s| :: Step(s[i]) == Step(t[i])
    ensures Scan(s) == Scan(t)
  {
    if s != [] {
      var s', t' := s[..|s| - 1], t[..|t| - 1];
      assert forall i | 0 <= i < |s'| :: s'[i] == s[i] && t'[i] == t[i];
      ScanPointwise(s', t');
      assert Step(s[|s| - 1]) == Step(t[|t| - 1]);
    }
  }

  /** The price of a record whose symbol is not listed is never read: giving
      it any price, or none, leaves the report unchanged. */
  lemma UnlistedPriceIgnored(s: seq<Quote>, i: nat, price: Option<PriceField>)
    requires i < |s| && s[i].code.Some? && !Listed(s[i])
    ensures ReportOf(s[i := Quote(s[i].code, price)]) == ReportOf(s)
  {
    ScanPointwise(s[i := Quote(s[i].code, price)], s);
  }

  lemma DisplayNames()
    ensures forall sym | sym in CryptoList ::
      CryptoList[sym] != [] && CryptoList[sym][0] != 'خ' && '\n' !in CryptoList[sym]
  {
  }

  /** A price line is one line of text that cannot be taken for an error
      text: it starts with a display name, not with "خ". */
  lemma LineShape(symbol: string, price: int)
    requires symbol in CryptoList
    ensures Line(symbol, price)[0] != 'خ'
    ensures '\n' !in Line(symbol, price)
  {
    DisplayNames();
    ThousandsChars(price);
    var l := Line(symbol, price);
    assert l[0] == CryptoList[symbol][0];
    assert l == CryptoList[symbol] + ": " + Thousands(price) + Unit;
  }

  /** Splitting `"\n".join(lines)` at its newlines gives back the lines,
      when no line holds a newline of its own. */
  lemma {:induction false} SplitJoin(lines: seq<string>)
    requires lines != []
    requires forall k | 0 <= k < |lines| :: '\n' !in lines[k]
    ensures Split(Join(lines)) == lines
  {
    var first := lines[0];
    assert forall i | 0 <= i < |first| :: first[i] !in {'\n'};
    if |lines| == 1 {
      FindNone(first, {'\n'});
    } else {
      var tail := lines[1..];
      var rest := Join(tail);
      var s := first + ['\n'] + rest;
      assert Join(lines) == s;
      FindFirst(first, '\n', rest, {'\n'});
      assert s[..|first|] == first;
      assert s[|first| + 1..] == rest;
      assert Split(s) == [first] + Split(rest);
      SplitJoin(tail);
      assert lines == [first] + tail;
    }
  }

  /** The text `get_prices` returns tells its three outcomes apart: it is
      the no-match text only for an empty report, it starts with the failure
      prefix only after an exception, and a price report splits back into
      exactly its lines. */
  lemma {:induction false} MessageDecodes(fetched: Result<Payload, Reason>, describe: Reason -> string)
    ensures Outcome(fetched).NoMatch? <==> Message(Outcome(fetched), describe) == NoMatchText
    ensures Outcome(fetched).Failed? <==> FailurePrefix <= Message(Outcome(fetched), describe)
    ensures Outcome(fetched).Lines? ==> Split(Message(Outcome(fetched), describe)) == Outcome(fetched).lines
  {
    var r := Outcome(fetched);
    if r.Lines? {
      var s := fetched.value.results.value;
      ScanLines(s, r.lines);
      forall k | 0 <= k < |r.lines|
        ensures '\n' !in r.lines[k] && r.lines[k][0] != 'خ'
      {
        var q := Matching(s)[k];
        assert q in Matching(s);
        LineShape(q.code.value, PriceOf(q.price.value).value);
      }
      SplitJoin(r.lines);
      var m := Join(r.lines);
      assert m[0] == r.lines[0][0];
      assert m[0] != FailurePrefix[0];
    }
  }
}
