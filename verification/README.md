# Bitpin price report, modelled in Dafny

This project models the decision logic of the Bitpin price bot: the body of
`get_prices` in `main.py`. The function gets the market's decoded response
and walks the quote records of its `results` list in payload order. Each
record whose `code` is a key of the allow-list `CRYPTO_LIST` becomes one line:

    <Persian display name>: <price, truncated, with comma thousands separators> تومان

The lines are joined with newlines. If no record is listed, the call returns
the marker `خطا!` ("error!"). If any lookup or conversion raises, the whole
call returns `خطا: ` followed by the exception text.

Modules:

- `Wrappers`: `Option` and `Result`.
- `Digits`: decimal digit strings. `Value` reads one and `Spell` writes a
  natural number; the two are proved to be inverse.
- `Grouping`: Python's `{:,}` format of an integer (`Thousands`, built on
  `Group` and `Pad3`). It is proved equal to an independent "insert a comma
  every three digits from the right" definition (`InsertCommas`). Removing
  the commas gives back the digits. The grouping has the one-to-three, then
  exactly-three, shape.
- `FloatText`: `int(float(price))` for a price given as text or as a JSON
  number.
  - `ParseFloat` covers: ASCII whitespace trimming, an optional sign, digits
    with an optional fraction and exponent, and `inf`/`infinity`/`nan` in any
    case.
  - The value of a finite number is kept exact (`Scaled`: units times a power
    of ten). `Truncate` rounds toward zero as Python's `int()` does.
- `Prices`: the allow-list and the texts.
  - `Step` is one turn of the loop; `Scan` is the loop over a prefix of the
    records.
  - `Report` is the three outcomes: `Lines`, `NoMatch` and `Failed`.
    `Message` is the returned text.
  - `GetPrices` is the imperative loop of the source, proved to return
    `Message(Outcome(fetched), describe)`.
  - `Matching` (the listed records, head-first), `Fails`, `ReasonOf` and
    `LineFor` are reference definitions independent of the loop. The lemmas
    tie the loop to them.
- `PriceExamples`: concrete payloads and prices, each worked through.

The exception text `str(e)` is not spelled out. `Message` and `GetPrices` take
a function `describe: Reason -> string` in its place. Each `Reason` carries
what Python's message depends on: the missing key, the text `float()` could
not read, or the JSON kind it refuses. A NaN and an infinity of either sign
each have a single message, and so a single reason.

What `main.py` does on its failure paths:

- `get_prices` has no HTTP retry or back-off, and nothing gates delivery or
  suppresses error texts. `get_prices` returns `خطا!` and `خطا: …` as ordinary texts,
  and `send_message` posts whatever it returns.
- A record without `code`, or a listed record without `price`, is not
  skipped. It raises `KeyError`, and the whole call fails.
- An empty report is the text `خطا!`, not a separate variant that goes
  undelivered.

## Model

| member | source | states |
|---|---|---|
| Prices.GetPrices | main.py:17-29 | The loop over `data['results']` with its early exits returns exactly the text of the call's outcome: joined lines, `خطا!` when nothing matched, or `خطا: ` plus the exception text (for a failed request, a missing `results` key, or the first failing record). |
| Prices.ScanSkips | main.py:24 | A record whose symbol is not listed leaves the collected lines unchanged. |
| Prices.ScanAdds | main.py:24-26 | A listed record with a convertible price appends its line to the lines collected so far. |
| Prices.ScanStops | main.py:23-25 | A record that raises makes the loop raise that same exception. |
| Prices.ScanFailureLasts | main.py:22-29 | Once the loop has raised, no later record changes the outcome. |
| Prices.StepCases | main.py:23-26 | One record raises exactly when it has no code, or is listed with a missing or unconvertible price, and then with that reason. Otherwise a listed record gives its own line and an unlisted one gives none. |
| Prices.ScanSucceedsIff | main.py:22-26 | The loop completes exactly when no record fails (both directions). |
| Prices.ScanFailsAtFirst | main.py:22-29 | When the loop raises, the exception is that of the first failing record, and every record before it is harmless. |
| Prices.ScanLines | main.py:21-26 | A completed loop yields one line per listed record, in payload order. Duplicates are kept. The k-th line is the rendering of the k-th listed record's own symbol and price. |
| Prices.MatchingAppend | main.py:22-26 | The listed records of a concatenation are those of each part, in order, so payload order is kept. |
| Prices.MatchingCounts | main.py:22-26 | A listed record occurs among the kept records as often as in the payload; an unlisted record never does. |
| Prices.Matching | main.py:22-24 | Every kept record is listed and comes from the payload. |
| Prices.MatchingEmptyIff | main.py:24-27 | No record is kept exactly when no record is listed (both directions). |
| Prices.ReportNoMatchIff | main.py:27 | The report is the no-match marker exactly when every record has a code and none is listed (both directions). |
| Prices.ScanPointwise | main.py:22-26 | Two payloads whose records behave the same one by one give the same loop outcome. |
| Prices.UnlistedPriceIgnored | main.py:23-25 | The price of an unlisted record is never read: replacing it, or removing it, leaves the report unchanged. |
| Prices.SameFailureSameText | main.py:25-29 | Two price texts that fail with the same reason are the same text, or both read as a NaN, or both as an infinity. These are exactly the cases where Python's exception text is the same too. |
| Prices.PriceOfFiniteText | main.py:25 | Text that `float()` reads as a finite number `x` converts successfully, to the integer that `TruncatesTo` defines for `x`. |
| Prices.PriceOfPointText | main.py:25 | A price sent as `<whole>.<fraction>`, with a non-empty digit string `whole` and a digit string `fraction`, becomes the number its whole-part digits spell: the fraction is dropped, not rounded. |
| Prices.PriceOfNegativePointText | main.py:25 | A price sent as `-<whole>.<fraction>`, with a non-empty digit string `whole` and a digit string `fraction`, becomes minus its whole part: truncation is toward zero. |
| Prices.DisplayNames | main.py:12 | Every display name of `CRYPTO_LIST` is non-empty, holds no newline and does not start with the first letter of the error texts. |
| Prices.LineShape | main.py:26 | A price line holds no newline and does not start like an error text. |
| Prices.SplitJoin | main.py:27 | Splitting `"\n".join(lines)` at newlines gives back the lines, when there is at least one line and no line holds a newline. |
| Prices.MessageDecodes | main.py:27-29 | The returned text tells the outcomes apart. It is `خطا!` exactly for the no-match outcome. It starts with `خطا: ` exactly after an exception. A price report splits back into exactly its lines. |
| Grouping.Pad3 | main.py:26 | A group after the first is exactly three digits with leading zeros, and reads back as the number. |
| Grouping.SpellSplit | main.py:26 | The decimal spelling of a number of four digits or more is the spelling of its thousands followed by its last three digits, padded. |
| Grouping.GroupIsInsertCommas | main.py:26 | `{:,}` of a natural number equals its decimal spelling with a comma inserted every three digits from the right. |
| Grouping.GroupStripsToSpell | main.py:26 | Removing the commas from `{:,}` of a number gives its decimal digits. |
| Grouping.GroupRoundTrip | main.py:26 | Removing the commas from `{:,}` of a number and reading the digits gives back the number. |
| Grouping.WellGroupedExtend | main.py:26 | Appending a comma and three digits to a well-grouped text keeps it well grouped. |
| Grouping.GroupWellGrouped | main.py:26 | In `{:,}` of a number, every fourth character from the right is a comma and all others are digits. So the groups after the first have three digits and the first has one to three. |
| Grouping.ThousandsChars | main.py:26 | `{:,}` of an integer is non-empty, made of digits, commas and a minus sign. It starts with `-` exactly when the integer is negative. |
| Digits.Spell | main.py:26 | The decimal spelling of a number is a canonical digit string (no leading zero), one digit long exactly below ten. |
| Digits.ValueOfSpell | main.py:26 | Reading the decimal spelling of a number gives the number. |
| Digits.SpellOfValue | main.py:26 | Spelling the value of a canonical digit string gives the string back. |
| Digits.ValueAppend | main.py:25 | Reading digits `a` then `b` gives the value of `a` shifted by the length of `b`, plus the value of `b`. |
| Digits.ValueBound | main.py:25 | A digit string of length k reads as less than 10^k. |
| Digits.LeadingNonZeroIsPositive | main.py:26 | A digit string of length k without a leading zero reads as at least 10^(k-1). |
| FloatText.DivTowardZeroBounds | main.py:25 | Integer division as `int()` does it: the magnitude of the quotient is the number of whole times the divisor fits, and the quotient has the dividend's sign. |
| FloatText.TruncateMeetsSpec | main.py:25 | `Truncate` meets the reference definition of `int()` on a float: a whole value is kept; otherwise the result's magnitude is the number of whole times `10^-exponent` fits into the units, and its sign is theirs (or it is zero). |
| FloatText.TruncatesToUnique | main.py:25 | At most one integer meets that reference definition, so `Truncate` is determined by it. |
| FloatText.TruncateNegate | main.py:25 | `int()` commutes with negation: a negated number truncates to the negated integer. Rounding down would not. |
| FloatText.TruncateDropsFraction | main.py:25 | Truncating `<whole>.<fraction>` gives the value of the whole-part digits. |
| FloatText.Find | main.py:25 | `Find` returns the first index of a character from the set, or the length when there is none. |
| FloatText.TrimNothing | main.py:25 | Text without surrounding whitespace is not changed by `float()`'s trimming. |
| FloatText.ParseIgnoresLeadingSpace | main.py:25 | Leading whitespace does not change what `float()` reads. |
| FloatText.ParseDigitFirst | main.py:25 | Text that starts with a digit and does not end in whitespace is read as an unsigned literal: neither signed, nor an infinity, nor a NaN. |
| FloatText.ParseNegated | main.py:25 | For text that starts with a digit and does not end in whitespace, a leading minus sign negates what the rest of the text reads as. |
| FloatText.ParseUnsignedPoint | main.py:25 | For a non-empty digit string `whole` and a digit string `fraction`, `<whole>.<fraction>` reads as the exact number `whole.fraction`. |
| FloatText.ParsePointDecimal | main.py:25 | For a non-empty digit string `whole` and a digit string `fraction`, `float()` of `<whole>.<fraction>` is finite and is that exact number. |
| FloatText.ParseInteger | main.py:25 | `float()` of a non-empty digit string is the integer it spells. |
| FloatText.ParseLetterFirst | main.py:25 | Text that starts with a letter other than `e`, `i` or `n`, in either case, and does not end in whitespace is not a number: `float()` raises ValueError. |
| FloatText.PointDecimalTruncates | main.py:25 | For a non-empty digit string `whole` and a digit string `fraction`, `int(float(...))` of `<whole>.<fraction>` is the whole part. |
| FloatText.NegatedTextTruncates | main.py:25 | Text starting with a digit, read after a minus sign, truncates to minus what it truncates to without one. |
| FloatText.NegativePointDecimalTruncates | main.py:25 | For a non-empty digit string `whole` and a digit string `fraction`, `int(float(...))` of `-<whole>.<fraction>` is minus the whole part. |
| PriceExamples.ValueFortyFiveMillion | main.py:25 | The digits `45000000` read as 45000000. |
| PriceExamples.TruncatesNotRounds | main.py:25 | `"45000000.7"` converts to 45000000. |
| PriceExamples.NegativeTruncatesTowardZero | main.py:25 | `"-3.7"` converts to -3, not -4. |
| PriceExamples.InfinityOverflows | main.py:25 | `"inf"` raises OverflowError. |
| PriceExamples.NegativeInfinityOverflows | main.py:25 | `"-Infinity"` raises OverflowError: the spelling ignores case and sign. |
| PriceExamples.NanRejected | main.py:25 | `"NaN"` raises the ValueError of `int()` on a NaN, not that of `float()` on unreadable text. |
| PriceExamples.EmptyTextRejected | main.py:25 | An empty text raises ValueError. |
| PriceExamples.GroupedTextRejected | main.py:25 | `"1,000"` raises ValueError: `float()` takes no thousands separators. |
| PriceExamples.NotNumericRejected | main.py:25 | A price that is null, an array or an object raises TypeError, naming its kind. |
| PriceExamples.UnreadableTextKept | main.py:25-29 | A listed price `"abc"` fails with `خطا: ` plus the text of a ValueError that keeps `"abc"`, and differs from the failure text for `"xyz"` whenever `describe` tells the two reasons apart. |
| PriceExamples.GroupsMillions | main.py:26 | 45000000 renders as `45,000,000`. |
| PriceExamples.GroupsBillions | main.py:26 | 2345000000 renders as `2,345,000,000`. |
| PriceExamples.BitcoinLine | main.py:12-26 | The line for BTC at 2345000000 is `بیتکوین: 2,345,000,000 تومان`. |
| PriceExamples.MixedPayload | main.py:12-27 | A BTC record followed by an unlisted record gives the single BTC line. |
| PriceExamples.PayloadOrder | main.py:12-27 | ETH then BTC gives the ETH line before the BTC line, whatever the order of `CRYPTO_LIST`. |
| PriceExamples.DuplicatesKept | main.py:12-27 | Two USDT records give two identical lines. |
| PriceExamples.MissingCodeFails | main.py:23-29 | A record without a code fails the whole call, even after a good line. |
| PriceExamples.MissingPrice | main.py:23-29 | An unlisted record without a price gives `خطا!`, but a listed one raises KeyError. |
| PriceExamples.EmptyResults | main.py:22-29 | An empty `results` list gives `خطا!`, and a body without `results` fails. |

## Left out

- Fetching (main.py:15-20): `requests.get`, `raise_for_status` and `response.json()` are network I/O and JSON decoding. `GetPrices` takes their result, the decoded body or an exception (`Request(detail)`), as a parameter.
- The wording of `str(e)` (main.py:29) is a Python exception message, including the `repr` quoting of a key or a text. It is the parameter `describe`. A `Reason` holds everything the message depends on, but the model does not fix the wording for each reason.
- Floating point (main.py:25): a finite float keeps its exact decimal value, where `float()` rounds to the nearest double. Any text with more significant digits than a double holds can therefore truncate differently: `"0.99999999999999999"` is the double `1.0` and `int()` gives 1, while the model gives 0. Large values likewise lose no precision here, and no value overflows to an infinity.
- Prices.PriceOfPointText: describes the exact decimal value of the text, not the double `float()` rounds it to; the two differ when the text has more significant digits than a double holds.
- Prices.PriceOfNegativePointText: describes the exact decimal value of the text, not the double; the same rounding caveat applies.
- FloatText.PointDecimalTruncates: truncates the exact decimal value, not the double; the same rounding caveat applies.
- FloatText.NegativePointDecimalTruncates: truncates the exact decimal value, not the double; the same rounding caveat applies.
- `ParseFloat`: does not accept some spellings that `float()` accepts: underscores between digits, non-ASCII digits and non-ASCII whitespace. These read as `Invalid`, where Python would read a number. A JSON number is taken as an exact decimal.
- A `code` that is `null`, a number or a boolean is never a key of `CRYPTO_LIST`, so Python skips the record. The model represents such a record as `code == Some(symbol)` with an unlisted `symbol`; `code == None` means the key is absent, which raises `KeyError`.
- Shapes of the decoded body that are not represented: a top-level body that is not an object (`data['results']` raises TypeError); a non-empty `results` value that is not a list, or a null, number or boolean one (an empty string or an empty object iterates like `[]` and is represented as `Some([])`, giving `خطا!`); a record that is not a dictionary; and a `code` that is an array or an object (unhashable in `code in CRYPTO_LIST`).
- Further decoded values are represented through other constructors rather than directly: a boolean `price` is read by `float()` as 1.0 or 0.0 and corresponds to `Number(Scaled(1, 0))` or `Number(Scaled(0, 0))`; the `NaN`, `Infinity` and `-Infinity` number literals that Python's `json` accepts correspond to `Text("nan")`, `Text("inf")` and `Text("-inf")`, for which `int()` raises ValueError or OverflowError. `PriceField.Number` itself holds only finite values.
- `send_message` and `main` (main.py:31-45): the Telegram call, the asynchronous loop and the one-minute sleep.
- Environment configuration (main.py:8-10).
