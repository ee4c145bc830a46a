# AppInsightsProxy core, modelled and proved in Dafny

`AppInsightsProxy` is an HTTP-triggered function. It takes a Kusto query for an Application
Insights app and finds the query's lower time bound, `timestamp > datetime('…')`. It then pages
through the query's results in timestamp order, `batchSize` rows at a time. It returns the
rows it fetches as flat JSON records, with the `timestamp` column rewritten into the six-digit UTC form
Airbyte expects.

The project models the sequential logic of `AppInsightsProxy.cs`:

- **The timestamp codec.** `Timestamp.ParseApplicationInsightsDateTime` is `DateTime.ParseExact`
  over the eight `yyyy-MM-ddTHH:mm:ss[.f…]Z` formats. `Timestamp.ToAirbyteIsoString` writes
  `yyyy-MM-ddTHH:mm:ss.ffffff` and then `Z`.
  - Instants are .NET ticks: 100 ns units counted from 0001-01-01.
  - `Calendar` holds the proleptic Gregorian arithmetic: `ToTicks`, `FromTicks` and their
    inverse proofs.
  - `Digits` holds fixed-width decimal text.
- **The record normaliser.** `Records.GetRecords` is a loop over rows. Its inner loop,
  `Records.BuildRecord`, fills a `JsonObject` property by property, as the source does.
  - Each method is proved equal to a functional specification: `Normalize`, `RowRecord`.
  - The properties of the rows are proved about that specification.
  - `Json` models the JSON nodes and the ordered property list of a `JsonObject`, including
    the indexer that replaces a property in place or appends it.
- **The start bound.** `StartBound.TryParseStartDateTime` finds the leftmost match of
  `timestamp\s*>\s*datetime\('([^']+)'\)` with a hand-written matcher. It then reads the
  captured literal with the date parser.
- **The window.** `Window.ResolveWindow` chooses `fromTime` and `toTime` from the
  `x-date-start` and `x-date-interval` headers, or else from the start bound and
  `DateTime.MaxValue`.
- **The pagination loop.**
  - `Pagination.Paginate` is the `while (true)` loop of `Run`, proved equal to the recursive
    `Pagination.Collect`.
  - `Pagination.Requests` lists the requests the loop sends.
  - `Proxy.Run` is the whole function: the early returns in their order, the window, then the
    loop.

The parts that are library calls or I/O are parameters of the model:

- the culture-dependent `DateTime.TryParse`/`Parse` (`DateParser`);
- `int.TryParse` (`IntParser`);
- the JSON reading of the request body (`QueryReader`);
- `GetAppInsightsResponse` (`PageSource`).

Every property proved holds for all of them.

Exceptions the function does not catch are values of `Faults.Fault`. They reach the caller as
`Proxy.ServerError`.

## Behaviour of the code worth knowing

- **The `Z` of the ParseExact formats is not a literal.** .NET matches it against the
  time-zone names `Z` and `GMT`, ignoring case. So `…z`, `…GMT` and `…gmt` parse too
  (`Timestamp.IsUtcDesignator`).
- **Column names.** A column gets `col{i}` only when its name is null or missing. An empty name
  is kept as it is (line 136 uses `??`). A column object that repeats a property name throws
  on `c?["name"]` (line 130), because indexing a parsed `JsonObject` first builds its
  dictionary; the fault is `DuplicateProperty`.
- **The start bound is always required.** A query string without a parsable
  `timestamp > datetime('…')` is refused with 400 (lines 50-51). A `query` that is JSON null
  (`GetString()` gives null, line 44) makes `Regex.Match` throw (line 158), so that request is
  answered with a server error, not 400 (`Faults.NullQuery`).
- **The cursor reads column 0** of the last row, whatever that column is, not the column named
  `timestamp` (line 71). If that text does not parse, the exception escapes.
- **`x-batch-size` is not checked for positivity** (line 36). With a batch size of zero or less,
  no page is short (`Pagination.NonPositiveBatchNeverShort`).
- **A missing `tables`, `columns` or `rows` ends the loop** like an empty page, even on the
  first page (lines 62-63 with lines 122-123).
- **Rows within 1 ms after the last row of a full page are skipped.** The next request starts
  at the last row's first cell plus one millisecond (line 71), and asks for
  `timestamp >= fromTime` (line 59). Rows at that instant that `take` cut off, and rows less
  than 1 ms after it, are never fetched (`Pagination.CursorSpec`,
  `Pagination.FullPageAdvances`).
- **The cursor need not advance.** Nothing in the code makes the cursor increase. It does
  increase when the rows honour the `timestamp >= fromTime` filter and column 0 is that
  timestamp (`Pagination.HonestSourceNeverStalls`); it may also increase for pages that do not.
  When it does not increase, the code queries the same or an earlier window again. The model
  stops there with `Stalled`, answered as `Proxy.Unfinished`.

## Model

| member | source | states |
|---|---|---|
| Digits.ValueOfPadded | AppInsightsProxy.cs:100-101 | a number written in k digits with leading zeros reads back as the same number |
| Digits.PaddedValueOf | AppInsightsProxy.cs:85-98 | a digit string read as a number and written again in as many digits is the same string |
| Digits.NatToStringDecimal | AppInsightsProxy.cs:136 | the `{i}` text of an index is decimal digits without a leading zero and reads back as the index |
| Calendar.ToTicks | AppInsightsProxy.cs:85-98 | the ticks of valid fields split into the day number and the ticks within that day |
| Calendar.FromTicks | AppInsightsProxy.cs:101 | the fields of an instant are valid calendar fields and name that instant |
| Calendar.FromTicksToTicks | AppInsightsProxy.cs:85-101 | valid fields survive ticks and back, so different valid fields name different instants |
| Timestamp.ParseApplicationInsightsDateTime | AppInsightsProxy.cs:83-98 | a parsed string is 20 to 30 characters long and starts with a `yyyy-MM-ddTHH:mm:ss` head |
| Timestamp.ParseAccepts | AppInsightsProxy.cs:83-98 | every head, fraction of nothing or `.` and 1-7 digits, and UTC designator with valid fields parses, to the instant those fields name |
| Timestamp.ParseOnlyAccepts | AppInsightsProxy.cs:83-98 | every string that parses is such a head, fraction and designator with valid fields |
| Timestamp.ToAirbyteIsoString | AppInsightsProxy.cs:100-101 | the result is 27 characters: a `yyyy-MM-ddTHH:mm:ss` head, `.`, six digits, `Z` |
| Timestamp.MicroDigits | AppInsightsProxy.cs:101 | the `ffffff` part is six digits |
| Timestamp.WholeMicros | AppInsightsProxy.cs:101 | truncation to whole microseconds: a multiple of 10 ticks, at most 9 ticks earlier |
| Timestamp.ReadWrittenHead | AppInsightsProxy.cs:83-101 | reading the head written for valid fields gives those fields back |
| Timestamp.WriteReadHead | AppInsightsProxy.cs:83-101 | writing the fields read from a head gives that head back |
| Timestamp.SixDigitFraction | AppInsightsProxy.cs:94 | `.` and six digits is a fraction the `ffffff` format reads, worth ten ticks per microsecond |
| Timestamp.TruncateFraction | AppInsightsProxy.cs:101 | dropping the seventh fractional digit keeps the fields valid and truncates the instant to a multiple of 10 ticks |
| Timestamp.RenderedAccepted | AppInsightsProxy.cs:94-101 | the rendered text is an accepted shape whose fields name the instant truncated to microseconds |
| Timestamp.RenderThenParse | AppInsightsProxy.cs:83-101 | parsing the rendered text gives the instant truncated to whole microseconds |
| Timestamp.SixDigits | AppInsightsProxy.cs:101 | the six fractional digits a parsed fraction renders as are six ASCII digits |
| Timestamp.FractionDigits | AppInsightsProxy.cs:83-101 | rendering a parsed fraction pads its digits with zeros to seven places and keeps the first six |
| Timestamp.ParseThenRender | AppInsightsProxy.cs:83-101 | rendering a parsed string keeps its head, gives six fractional digits and ends in `Z` |
| Timestamp.RenderTruncated | AppInsightsProxy.cs:101 | two instants that agree to the microsecond render alike |
| Timestamp.RenderParseRender | AppInsightsProxy.cs:83-101 | render, parse and render again gives the first rendering |
| Json.Lookup | AppInsightsProxy.cs:130 | a property is found exactly when its name is a key, and then with a value the object holds under that name |
| Json.Set | AppInsightsProxy.cs:140-147 | the indexer keeps the keys and their order when the key exists, and appends `(key, value)` when it does not |
| Json.SetKeys | AppInsightsProxy.cs:140-147 | after setting, the keys are the old keys plus the key set |
| Json.SetDistinct | AppInsightsProxy.cs:140-147 | setting never duplicates a key |
| Json.SetLookup | AppInsightsProxy.cs:140-147 | reading back gives the value set under that key and leaves the other keys unchanged |
| Json.FillAppend | AppInsightsProxy.cs:134-148 | storing one more property is one more indexer call |
| Json.NameSet | AppInsightsProxy.cs:134-148 | the set holds exactly the names of the properties |
| Json.FillKeys | AppInsightsProxy.cs:134-148 | a filled object has each stored name once and no other name |
| Json.FillLookup | AppInsightsProxy.cs:134-148 | a name holds the value stored under it last |
| Json.FillDistinct | AppInsightsProxy.cs:134-148 | storing pairwise different names lists them in storing order |
| Records.ColumnNamesSpec | AppInsightsProxy.cs:130 | `ColumnName` of each column: the names exist exactly when every column is null or an object that repeats no property name, and then list each column's own name in order |
| Records.ColumnKeysOf | AppInsightsProxy.cs:136 | there is one key per column |
| Records.GetRecords | AppInsightsProxy.cs:128-152 | the row loop yields exactly `Normalize` of the page, with the fault of the first failing row |
| Records.BuildRecord | AppInsightsProxy.cs:133-150 | the column loop builds exactly `RowRecord` of the row, with the fault of the first failing column |
| Records.PageRecordsFailureSticks | AppInsightsProxy.cs:132-151 | once a row fails, the rows after it do not change the outcome |
| Records.RowEntriesFailureSticks | AppInsightsProxy.cs:134-149 | once a column fails, the columns after it do not change the outcome |
| Records.RowEntriesFailure | AppInsightsProxy.cs:134-149 | a failing column decides the fault of its row |
| Records.RowEntriesExtend | AppInsightsProxy.cs:134-149 | a stored column adds one property to the entries and to the filled object |
| Records.StoredAtSucceeds | AppInsightsProxy.cs:135-147 | `Cell` then `Stored`: a cell is stored exactly when the row is null, or is an array with that cell being null, boolean, number or string |
| Records.RowEntriesSpec | AppInsightsProxy.cs:134-149 | a row's properties are its column keys with their stored values, in order, and the row fails exactly when a column does |
| Records.RowEntriesFirstFault | AppInsightsProxy.cs:134-149 | a row's fault is the fault of its first failing column |
| Records.RowRecordSucceeds | AppInsightsProxy.cs:133-150 | a record is built exactly when there are no columns, the row is null, or the row has a scalar for every column |
| Records.RowRecordFirstFault | AppInsightsProxy.cs:133-150 | a failing record's fault is that of its first failing column |
| Records.RowRecordKeys | AppInsightsProxy.cs:130-136 | a record's keys are exactly the column keys, each once |
| Records.RowRecordLookup | AppInsightsProxy.cs:136-148 | a key holds its column's stored value unless a later column has the same key |
| Records.RowRecordPassThrough | AppInsightsProxy.cs:138-147 | outside `timestamp`, and in it when the cell is not a string, a cell is stored unchanged, and a null row gives null |
| Records.RowRecordPositional | AppInsightsProxy.cs:133-150 | with distinct keys, the record lists the columns in column order |
| Records.SyntheticKeysDistinct | AppInsightsProxy.cs:136 | `col{i}` differs from `col{j}` for i ≠ j |
| Records.UnnamedColumnsPositional | AppInsightsProxy.cs:130-136 | unnamed columns give records keyed `col0`, `col1`, … in order |
| Records.PageRecordsRows | AppInsightsProxy.cs:132-151 | one record per row, in row order, and the page fails exactly when a row does |
| Records.TimestampCanonicalised | AppInsightsProxy.cs:138-140 | `Stored` with `CanonicalTimestamp`: a parsable `timestamp` string is stored as its head, `.`, six fractional digits and `Z` |
| Records.UnparsableKept | AppInsightsProxy.cs:138-144 | `Stored` with `CanonicalTimestamp`: every `timestamp` string that does not parse, such as `not-a-date`, is stored unchanged |
| Records.CanonicalIdempotent | AppInsightsProxy.cs:138-144 | canonicalising a stored timestamp again changes nothing |
| Records.CanonicalOfRendered | AppInsightsProxy.cs:140 | a rendered timestamp is already canonical |
| StartBound.SkipWhiteSpace | AppInsightsProxy.cs:158 | a greedy `\s*` stops at the first character that is not whitespace |
| StartBound.SkipToQuote | AppInsightsProxy.cs:158 | a greedy `[^']+` stops at the first quote |
| StartBound.WhiteSpaceRun | AppInsightsProxy.cs:158 | `\s*` stops exactly after a whitespace run that is followed by a non-space |
| StartBound.QuoteFreeRun | AppInsightsProxy.cs:158 | `[^']+` stops exactly at the quote that ends a quote-free run |
| StartBound.FirstMatch | AppInsightsProxy.cs:158 | the match found is leftmost: there is no match before it, and none at all when None |
| StartBound.MatchAtSound | AppInsightsProxy.cs:158 | what the matcher `MatchAt` captures is a match of the pattern with some whitespace runs |
| StartBound.MatchAtComplete | AppInsightsProxy.cs:158 | every match of the pattern at a position captures the literal `MatchAt` finds there |
| StartBound.TryParseStartDateTime | AppInsightsProxy.cs:154-160 | true exactly when the leftmost match's literal parses; otherwise false with `DateTime.MinValue` |
| StartBound.StartFromFirstPredicate | AppInsightsProxy.cs:154-160 | the start bound is the parsed literal of the leftmost predicate, whatever whitespace is around `>` |
| StartBound.OnlyGreaterOrEqual | AppInsightsProxy.cs:157-160 | a query whose every `timestamp` is followed by `>=` has no start bound |
| StartBound.GreaterOrEqualAt | AppInsightsProxy.cs:158 | `timestamp >= datetime(…)` is not a match |
| Window.NoHeadersWindow | AppInsightsProxy.cs:53-54 | `ResolveWindow`: without headers the window is from the start bound to `DateTime.MaxValue` |
| Window.StartHeaderOverrides | AppInsightsProxy.cs:53 | `ResolveWindow` and `WindowStart`, with `HeaderValue` reading the header: a parsable `x-date-start` replaces the start bound, which then has no effect |
| Window.QueryStartKept | AppInsightsProxy.cs:53 | with `HeaderValue` reading the header (null never parses): without a parsable `x-date-start`, the window starts at the start bound |
| Window.WindowEnd | AppInsightsProxy.cs:53-54 | `ResolveWindow`: `toTime` is `DateTime.MaxValue` without a parsable interval, otherwise exactly that many minutes after `fromTime` (`Shift`), with an exception exactly when that leaves DateTime's range |
| Window.NonNegativeIntervalOrdered | AppInsightsProxy.cs:54 | a non-negative interval never ends the window before it starts |
| Pagination.Prepend | AppInsightsProxy.cs:65-66 | adding earlier records does not change how the loop ended |
| Pagination.PrependPrepend | AppInsightsProxy.cs:65-66 | adding two batches of records one after the other is adding them joined |
| Pagination.Requests | AppInsightsProxy.cs:58-60 | the loop sends at least one request, and the first is the initial window |
| Pagination.Paginate | AppInsightsProxy.cs:56-73 | the loop's outcome is exactly `Collect` of the first request |
| Pagination.EmptyPageStops | AppInsightsProxy.cs:62-63 | no page, no columns or no rows: the loop stops after that one request, adding nothing |
| Pagination.PageFaultFails | AppInsightsProxy.cs:65 | a page whose records cannot be built ends the request with that fault |
| Pagination.ShortPageStops | AppInsightsProxy.cs:68-69 | after a page shorter than the batch size the loop stops with that page's records |
| Pagination.NonPositiveBatchNeverShort | AppInsightsProxy.cs:36-69 | `Proxy.BatchSize` takes any int; with a batch size of zero or less, every fetched page goes on to the cursor |
| Pagination.CursorFaultFails | AppInsightsProxy.cs:71 | a full page whose cursor cannot be read ends the request with that fault |
| Pagination.CursorBehindStalls | AppInsightsProxy.cs:71-72 | a cursor that is not past `fromTime` stops the model, with the records so far |
| Pagination.FullPageAdvances | AppInsightsProxy.cs:58-72 | one turn of the loop (`PageStep`): after a full page, the records are kept and the next request differs only in `from`, which is the cursor |
| Pagination.CursorSpec | AppInsightsProxy.cs:71 | `CursorAfter`: the cursor exists exactly when the text of the last row's first cell (`CursorText`: a string's own text, `""` for null) parses and that instant plus 1 ms (`Shift`) is in range, and it is that instant plus 1 ms |
| Pagination.CursorAfterRecords | AppInsightsProxy.cs:65-71 | after records were built, the cursor can fail only on a null row, unparsable text or the range |
| Pagination.RequestsKeepWindow | AppInsightsProxy.cs:58-72 | every request keeps the query, `toTime` and the batch size |
| Pagination.RequestsFollowCursor | AppInsightsProxy.cs:71-72 | each later request starts at the cursor of the full page before it |
| Pagination.RequestsStepUp | AppInsightsProxy.cs:71-72 | each listed request starts after the one before it, until the model stops at a stall |
| Pagination.RequestsAscend | AppInsightsProxy.cs:56-73 | the listed request starts strictly increase, so no window start is queried twice until the model stops at a stall |
| Pagination.HonestRequestsEnd | AppInsightsProxy.cs:56-73 | if every page honours its filter, the last listed request is where the loop breaks or throws, so the list is every request the loop sends |
| Pagination.CompletedConcatenates | AppInsightsProxy.cs:56-69 | a completed loop returns the records of the fetched pages, concatenated in fetch order |
| Pagination.HonestPageAdvances | AppInsightsProxy.cs:59-72 | a full page whose first column honours `timestamp >= fromTime` moves the cursor past `fromTime` |
| Pagination.HonestSourceNeverStalls | AppInsightsProxy.cs:56-73 | if every page honours its filter, the loop completes or fails and never stalls |
| Proxy.Respond | AppInsightsProxy.cs:75-79 | the loop never produces a 400, and it produces a 200 exactly when it completes |
| Proxy.Run | AppInsightsProxy.cs:24-80 | the function's answer is exactly `Handle`: the early returns in order, then the loop |
| Proxy.RefusedBeforeFetching | AppInsightsProxy.cs:28-51 | a 400 answer comes exactly from the checks before the loop |
| Proxy.PrepareRefusals | AppInsightsProxy.cs:28-54 | `Prepare`: 400 exactly for a blank key, a blank body, an unreadable query or a missing start bound, with the first failed check's message |
| Proxy.DefaultFirstRequest | AppInsightsProxy.cs:36-54 | `BatchSize` defaults to 5000 and `ResolveWindow` to the start bound and `DateTime.MaxValue`: without optional headers, the first page spans from the start bound to `DateTime.MaxValue`, 5000 rows at a time |
| Proxy.SuccessIsPages | AppInsightsProxy.cs:50-79 | a 200 needs a key, a body and a parsable start bound, and holds the fetched pages' records in fetch order |
| Proxy.HonestSourceAnswers | AppInsightsProxy.cs:56-79 | with an honest source, every request is answered with 400, 200 or an exception, never left unfinished |

## Left out

- `GetAppInsightsResponse` (lines 105-126) is the HTTP POST and the parsing of its answer.
  The model takes it as the `PageSource` parameter: a page or None. The race on the headers of
  the shared static `HttpClient` (lines 21, 110-112) is not modelled, because the model has no
  concurrency.
- Transport failures and malformed answers are not modelled: a network error of `PostAsync`,
  an answer that is not JSON, an empty `tables` array (`[0]`, line 118), or a `tables`,
  `columns` or `rows` that is not an array (`AsArray()`, lines 118-120) throws out of `Run`.
  The `PageSource` parameter always answers, with a page or None.
- Reading the request: the header collection, the body stream and `JsonDocument.Parse`
  (lines 28-48). The model takes the headers' first values and the body text as fields of
  `Proxy.Request`, and the reading of `query` as the `QueryReader` parameter.
- `DateTime.TryParse`, `DateTime.Parse` and `int.TryParse` (lines 36, 53, 54, 71, 159) depend
  on the culture. They are the parameters `DateParser` and `IntParser`. Only their results are
  modelled, not the formats they accept.
- The text of the paginated query (line 59): the `O` round-trip formatting and the string
  interpolation. A request is the structured `PageRequest` (query, from, to, batch size) that
  the text is built from.
- `JsonSerializer.Serialize` (line 76) and `JsonValue.Create(value.GetValue<object>())`
  (line 147) are taken as identity on the JSON value, apart from the exception for object or
  array cells.
- Json.JsonText: writes an object or array compactly, where `JsonNode.ToString()` writes it
  indented, and escapes only `"` and `\` in its strings, where `System.Text.Json` also escapes
  control, non-ASCII and HTML-sensitive characters. It is used through `Json.NodeText` wherever
  the code calls `ToString()` on a node that is not a string: a column `name` (line 130) and the
  first cell of the last row, read as the cursor (line 71, `Pagination.CursorText`). For numbers
  and booleans the text is the same as the code's; for objects and arrays it differs.
- Strings are sequences of Unicode scalar values, where .NET strings are UTF-16 code units. A
  character outside the Basic Multilingual Plane counts once here and twice in .NET (lengths,
  `[^']`, `\s`), and a lone surrogate cannot be written. The results agree, because every
  character the code matches against (digits, the pattern's letters and punctuation, the quote,
  white space) lies in the Basic Multilingual Plane.
- `DateTime.Kind`, `ToUniversalTime` and the `AssumeUniversal | AdjustToUniversal` styles are
  not modelled. Every instant is UTC ticks.
- `async`/`await`, hosting attributes, logging, and the content type and status code of the
  answer are not modelled.
- Records.ColumnKeysOf: computes each column's key once per page instead of once per cell. The
  key depends only on the column, so the records are the same.
- Pagination.Requests: lists the requests only up to a stall, so `RequestsStepUp` and
  `RequestsAscend` do not describe a source whose cursor does not advance, where the code sends
  the same or an earlier window again. `HonestRequestsEnd` shows the list is complete when every
  page honours its filter.
- Pagination.Collect: stops with `Stalled` where the source would query the same or an earlier
  window again, which may never end. The records gathered and the cursor are kept in the
  outcome.
