/** `Run`, the HTTP-triggered function: validate the request, find the query's start bound
    and window, then page through the query's results and answer with all their records. */
module Proxy {
  import opened Wrappers
  import opened Calendar
  import opened Json
  import opened Faults
  import opened StartBound
  import opened Window
  import opened Records
  import opened Pagination

  /** The parts of the request `Run` reads. A header is its first value, None when absent. */
  datatype Request = Request(
    apiKey: Option<string>,            // X-Api-Key
    body: string,
    batchSizeHeader: Option<string>,   // x-batch-size
    startHeader: Option<string>,       // x-date-start
    intervalHeader: Option<string>)    // x-date-interval

  /** `JsonDocument.Parse(body).RootElement.GetProperty("query").GetString()`. */
  datatype QueryField =
    | Unreadable          // the body is not JSON, has no "query" property, or it is neither a string nor null
    | QueryNull           // the property is JSON null
    | QueryText(text: string)

  /** The JSON reader, which the model takes as a parameter. */
  type QueryReader = string -> QueryField

  /** What `Run` answers. */
  datatype Response =
    | BadRequest(message: string)                       // 400 with this text
    | Success(records: seq<Record>)                     // 200, the records as a JSON array
    | ServerError(fault: Fault)                         // an exception escapes `Run`
    | Unfinished(records: seq<Record>, cursor: Ticks)   // the loop would query a window start again

  /** `string.IsNullOrWhiteSpace`. */
  predicate IsNullOrWhiteSpace(s: Option<string>)
  {
    s.None? || AllWhiteSpace(s.value)
  }

  const DefaultBatchSize := 5000

  /** Line 36: the `x-batch-size` header when it parses as an int, else 5000. */
  function BatchSize(header: Option<string>, parseInt: IntParser): int
  {
    match HeaderValue<Int32>(header, parseInt)
    case Some(n) => n
    case None => DefaultBatchSize
  }

  /** Lines 28-54: the early returns, in the order `Run` makes them, or the first page request. */
  function Prepare(request: Request, readQuery: QueryReader, parseDate: DateParser, parseInt: IntParser)
    : (prepared: Result<PageRequest, Response>)
  {
    if IsNullOrWhiteSpace(request.apiKey) then Err(BadRequest("Missing X-Api-Key header"))
    else if IsNullOrWhiteSpace(Some(request.body)) then Err(BadRequest("Empty request body"))
    else
      match readQuery(request.body)
      case Unreadable => Err(BadRequest("Invalid JSON body or missing 'query' property"))
      case QueryNull => Err(ServerError(NullQuery))
      case QueryText(query) =>
        var bound := TryParseStartDateTime(query, parseDate);
        if !bound.0 then Err(BadRequest("Start DateTime must be specified in the query"))
        else
          match ResolveWindow(bound.1, request.startHeader, request.intervalHeader, parseDate, parseInt)
          case Err(e) => Err(ServerError(e))
          case Ok(w) => Ok(PageRequest(query, w.from, w.to, BatchSize(request.batchSizeHeader, parseInt)))
  }

  /** Lines 75-79: the loop's records become the 200 answer; an exception escapes. */
  function Respond(o: Outcome): (r: Response)
    ensures !r.BadRequest?
    ensures r.Success? <==> o.Completed?
  {
    match o
    case Completed(records) => Success(records)
    case Failed(e) => ServerError(e)
    case Stalled(records, c) => Unfinished(records, c)
  }

  /** The answer to a request, `source` standing for `GetAppInsightsResponse` with the
      request's application id and key. */
  function Handle(request: Request, readQuery: QueryReader, parseDate: DateParser, parseInt: IntParser,
                  source: PageSource): (response: Response)
  {
    match Prepare(request, readQuery, parseDate, parseInt)
    case Err(response) => response
    case Ok(req) => Respond(Collect(source, req, parseDate))
  }

  method Run(request: Request, readQuery: QueryReader, parseDate: DateParser, parseInt: IntParser,
             source: PageSource) returns (response: Response)
    ensures response == Handle(request, readQuery, parseDate, parseInt, source)
  {
    if IsNullOrWhiteSpace(request.apiKey) {
      return BadRequest("Missing X-Api-Key header");
    }
    var batchSize := BatchSize(request.batchSizeHeader, parseInt);
    if IsNullOrWhiteSpace(Some(request.body)) {
      return BadRequest("Empty request body");
    }
    var field := readQuery(request.body);
    if field.Unreadable? {
      return BadRequest("Invalid JSON body or missing 'query' property");
    }
    if field.QueryNull? {
      return ServerError(NullQuery);
    }
    var query := field.text;
    var bound := TryParseStartDateTime(query, parseDate);
    if !bound.0 {
      return BadRequest("Start DateTime must be specified in the query");
    }
    var window := ResolveWindow(bound.1, request.startHeader, request.intervalHeader, parseDate, parseInt);
    if window.Err? {
      return ServerError(window.error);
    }
    var outcome := Paginate(source, PageRequest(query, window.value.from, window.value.to, batchSize), parseDate);
    return Respond(outcome);
  }

  /** A 400 answer is exactly a refusal by the checks before the loop: no page is fetched
      for a refused request, and no fetched page leads to a 400. */
  lemma RefusedBeforeFetching(request: Request, readQuery: QueryReader, parseDate: DateParser, parseInt: IntParser,
                              source: PageSource)
    ensures var r := Handle(request, readQuery, parseDate, parseInt, source);
            var p := Prepare(request, readQuery, parseDate, parseInt);
            (r.BadRequest? <==> p.Err? && p.error.BadRequest?) && (p.Err? ==> r == p.error)
  {
    var p := Prepare(request, readQuery, parseDate, parseInt);
    if p.Ok? {
      assert !Respond(Collect(source, p.value, parseDate)).BadRequest?;
    }
  }

  /** The checks refuse a request with 400 exactly when the key is blank, the body is blank,
      the body has no readable query, or the query has no start bound; the first of these
      decides the message. */
  lemma PrepareRefusals(request: Request, readQuery: QueryReader, parseDate: DateParser, parseInt: IntParser)
    ensures var p := Prepare(request, readQuery, parseDate, parseInt);
            var field := readQuery(request.body);
            && ((p.Err? && p.error.BadRequest?)
                <==> || IsNullOrWhiteSpace(request.apiKey)
                     || IsNullOrWhiteSpace(Some(request.body))
                     || field.Unreadable?
                     || (field.QueryText? && !TryParseStartDateTime(field.text, parseDate).0))
            && (IsNullOrWhiteSpace(request.apiKey) ==> p == Err(BadRequest("Missing X-Api-Key header")))
            && (!IsNullOrWhiteSpace(request.apiKey) && IsNullOrWhiteSpace(Some(request.body))
                ==> p == Err(BadRequest("Empty request body")))
            && (!IsNullOrWhiteSpace(request.apiKey) && !IsNullOrWhiteSpace(Some(request.body)) && field.Unreadable?
                ==> p == Err(BadRequest("Invalid JSON body or missing 'query' property")))
            && (!IsNullOrWhiteSpace(request.apiKey) && !IsNullOrWhiteSpace(Some(request.body))
                && field.QueryText? && !TryParseStartDateTime(field.text, parseDate).0
                ==> p == Err(BadRequest("Start DateTime must be specified in the query")))
  {
  }

  /** Without the optional headers, the first page covers the query's start bound up to
      `DateTime.MaxValue`, 5000 rows at a time. */
  lemma DefaultFirstRequest(request: Request, readQuery: QueryReader, parseDate: DateParser, parseInt: IntParser)
    requires !IsNullOrWhiteSpace(request.apiKey) && !IsNullOrWhiteSpace(Some(request.body))
    requires readQuery(request.body).QueryText?
    requires TryParseStartDateTime(readQuery(request.body).text, parseDate).0
    requires request.batchSizeHeader.None? && request.startHeader.None? && request.intervalHeader.None?
    ensures Prepare(request, readQuery, parseDate, parseInt)
            == Ok(PageRequest(readQuery(request.body).text, TryParseStartDateTime(readQuery(request.body).text, parseDate).1,
                              MaxTicks, 5000))
  {
    NoHeadersWindow(TryParseStartDateTime(readQuery(request.body).text, parseDate).1, parseDate, parseInt);
  }

  /** A 200 answer comes only from a request with a key, a body, and a query whose start
      bound parses; its records are those of the pages fetched, in fetch order. */
  lemma SuccessIsPages(request: Request, readQuery: QueryReader, parseDate: DateParser, parseInt: IntParser,
                       source: PageSource)
    requires Handle(request, readQuery, parseDate, parseInt, source).Success?
    ensures !IsNullOrWhiteSpace(request.apiKey) && !IsNullOrWhiteSpace(Some(request.body))
    ensures readQuery(request.body).QueryText? && TryParseStartDateTime(readQuery(request.body).text, parseDate).0
    ensures var req := Prepare(request, readQuery, parseDate, parseInt).value;
            Handle(request, readQuery, parseDate, parseInt, source).records
            == RecordsOf(source, Requests(source, req, parseDate), parseDate)
  {
    var req := Prepare(request, readQuery, parseDate, parseInt).value;
    CompletedConcatenates(source, req, parseDate);
  }

  /** With a source that honours the window's start, every request is answered: 400, 200 or
      an exception, never an unfinished loop. */
  lemma HonestSourceAnswers(request: Request, readQuery: QueryReader, parseDate: DateParser, parseInt: IntParser,
                            source: PageSource)
    requires HonestSource(source, parseDate)
    ensures !Handle(request, readQuery, parseDate, parseInt, source).Unfinished?
  {
    if Prepare(request, readQuery, parseDate, parseInt).Ok? {
      HonestSourceNeverStalls(source, Prepare(request, readQuery, parseDate, parseInt).value, parseDate);
    }
  }
}
