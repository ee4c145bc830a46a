/** The pagination loop of `Run`: query the window [from, to) ordered by timestamp, at most
    `batchSize` rows at a time, append each page's records, and move `from` just past the
    first column of the last row of every full page. */
module Pagination {
  import opened Wrappers
  import opened Calendar
  import opened Json
  import opened Faults
  import opened StartBound
  import opened Window
  import opened Records

  /** One query result: the column descriptors and the rows of the first table. */
  datatype Page = Page(columns: seq<JsonValue>, rows: seq<JsonValue>)

  /** What one paginated query is built from: the caller's query, the window and the row
      limit (`{query} | where timestamp >= from and timestamp < to | order by timestamp asc
      | take batchSize`). */
  datatype PageRequest = PageRequest(query: string, from: Ticks, to: Ticks, batchSize: int)

  /** `GetAppInsightsResponse` for the request's application and key: the page, or None
      where it returns null. */
  type PageSource = PageRequest -> Option<Page>

  /** `rows.Last()[0]?.ToString() ?? ""`: the text of a cursor cell, empty for null. */
  function CursorText(cell: JsonValue): (s: string)
    ensures cell.JString? ==> s == cell.s
    ensures cell.JNull? ==> s == ""
  {
    if cell.JNull? then "" else NodeText(cell)
  }

  /** Line 71: the first column of the last row, parsed, plus one millisecond; or the
      exception that expression throws. */
  function CursorAfter(rows: seq<JsonValue>, parseDate: DateParser): Result<Ticks, Fault>
    requires |rows| > 0
  {
    var last := |rows| - 1;
    match rows[last]
    case JNull => Err(CursorRowNull)
    case JArray(items) =>
      if |items| == 0 then Err(RowTooShort(last, 0))
      else
        (match parseDate(CursorText(items[0]))
         case None => Err(CursorUnparsable)
         case Some(t) => Shift(t, TicksPerMillisecond))
    case _ => Err(RowNotArray(last))
  }

  /** What one turn of the loop does with the page it fetched. */
  datatype Step =
    | Done(records: seq<Record>)                  // the loop breaks after these records
    | Fail(fault: Fault)                          // an exception ends the request
    | Next(records: seq<Record>, cursor: Ticks)   // a full page: query again from the cursor

  /** One turn: stop on a missing, column-less or row-less page; otherwise normalise the
      page, stop after a short page, and else read the cursor. */
  function PageStep(source: PageSource, req: PageRequest, parseDate: DateParser): Step
  {
    match source(req)
    case None => Done([])
    case Some(page) =>
      if |page.columns| == 0 || |page.rows| == 0 then Done([])
      else
        match Normalize(page.columns, page.rows)
        case Err(e) => Fail(e)
        case Ok(records) =>
          if |page.rows| < req.batchSize then Done(records)
          else
            match CursorAfter(page.rows, parseDate)
            case Err(e) => Fail(e)
            case Ok(c) => Next(records, c)
  }

  /** How the loop ends. The loop re-queries from a cursor that is not past `from`; the model
      stops there instead, as `Stalled`, with the records gathered so far. */
  datatype Outcome =
    | Completed(records: seq<Record>)
    | Failed(fault: Fault)
    | Stalled(records: seq<Record>, cursor: Ticks)

  function Prepend(records: seq<Record>, o: Outcome): (r: Outcome)
    ensures r.Completed? <==> o.Completed?
    ensures r.Failed? <==> o.Failed?
  {
    match o
    case Completed(rest) => Completed(records + rest)
    case Failed(e) => Failed(e)
    case Stalled(rest, c) => Stalled(records + rest, c)
  }

  lemma PrependPrepend(a: seq<Record>, b: seq<Record>, o: Outcome)
    ensures Prepend(a, Prepend(b, o)) == Prepend(a + b, o)
  {
    match o
    case Completed(rest) => assert a + (b + rest) == (a + b) + rest;
    case Failed(e) =>
    case Stalled(rest, c) => assert a + (b + rest) == (a + b) + rest;
  }

  /** The whole loop, starting with request `req`. */
  function Collect(source: PageSource, req: PageRequest, parseDate: DateParser): (outcome: Outcome)
    decreases MaxTicks - req.from
  {
    match PageStep(source, req, parseDate)
    case Done(records) => Completed(records)
    case Fail(e) => Failed(e)
    case Next(records, c) =>
      if c <= req.from then Stalled(records, c)
      else Prepend(records, Collect(source, req.(from := c), parseDate))
  }

  /** The requests the loop sends, in order. */
  function Requests(source: PageSource, req: PageRequest, parseDate: DateParser): (rs: seq<PageRequest>)
    ensures |rs| >= 1 && rs[0] == req
    decreases MaxTicks - req.from
  {
    match PageStep(source, req, parseDate)
    case Next(_, c) => if c <= req.from then [req] else [req] + Requests(source, req.(from := c), parseDate)
    case _ => [req]
  }

  /** Lines 56-73 of `Run`. */
  method Paginate(source: PageSource, req0: PageRequest, parseDate: DateParser) returns (outcome: Outcome)
    ensures outcome == Collect(source, req0, parseDate)
  {
    var records: seq<Record> := [];
    var req := req0;
    while true
      invariant req == req0.(from := req.from)
      invariant Prepend(records, Collect(source, req, parseDate)) == Collect(source, req0, parseDate)
      decreases MaxTicks - req.from
    {
      var response := source(req);
      if response.None? || |response.value.columns| == 0 || |response.value.rows| == 0 {
        EmptyPageStops(source, req, parseDate);
        assert records + [] == records;
        break;
      }
      var page := response.value;
      var normalized := GetRecords(page.columns, page.rows);
      if normalized.Err? {
        PageFaultFails(source, req, parseDate, page);
        return Failed(normalized.error);
      }
      ghost var earlier := records;
      records := records + normalized.value;
      if |page.rows| < req.batchSize {
        ShortPageStops(source, req, parseDate, page);
        break;
      }
      var cursor := CursorAfter(page.rows, parseDate);
      if cursor.Err? {
        CursorFaultFails(source, req, parseDate, page);
        return Failed(cursor.error);
      }
      if cursor.value <= req.from {
        CursorBehindStalls(source, req, parseDate, page);
        return Stalled(records, cursor.value);
      }
      FullPageAdvances(source, req, parseDate, page);
      PrependPrepend(earlier, normalized.value, Collect(source, req.(from := cursor.value), parseDate));
      req := req.(from := cursor.value);
    }
    return Completed(records);
  }

  /** A page the loop goes on to normalise: present, with columns and rows. */
  predicate Fetched(source: PageSource, req: PageRequest, page: Page)
  {
    source(req) == Some(page) && |page.columns| > 0 && |page.rows| > 0
  }

  /** The loop stops, with no records from this turn, when the source returns no page, a
      page without columns or a page without rows. */
  lemma EmptyPageStops(source: PageSource, req: PageRequest, parseDate: DateParser)
    requires source(req).None? || |source(req).value.columns| == 0 || |source(req).value.rows| == 0
    ensures Collect(source, req, parseDate) == Completed([])
    ensures Requests(source, req, parseDate) == [req]
  {
  }

  /** A page whose records cannot be built ends the request with that exception. */
  lemma PageFaultFails(source: PageSource, req: PageRequest, parseDate: DateParser, page: Page)
    requires Fetched(source, req, page) && Normalize(page.columns, page.rows).Err?
    ensures Collect(source, req, parseDate) == Failed(Normalize(page.columns, page.rows).error)
    ensures Requests(source, req, parseDate) == [req]
  {
  }

  /** After a page with fewer rows than the batch size the loop stops with that page's records. */
  lemma ShortPageStops(source: PageSource, req: PageRequest, parseDate: DateParser, page: Page)
    requires Fetched(source, req, page) && Normalize(page.columns, page.rows).Ok?
    requires |page.rows| < req.batchSize
    ensures Collect(source, req, parseDate) == Completed(Normalize(page.columns, page.rows).value)
    ensures Requests(source, req, parseDate) == [req]
  {
  }

  /** A full page whose cursor cannot be read ends the request with that exception. */
  lemma CursorFaultFails(source: PageSource, req: PageRequest, parseDate: DateParser, page: Page)
    requires Fetched(source, req, page) && Normalize(page.columns, page.rows).Ok?
    requires |page.rows| >= req.batchSize && CursorAfter(page.rows, parseDate).Err?
    ensures Collect(source, req, parseDate) == Failed(CursorAfter(page.rows, parseDate).error)
    ensures Requests(source, req, parseDate) == [req]
  {
  }

  /** A full page whose cursor is not past the window's start: where the loop would query an
      earlier or the same window again, the model stops. */
  lemma CursorBehindStalls(source: PageSource, req: PageRequest, parseDate: DateParser, page: Page)
    requires Fetched(source, req, page) && Normalize(page.columns, page.rows).Ok?
    requires |page.rows| >= req.batchSize && CursorAfter(page.rows, parseDate).Ok?
    requires CursorAfter(page.rows, parseDate).value <= req.from
    ensures Collect(source, req, parseDate)
            == Stalled(Normalize(page.columns, page.rows).value, CursorAfter(page.rows, parseDate).value)
  {
  }

  /** After a full page the loop keeps the page's records and queries again with `from` moved
      to the cursor; the query, `to` and the batch size stay as they were. */
  lemma FullPageAdvances(source: PageSource, req: PageRequest, parseDate: DateParser, page: Page)
    requires Fetched(source, req, page) && Normalize(page.columns, page.rows).Ok?
    requires |page.rows| >= req.batchSize && CursorAfter(page.rows, parseDate).Ok?
    requires CursorAfter(page.rows, parseDate).value > req.from
    ensures var next := req.(from := CursorAfter(page.rows, parseDate).value);
            && Collect(source, req, parseDate) == Prepend(Normalize(page.columns, page.rows).value, Collect(source, next, parseDate))
            && Requests(source, req, parseDate) == [req] + Requests(source, next, parseDate)
  {
  }

  /** The batch size is not checked: when it is zero or less no page counts as short, so a
      page that yields records always goes on to the cursor. */
  lemma NonPositiveBatchNeverShort(source: PageSource, req: PageRequest, parseDate: DateParser, page: Page)
    requires Fetched(source, req, page) && req.batchSize <= 0
    ensures PageStep(source, req, parseDate).Next? || PageStep(source, req, parseDate).Fail?
    ensures Normalize(page.columns, page.rows).Ok? && CursorAfter(page.rows, parseDate).Ok? ==>
              PageStep(source, req, parseDate)
              == Next(Normalize(page.columns, page.rows).value, CursorAfter(page.rows, parseDate).value)
  {
  }

  /** The cursor is the instant in the first column of the last row plus one millisecond:
      it exists exactly when that row is an array with a first cell whose text parses to an
      instant at least a millisecond before `DateTime.MaxValue`. */
  lemma CursorSpec(rows: seq<JsonValue>, parseDate: DateParser, c: Ticks)
    requires |rows| > 0
    ensures CursorAfter(rows, parseDate) == Ok(c)
            <==> var last := rows[|rows| - 1];
                 && last.JArray? && |last.items| > 0
                 && parseDate(CursorText(last.items[0])).Some?
                 && c == parseDate(CursorText(last.items[0])).value + TicksPerMillisecond
  {
  }

  /** Once a page with columns has been normalised, reading its cursor can fail only on a
      null last row, on a first cell that does not parse, or past `DateTime.MaxValue`: the
      other row faults were raised by `GetRecords` already. */
  lemma CursorAfterRecords(columns: seq<JsonValue>, rows: seq<JsonValue>, parseDate: DateParser)
    requires |columns| > 0 && |rows| > 0 && Normalize(columns, rows).Ok?
    ensures CursorAfter(rows, parseDate).Err? ==>
              CursorAfter(rows, parseDate).error in {CursorRowNull, CursorUnparsable, TimeOutOfRange}
  {
    var keys := ColumnKeysOf(ColumnNames(columns).value);
    PageRecordsRows(CanonicalTimestamp, keys, rows);
    RowRecordSucceeds(CanonicalTimestamp, keys, rows[|rows| - 1], |rows| - 1);
  }

  /** Every request differs from the first only in `from`: the query, `to` and the batch
      size never change. */
  lemma {:induction false} RequestsKeepWindow(source: PageSource, req: PageRequest, parseDate: DateParser)
    ensures forall i :: 0 <= i < |Requests(source, req, parseDate)| ==>
              Requests(source, req, parseDate)[i] == req.(from := Requests(source, req, parseDate)[i].from)
    decreases MaxTicks - req.from
  {
    var step := PageStep(source, req, parseDate);
    if step.Next? && step.cursor > req.from {
      RequestsKeepWindow(source, req.(from := step.cursor), parseDate);
    }
  }

  /** Each request after the first starts at the cursor of the full page before it. */
  lemma {:induction false} RequestsFollowCursor(source: PageSource, req: PageRequest, parseDate: DateParser)
    ensures forall i :: 0 <= i < |Requests(source, req, parseDate)| - 1 ==>
              && PageStep(source, Requests(source, req, parseDate)[i], parseDate).Next?
              && PageStep(source, Requests(source, req, parseDate)[i], parseDate).cursor
                 == Requests(source, req, parseDate)[i + 1].from
    decreases MaxTicks - req.from
  {
    var step := PageStep(source, req, parseDate);
    if step.Next? && step.cursor > req.from {
      var next := req.(from := step.cursor);
      RequestsFollowCursor(source, next, parseDate);
      assert Requests(source, req, parseDate) == [req] + Requests(source, next, parseDate);
    }
  }

  /** Each request the model lists starts after the one before it. The list ends at a
      stall, so this says nothing of a source that makes the loop re-query. */
  lemma {:induction false} RequestsStepUp(source: PageSource, req: PageRequest, parseDate: DateParser)
    ensures forall i :: 0 <= i < |Requests(source, req, parseDate)| - 1 ==>
              Requests(source, req, parseDate)[i].from < Requests(source, req, parseDate)[i + 1].from
    decreases MaxTicks - req.from
  {
    var step := PageStep(source, req, parseDate);
    if step.Next? && step.cursor > req.from {
      var next := req.(from := step.cursor);
      RequestsStepUp(source, next, parseDate);
      assert Requests(source, req, parseDate) == [req] + Requests(source, next, parseDate);
    }
  }

  /** The `from` of the listed requests strictly increases: up to a stall, no window start
      is queried twice. */
  lemma RequestsAscend(source: PageSource, req: PageRequest, parseDate: DateParser)
    ensures forall i, j :: 0 <= i < j < |Requests(source, req, parseDate)| ==>
              Requests(source, req, parseDate)[i].from < Requests(source, req, parseDate)[j].from
  {
    RequestsStepUp(source, req, parseDate);
    StepsAscend(Requests(source, req, parseDate));
  }

  lemma StepsAscend(rs: seq<PageRequest>)
    requires forall i :: 0 <= i < |rs| - 1 ==> rs[i].from < rs[i + 1].from
    ensures forall i, j :: 0 <= i < j < |rs| ==> rs[i].from < rs[j].from
  {
    forall i, j | 0 <= i < j < |rs| ensures rs[i].from < rs[j].from {
      var k := i;
      while k < j
        invariant i <= k <= j && rs[i].from <= rs[k].from
        invariant k > i ==> rs[i].from < rs[k].from
      {
        k := k + 1;
      }
    }
  }

  /** The records one turn keeps. */
  function StepRecords(s: Step): seq<Record>
  {
    match s
    case Done(records) => records
    case Next(records, _) => records
    case Fail(_) => []
  }

  /** The records of the pages fetched for a sequence of requests, in request order. */
  function RecordsOf(source: PageSource, reqs: seq<PageRequest>, parseDate: DateParser): seq<Record>
  {
    if reqs == [] then [] else StepRecords(PageStep(source, reqs[0], parseDate)) + RecordsOf(source, reqs[1..], parseDate)
  }

  /** The records returned are the normalised pages concatenated in fetch order. */
  lemma {:induction false} CompletedConcatenates(source: PageSource, req: PageRequest, parseDate: DateParser)
    ensures Collect(source, req, parseDate).Completed? ==>
              Collect(source, req, parseDate).records == RecordsOf(source, Requests(source, req, parseDate), parseDate)
    decreases MaxTicks - req.from
  {
    var rs := Requests(source, req, parseDate);
    var step := PageStep(source, req, parseDate);
    if step.Next? && step.cursor > req.from {
      var next := req.(from := step.cursor);
      CompletedConcatenates(source, next, parseDate);
      assert rs[1..] == Requests(source, next, parseDate);
      if Collect(source, next, parseDate).Completed? {
        var tail := Collect(source, next, parseDate).records;
        assert step.records + tail == StepRecords(step) + RecordsOf(source, rs[1..], parseDate);
      }
    } else {
      assert rs == [req];
      assert RecordsOf(source, rs, parseDate) == StepRecords(step) + RecordsOf(source, [], parseDate);
    }
  }

  /** The first column of every row of a page holds an instant no earlier than `from`, as the
      `timestamp >= fromTime` filter promises when the first column is the timestamp. */
  predicate HonoursStart(page: Page, from: Ticks, parseDate: DateParser)
  {
    forall k :: 0 <= k < |page.rows| && page.rows[k].JArray? && |page.rows[k].items| > 0
                && parseDate(CursorText(page.rows[k].items[0])).Some? ==>
                  parseDate(CursorText(page.rows[k].items[0])).value >= from
  }

  ghost predicate HonestSource(source: PageSource, parseDate: DateParser)
  {
    forall req :: source(req).Some? ==> HonoursStart(source(req).value, req.from, parseDate)
  }

  /** With a source that honours the window's start, every cursor is past the `from` it was
      read under, so the loop never stalls: it completes or fails. */
  lemma {:induction false} HonestSourceNeverStalls(source: PageSource, req: PageRequest, parseDate: DateParser)
    requires HonestSource(source, parseDate)
    ensures !Collect(source, req, parseDate).Stalled?
    decreases MaxTicks - req.from
  {
    var step := PageStep(source, req, parseDate);
    if step.Next? {
      HonestPageAdvances(source, req, parseDate);
      HonestSourceNeverStalls(source, req.(from := step.cursor), parseDate);
    }
  }

  /** With a source that honours the window's start, the last listed request is the one where
      the loop breaks or throws: the list holds every request the loop sends. */
  lemma {:induction false} HonestRequestsEnd(source: PageSource, req: PageRequest, parseDate: DateParser)
    requires HonestSource(source, parseDate)
    ensures !PageStep(source, Requests(source, req, parseDate)[|Requests(source, req, parseDate)| - 1], parseDate).Next?
    decreases MaxTicks - req.from
  {
    var step := PageStep(source, req, parseDate);
    if step.Next? {
      HonestPageAdvances(source, req, parseDate);
      var next := req.(from := step.cursor);
      HonestRequestsEnd(source, next, parseDate);
      RequestsLastAfterStep(source, req, parseDate, next);
    }
  }

  /** After a full page that moves the cursor, the last request is that of the next window. */
  lemma RequestsLastAfterStep(source: PageSource, req: PageRequest, parseDate: DateParser, next: PageRequest)
    requires PageStep(source, req, parseDate).Next?
    requires next == req.(from := PageStep(source, req, parseDate).cursor) && next.from > req.from
    ensures Requests(source, req, parseDate)[|Requests(source, req, parseDate)| - 1]
            == Requests(source, next, parseDate)[|Requests(source, next, parseDate)| - 1]
  {
    var rest := Requests(source, next, parseDate);
    var rs := Requests(source, req, parseDate);
    assert rs == [req] + rest;
    assert rs[|rs| - 1] == rest[|rest| - 1];
  }

  /** A full page whose first column honours `from` moves the cursor past `from`. */
  lemma HonestPageAdvances(source: PageSource, req: PageRequest, parseDate: DateParser)
    requires source(req).Some? ==> HonoursStart(source(req).value, req.from, parseDate)
    requires PageStep(source, req, parseDate).Next?
    ensures PageStep(source, req, parseDate).cursor > req.from
  {
    var page := source(req).value;
    var last := |page.rows| - 1;
    assert page.rows[last].JArray? && |page.rows[last].items| > 0;
  }
}
