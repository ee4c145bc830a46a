/** The query window of a request: `fromTime` and `toTime` of `Run`, chosen from the
    `x-date-start` and `x-date-interval` headers or, failing those, from the query's own
    start bound and `DateTime.MaxValue`. */
module Window {
  import opened Wrappers
  import opened Calendar
  import opened Faults
  import opened StartBound

  /** A C# `int`. */
  type Int32 = i: int | -0x8000_0000 <= i < 0x8000_0000

  /** `int.TryParse` (culture-dependent): the number, or None where it returns false. */
  type IntParser = string -> Option<Int32>

  /** `DateTime.TryParse` / `int.TryParse` of a header read with `FirstOrDefault()`: an
      absent header is null, and parsing null fails. */
  function HeaderValue<T>(header: Option<string>, parse: string -> Option<T>): (r: Option<T>)
    ensures header.None? ==> r.None?
    ensures header.Some? ==> r == parse(header.value)
  {
    match header
    case None => None
    case Some(text) => parse(text)
  }

  /** `DateTime.AddMinutes` / `AddMilliseconds` by a whole number of units, given in ticks:
      the shifted instant, or the exception thrown when it leaves [MinValue, MaxValue]. */
  function Shift(t: Ticks, delta: int): (r: Result<Ticks, Fault>)
    ensures r.Ok? <==> 0 <= t + delta <= MaxTicks
    ensures r.Ok? ==> r.value - t == delta
    ensures r.Err? ==> r.error == TimeOutOfRange
  {
    if 0 <= t + delta <= MaxTicks then Ok(t + delta) else Err(TimeOutOfRange)
  }

  /** The half-open interval [from, to) every page query filters `timestamp` to. */
  datatype Window = Window(from: Ticks, to: Ticks)

  /** `fromTime`: the parsed `x-date-start` header, else the query's start bound. */
  function WindowStart(start: Ticks, startHeader: Option<string>, parseDate: DateParser): Ticks
  {
    match HeaderValue<Ticks>(startHeader, parseDate)
    case Some(t) => t
    case None => start
  }

  /** Lines 53-54 of `Run`: `fromTime` is the parsed `x-date-start` header, else the query's
      start bound; `toTime` is `fromTime` plus `x-date-interval` minutes when that header
      parses as an int, else `DateTime.MaxValue`. */
  function ResolveWindow(start: Ticks, startHeader: Option<string>, intervalHeader: Option<string>,
                         parseDate: DateParser, parseInt: IntParser): Result<Window, Fault>
  {
    var from := WindowStart(start, startHeader, parseDate);
    match HeaderValue<Int32>(intervalHeader, parseInt)
    case None => Ok(Window(from, MaxTicks))
    case Some(minutes) =>
      match Shift(from, minutes * TicksPerMinute)
      case Err(e) => Err(e)
      case Ok(to) => Ok(Window(from, to))
  }

  /** Without either header the window runs from the query's start bound to `DateTime.MaxValue`. */
  lemma NoHeadersWindow(start: Ticks, parseDate: DateParser, parseInt: IntParser)
    ensures ResolveWindow(start, None, None, parseDate, parseInt) == Ok(Window(start, MaxTicks))
  {
  }

  /** A parsable `x-date-start` header overrides the query's start bound, whatever it was. */
  lemma StartHeaderOverrides(start1: Ticks, start2: Ticks, startHeader: Option<string>, intervalHeader: Option<string>,
                             parseDate: DateParser, parseInt: IntParser)
    requires HeaderValue<Ticks>(startHeader, parseDate).Some?
    ensures ResolveWindow(start1, startHeader, intervalHeader, parseDate, parseInt)
            == ResolveWindow(start2, startHeader, intervalHeader, parseDate, parseInt)
    ensures ResolveWindow(start1, startHeader, intervalHeader, parseDate, parseInt).Ok? ==>
              ResolveWindow(start1, startHeader, intervalHeader, parseDate, parseInt).value.from
              == HeaderValue<Ticks>(startHeader, parseDate).value
  {
    match HeaderValue<Int32>(intervalHeader, parseInt)
    case None =>
    case Some(m) =>
  }

  /** Without a parsable `x-date-start` header the window starts at the query's start bound. */
  lemma QueryStartKept(start: Ticks, startHeader: Option<string>, intervalHeader: Option<string>,
                       parseDate: DateParser, parseInt: IntParser)
    requires HeaderValue<Ticks>(startHeader, parseDate).None?
    ensures ResolveWindow(start, startHeader, intervalHeader, parseDate, parseInt).Ok? ==>
              ResolveWindow(start, startHeader, intervalHeader, parseDate, parseInt).value.from == start
  {
    match HeaderValue<Int32>(intervalHeader, parseInt)
    case None =>
    case Some(m) =>
  }

  /** The end of the window: `DateTime.MaxValue` without a parsable interval; with an interval
      of m minutes, exactly m minutes after the start, and an exception when that instant is
      out of range. */
  lemma WindowEnd(start: Ticks, startHeader: Option<string>, intervalHeader: Option<string>,
                  parseDate: DateParser, parseInt: IntParser)
    ensures var w := ResolveWindow(start, startHeader, intervalHeader, parseDate, parseInt);
            match HeaderValue<Int32>(intervalHeader, parseInt)
            case None => w.Ok? && w.value.to == MaxTicks
            case Some(m) =>
              (w.Ok? ==> w.value.to - w.value.from == m * TicksPerMinute)
              && (w.Err? <==> !(0 <= WindowStart(start, startHeader, parseDate) + m * TicksPerMinute <= MaxTicks))
              && (w.Err? ==> w.error == TimeOutOfRange)
  {
    match HeaderValue<Int32>(intervalHeader, parseInt)
    case None =>
    case Some(m) =>
  }

  /** A non-negative interval gives a window that does not end before it starts. */
  lemma NonNegativeIntervalOrdered(start: Ticks, startHeader: Option<string>, intervalHeader: Option<string>,
                                   parseDate: DateParser, parseInt: IntParser)
    requires HeaderValue<Int32>(intervalHeader, parseInt).Some? ==> HeaderValue<Int32>(intervalHeader, parseInt).value >= 0
    ensures ResolveWindow(start, startHeader, intervalHeader, parseDate, parseInt).Ok? ==>
              ResolveWindow(start, startHeader, intervalHeader, parseDate, parseInt).value.from
              <= ResolveWindow(start, startHeader, intervalHeader, parseDate, parseInt).value.to
  {
    match HeaderValue<Int32>(intervalHeader, parseInt)
    case None =>
    case Some(m) =>
  }
}
