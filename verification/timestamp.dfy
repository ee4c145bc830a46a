/** The two timestamp helpers of the proxy: `ParseApplicationInsightsDateTime`, a
    `DateTime.ParseExact` over eight fixed UTC formats (whole seconds, then one to seven
    fractional digits), and `ToAirbyteIsoString`, which writes an instant with exactly six
    fractional digits and a trailing `Z`. */
module Timestamp {
  import opened Wrappers
  import opened Digits
  import opened Calendar

  /** The `Z` of a ParseExact format: .NET matches it against the time-zone names "Z" and
      "GMT", ignoring case, so "z", "GMT" and "gmt" are accepted as well as "Z". */
  predicate IsUtcDesignator(z: string)
  {
    || z == "Z" || z == "z"
    || (|z| == 3 && (z[0] == 'G' || z[0] == 'g') && (z[1] == 'M' || z[1] == 'm') && (z[2] == 'T' || z[2] == 't'))
  }

  /** Length of the UTC designator ending s, 0 when s ends with none. */
  function DesignatorLength(s: string): (n: nat)
    ensures n <= |s|
    ensures n > 0 ==> IsUtcDesignator(s[|s| - n..])
  {
    if |s| >= 1 && IsUtcDesignator(s[|s| - 1..]) then 1
    else if |s| >= 3 && IsUtcDesignator(s[|s| - 3..]) then 3
    else 0
  }

  /** `yyyy-MM-ddTHH:mm:ss`: 19 characters, ASCII digits around fixed separators. */
  predicate HeadShape(h: string)
  {
    && |h| == 19
    && AllDigits(h[0..4]) && h[4] == '-' && AllDigits(h[5..7]) && h[7] == '-' && AllDigits(h[8..10])
    && h[10] == 'T'
    && AllDigits(h[11..13]) && h[13] == ':' && AllDigits(h[14..16]) && h[16] == ':' && AllDigits(h[17..19])
  }

  /** Nothing, or `.` followed by one to seven ASCII digits (the `f` … `fffffff` formats). */
  predicate FractionShape(x: string)
  {
    x == [] || (x[0] == '.' && 1 <= |x| - 1 <= 7 && AllDigits(x[1..]))
  }

  /** The fractional digits padded on the right to seven places (ten-millionths of a second). */
  function SevenDigits(x: string): (d: string)
    requires FractionShape(x)
    ensures |d| == 7 && AllDigits(d)
  {
    (if x == [] then [] else x[1..]) + Zeros(7 - (if x == [] then 0 else |x| - 1))
  }

  /** The fractional digits as ticks: `.5` is 5_000_000 ticks, `.1234567` is 1_234_567. */
  function FractionTicks(x: string): (t: int)
    requires FractionShape(x)
    ensures 0 <= t < TicksPerSecond
  {
    ValueOf(SevenDigits(x))
  }

  function HeadFields(h: string, fraction: int): Fields
    requires HeadShape(h)
  {
    Fields(ValueOf(h[0..4]), ValueOf(h[5..7]), ValueOf(h[8..10]),
           ValueOf(h[11..13]), ValueOf(h[14..16]), ValueOf(h[17..19]), fraction)
  }

  /** A string the eight formats can read: head, fraction part, UTC designator. */
  predicate Accepted(head: string, fraction: string, zone: string)
  {
    HeadShape(head) && FractionShape(fraction) && IsUtcDesignator(zone)
    && ValidFields(HeadFields(head, FractionTicks(fraction)))
  }

  /** `ParseApplicationInsightsDateTime`: None where `ParseExact` throws. The formats differ
      only in the number of fractional digits, so at most one of them can match. */
  function ParseApplicationInsightsDateTime(s: string): (r: Option<Ticks>)
    ensures r.Some? ==> 20 <= |s| <= 30 && HeadShape(s[..19])
  {
    var z := DesignatorLength(s);
    if z == 0 || |s| < 19 + z then None
    else
      var head := s[..19];
      var fraction := s[19..|s| - z];
      if Accepted(head, fraction, s[|s| - z..])
      then Some(ToTicks(HeadFields(head, FractionTicks(fraction))))
      else None
  }

  /** Every string of the accepted shape with valid calendar fields parses, to the instant its
      fields name. */
  lemma ParseAccepts(head: string, fraction: string, zone: string)
    requires Accepted(head, fraction, zone)
    ensures ParseApplicationInsightsDateTime(head + fraction + zone)
            == Some(ToTicks(HeadFields(head, FractionTicks(fraction))))
  {
    var s := head + fraction + zone;
    assert s[|s| - |zone|..] == zone;
    if zone == "Z" || zone == "z" {
      assert DesignatorLength(s) == 1;
    } else {
      assert !IsUtcDesignator(s[|s| - 1..]);
      assert DesignatorLength(s) == 3;
    }
    assert s[..19] == head;
    assert s[19..|s| - |zone|] == fraction;
  }

  /** Only strings of the accepted shape with valid calendar fields parse. */
  lemma ParseOnlyAccepts(s: string)
    requires ParseApplicationInsightsDateTime(s).Some?
    ensures exists head, fraction, zone :: s == head + fraction + zone && Accepted(head, fraction, zone)
  {
    var z := DesignatorLength(s);
    assert Accepted(s[..19], s[19..|s| - z], s[|s| - z..]);
    ThreeParts(s, 19, |s| - z);
  }

  lemma ThreeParts(s: string, i: nat, j: nat)
    requires i <= j <= |s|
    ensures s == s[..i] + s[i..j] + s[j..]
  {
  }

  /** `yyyy-MM-ddTHH:mm:ss` of a valid set of fields. */
  function WriteHead(f: Fields): (h: string)
    requires ValidFields(f)
    ensures HeadShape(h)
  {
    HeadJoinShape(Padded(f.year, 4), Padded(f.month, 2), Padded(f.day, 2),
                  Padded(f.hour, 2), Padded(f.minute, 2), Padded(f.second, 2));
    HeadJoin(Padded(f.year, 4), Padded(f.month, 2), Padded(f.day, 2),
             Padded(f.hour, 2), Padded(f.minute, 2), Padded(f.second, 2))
  }

  /** The six date and time parts with their separators. */
  function HeadJoin(year: string, month: string, day: string, hour: string, minute: string, second: string): string
  {
    year + "-" + month + "-" + day + "T" + hour + ":" + minute + ":" + second
  }

  /** Joined digit parts of the right widths have the head shape, and sit at fixed places. */
  lemma HeadJoinShape(year: string, month: string, day: string, hour: string, minute: string, second: string)
    requires |year| == 4 && |month| == 2 && |day| == 2 && |hour| == 2 && |minute| == 2 && |second| == 2
    requires AllDigits(year) && AllDigits(month) && AllDigits(day)
    requires AllDigits(hour) && AllDigits(minute) && AllDigits(second)
    ensures var h := HeadJoin(year, month, day, hour, minute, second);
            HeadShape(h) && h[0..4] == year && h[5..7] == month && h[8..10] == day
            && h[11..13] == hour && h[14..16] == minute && h[17..19] == second
  {
    var h := HeadJoin(year, month, day, hour, minute, second);
    assert h[0..4] == year && h[5..7] == month && h[8..10] == day;
    assert h[11..13] == hour && h[14..16] == minute && h[17..19] == second;
  }

  /** A head is the join of its parts. */
  lemma HeadSplit(h: string)
    requires HeadShape(h)
    ensures h == HeadJoin(h[0..4], h[5..7], h[8..10], h[11..13], h[14..16], h[17..19])
  {
  }

  /** `ToAirbyteIsoString`: the instant in `yyyy-MM-ddTHH:mm:ss.ffffff` followed by `Z`; the
      six digits truncate the seventh fractional digit rather than rounding it. */
  function ToAirbyteIsoString(t: Ticks): (s: string)
    ensures |s| == 27 && HeadShape(s[..19]) && s[19] == '.' && AllDigits(s[20..26]) && s[26] == 'Z'
  {
    var f := FromTicks(t);
    RenderShape(WriteHead(f), MicroDigits(f));
    WriteHead(f) + ("." + MicroDigits(f)) + "Z"
  }

  /** The `ffffff` digits of valid fields: the whole microseconds of the fraction, the
      seventh fractional digit dropped. */
  function MicroDigits(f: Fields): (d: string)
    requires ValidFields(f)
    ensures |d| == 6 && AllDigits(d)
  {
    Padded(f.fraction / 10, 6)
  }

  lemma RenderShape(h: string, d: string)
    requires HeadShape(h) && |d| == 6 && AllDigits(d)
    ensures var s := h + ("." + d) + "Z";
            |s| == 27 && HeadShape(s[..19]) && s[19] == '.' && AllDigits(s[20..26]) && s[26] == 'Z'
  {
    var s := h + ("." + d) + "Z";
    assert s[..19] == h && s[20..26] == d;
  }

  lemma ReadWrittenHead(f: Fields, fraction: int)
    requires ValidFields(f)
    ensures HeadFields(WriteHead(f), fraction) == f.(fraction := fraction)
  {
    HeadJoinShape(Padded(f.year, 4), Padded(f.month, 2), Padded(f.day, 2),
                  Padded(f.hour, 2), Padded(f.minute, 2), Padded(f.second, 2));
    ValueOfPadded(f.year, 4);
    ValueOfPadded(f.month, 2);
    ValueOfPadded(f.day, 2);
    ValueOfPadded(f.hour, 2);
    ValueOfPadded(f.minute, 2);
    ValueOfPadded(f.second, 2);
  }

  lemma WriteReadHead(h: string, fraction: int)
    requires HeadShape(h) && ValidFields(HeadFields(h, fraction))
    ensures WriteHead(HeadFields(h, fraction)) == h
  {
    PaddedValueOf(h[0..4]);
    PaddedValueOf(h[5..7]);
    PaddedValueOf(h[8..10]);
    PaddedValueOf(h[11..13]);
    PaddedValueOf(h[14..16]);
    PaddedValueOf(h[17..19]);
    HeadSplit(h);
  }

  /** An instant truncated to whole microseconds: the tick digit the `ffffff` format drops. */
  function WholeMicros(t: Ticks): (u: Ticks)
    ensures u <= t < u + 10 && u % 10 == 0
  {
    t - t % 10
  }

  /** Re-parsing the six-digit form (the `ffffff` format) gives back the instant truncated to
      whole microseconds. */
  lemma RenderThenParse(t: Ticks)
    ensures ParseApplicationInsightsDateTime(ToAirbyteIsoString(t)) == Some(WholeMicros(t))
  {
    RenderedParts(t);
    RenderedAccepted(t);
    ParseAcceptsAt(ToAirbyteIsoString(t), WriteHead(FromTicks(t)), "." + MicroDigits(FromTicks(t)), "Z", WholeMicros(t));
  }

  lemma ParseAcceptsAt(s: string, head: string, fraction: string, zone: string, u: Ticks)
    requires s == head + fraction + zone && Accepted(head, fraction, zone)
    requires ToTicks(HeadFields(head, FractionTicks(fraction))) == u
    ensures ParseApplicationInsightsDateTime(s) == Some(u)
  {
    ParseAccepts(head, fraction, zone);
  }

  /** The rendered form is one the parser accepts, and its fields name the truncated instant. */
  lemma RenderedAccepted(t: Ticks)
    ensures Accepted(WriteHead(FromTicks(t)), "." + MicroDigits(FromTicks(t)), "Z")
    ensures ToTicks(HeadFields(WriteHead(FromTicks(t)), FractionTicks("." + MicroDigits(FromTicks(t)))))
            == WholeMicros(t)
  {
    var f := FromTicks(t);
    var micros := f.fraction / 10;
    SixDigitFraction(micros);
    ReadWrittenHead(f, micros * 10);
    TruncateFraction(f);
  }

  lemma RenderedParts(t: Ticks)
    ensures ToAirbyteIsoString(t) == WriteHead(FromTicks(t)) + ("." + MicroDigits(FromTicks(t))) + "Z"
  {
  }

  /** The fraction `ToAirbyteIsoString` writes reads back as the whole microseconds it names. */
  lemma SixDigitFraction(micros: nat)
    requires micros < Pow10(6)
    ensures FractionShape("." + Padded(micros, 6))
    ensures FractionTicks("." + Padded(micros, 6)) == micros * 10
  {
    var fraction := "." + Padded(micros, 6);
    assert fraction[1..] == Padded(micros, 6);
    assert SevenDigits(fraction) == Padded(micros, 6) + "0";
    PaddedShift(micros, 6);
    ValueOfPadded(10 * micros, 7);
  }

  /** Dropping the last digit of the fraction moves the instant back to a multiple of 10 ticks. */
  lemma TruncateFraction(f: Fields)
    requires ValidFields(f)
    ensures ValidFields(f.(fraction := f.fraction / 10 * 10))
    ensures ToTicks(f.(fraction := f.fraction / 10 * 10)) == ToTicks(f) - ToTicks(f) % 10
  {
    var g := f.(fraction := f.fraction / 10 * 10);
    var r := f.fraction % 10;
    assert f.fraction == f.fraction / 10 * 10 + r;
    var k := DayNumber(f) * 86_400_000_000 + f.hour * 3_600_000_000
             + f.minute * 60_000_000 + f.second * 1_000_000 + f.fraction / 10;
    assert ToTicks(g) == DayNumber(g) * TicksPerDay + TimeOfDay(g);
    assert ToTicks(g) == 10 * k;
    assert ToTicks(f) == 10 * k + r;
    MultipleOfTen(k, r);
  }

  lemma MultipleOfTen(k: int, r: int)
    requires 0 <= r < 10
    ensures (10 * k + r) % 10 == r
  {
  }

  /** The six fractional digits `ToAirbyteIsoString` writes for a parsed fraction: the digits
      read, padded on the right with zeros, a seventh digit dropped. */
  function SixDigits(fraction: string): (d: string)
    requires FractionShape(fraction)
    ensures |d| == 6 && AllDigits(d)
  {
    SevenDigits(fraction)[..6]
  }

  function Zeros(j: nat): (z: string)
    ensures |z| == j && AllDigits(z)
  {
    seq(j, _ => '0')
  }

  lemma FractionDigits(fraction: string)
    requires FractionShape(fraction)
    ensures Padded(FractionTicks(fraction) / 10, 6) == SixDigits(fraction)
  {
    var d := SevenDigits(fraction);
    PaddedValueOf(d);
    assert Padded(ValueOf(d), 7)[..6] == Padded(ValueOf(d) / 10, 6);
  }

  /** Parsing then rendering canonicalises: the date and time digits are kept as written, the
      fraction becomes exactly six digits and the designator becomes `Z`. */
  lemma ParseThenRender(head: string, fraction: string, zone: string)
    requires Accepted(head, fraction, zone)
    ensures ParseApplicationInsightsDateTime(head + fraction + zone).Some?
    ensures ToAirbyteIsoString(ParseApplicationInsightsDateTime(head + fraction + zone).value)
            == head + "." + SixDigits(fraction) + "Z"
  {
    ParseAccepts(head, fraction, zone);
    var g := HeadFields(head, FractionTicks(fraction));
    FromTicksToTicks(g);
    WriteReadHead(head, FractionTicks(fraction));
    FractionDigits(fraction);
  }

  /** Rendering keeps whole microseconds only, so the dropped tick digit does not show. */
  lemma RenderTruncated(t: Ticks, u: Ticks)
    requires u == WholeMicros(t)
    ensures ToAirbyteIsoString(u) == ToAirbyteIsoString(t)
  {
    var f := FromTicks(t);
    var g := f.(fraction := f.fraction / 10 * 10);
    TruncateFraction(f);
    FromTicksAt(u, g);
    RenderAt(t, f);
    RenderAt(u, g);
    assert WriteHead(g) == WriteHead(f);
    assert g.fraction / 10 == f.fraction / 10;
  }

  lemma RenderAt(u: Ticks, g: Fields)
    requires FromTicks(u) == g
    ensures ValidFields(g)
    ensures ToAirbyteIsoString(u) == WriteHead(g) + ("." + MicroDigits(g)) + "Z"
  {
    RenderedParts(u);
  }

  lemma FromTicksAt(u: Ticks, g: Fields)
    requires ValidFields(g) && ToTicks(g) == u
    ensures FromTicks(u) == g
  {
    FromTicksToTicks(g);
  }

  /** Rendering, re-parsing and rendering again gives the first rendering back. */
  lemma RenderParseRender(t: Ticks)
    ensures ParseApplicationInsightsDateTime(ToAirbyteIsoString(t)).Some?
    ensures ToAirbyteIsoString(ParseApplicationInsightsDateTime(ToAirbyteIsoString(t)).value) == ToAirbyteIsoString(t)
  {
    RenderThenParse(t);
    RenderTruncated(t, ParseApplicationInsightsDateTime(ToAirbyteIsoString(t)).value);
  }
}
