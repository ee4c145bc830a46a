/** The proleptic Gregorian calendar of .NET's `DateTime`: an instant is a count of
    100-nanosecond ticks since 0001-01-01T00:00:00, up to the last tick of 9999-12-31. */
module Calendar {
  const TicksPerMillisecond := 10_000
  const TicksPerSecond := 10_000_000
  const TicksPerMinute := 600_000_000
  const TicksPerHour := 36_000_000_000
  const TicksPerDay := 864_000_000_000
  /** Days from 0001-01-01 to 10000-01-01. */
  const DaysTo10000 := 3_652_059
  /** `DateTime.MaxValue.Ticks`, that is DaysTo10000 * TicksPerDay - 1. */
  const MaxTicks := 3_155_378_975_999_999_999

  /** A `DateTime` value; `DateTime.MinValue` is 0 and `DateTime.MaxValue` is MaxTicks. */
  type Ticks = t: int | 0 <= t <= MaxTicks

  predicate IsLeapYear(y: int) { y % 4 == 0 && (y % 100 != 0 || y % 400 == 0) }

  function DaysInYear(y: int): int { if IsLeapYear(y) then 366 else 365 }

  function DaysInMonth(y: int, m: int): (n: int)
    requires 1 <= m <= 12
    ensures 28 <= n <= 31
  {
    if m == 2 then (if IsLeapYear(y) then 29 else 28)
    else if m == 4 || m == 6 || m == 9 || m == 11 then 30
    else 31
  }

  /** Days of a common year before month m (m = 13 gives the whole year). */
  const CommonDaysBefore: seq<int> := [0, 31, 59, 90, 120, 151, 181, 212, 243, 273, 304, 334, 365]

  function DaysBeforeMonth(y: int, m: int): int
    requires 1 <= m <= 13
  {
    CommonDaysBefore[m - 1] + (if IsLeapYear(y) && m > 2 then 1 else 0)
  }

  /** Days from 0001-01-01 to January 1st of year y, in .NET's closed form. */
  function DaysBeforeYear(y: int): int
    requires 1 <= y <= 10000
  {
    var p := y - 1;
    p * 365 + p / 4 - p / 100 + p / 400
  }

  lemma DaysBeforeMonthStep(y: int, m: int)
    requires 1 <= m <= 12
    ensures DaysBeforeMonth(y, m + 1) == DaysBeforeMonth(y, m) + DaysInMonth(y, m)
    ensures DaysBeforeMonth(y, 13) == DaysInYear(y)
  {
  }

  /** The closed form counts one year at a time: 365 days, 366 in a leap year. */
  lemma DaysBeforeYearStep(y: int)
    requires 1 <= y <= 9999
    ensures DaysBeforeYear(y + 1) == DaysBeforeYear(y) + DaysInYear(y)
  {
    var p := y - 1;
    assert (p + 1) / 4 - p / 4 == if y % 4 == 0 then 1 else 0;
    assert (p + 1) / 100 - p / 100 == if y % 100 == 0 then 1 else 0;
    assert (p + 1) / 400 - p / 400 == if y % 400 == 0 then 1 else 0;
  }

  lemma {:induction false} DaysBeforeYearMonotone(a: int, b: int)
    requires 1 <= a <= b <= 10000
    ensures DaysBeforeYear(a) + 365 * (b - a) <= DaysBeforeYear(b)
    decreases b - a
  {
    if a < b {
      DaysBeforeYearStep(a);
      DaysBeforeYearMonotone(a + 1, b);
    }
  }

  /** The calendar fields of an instant; `fraction` is the ticks within the second. */
  datatype Fields = Fields(year: int, month: int, day: int, hour: int, minute: int, second: int, fraction: int)

  /** The ranges `DateTime`'s constructor accepts, with days per month from the Gregorian leap rule. */
  predicate ValidFields(f: Fields)
  {
    && 1 <= f.year <= 9999
    && 1 <= f.month <= 12
    && 1 <= f.day <= DaysInMonth(f.year, f.month)
    && 0 <= f.hour < 24
    && 0 <= f.minute < 60
    && 0 <= f.second < 60
    && 0 <= f.fraction < TicksPerSecond
  }

  function DayNumber(f: Fields): int
    requires ValidFields(f)
  {
    DaysBeforeYear(f.year) + DaysBeforeMonth(f.year, f.month) + f.day - 1
  }

  function TimeOfDay(f: Fields): int
  {
    f.hour * TicksPerHour + f.minute * TicksPerMinute + f.second * TicksPerSecond + f.fraction
  }

  /** The instant named by valid calendar fields (.NET's DateToTicks + TimeToTicks). */
  function ToTicks(f: Fields): (t: Ticks)
    requires ValidFields(f)
    ensures t / TicksPerDay == DayNumber(f) && t % TicksPerDay == TimeOfDay(f)
  {
    DayNumberBound(f);
    TimeOfDayBound(f);
    DayNumber(f) * TicksPerDay + TimeOfDay(f)
  }

  lemma DayNumberBound(f: Fields)
    requires ValidFields(f)
    ensures 0 <= DayNumber(f) < DaysTo10000
  {
    DaysBeforeMonthStep(f.year, f.month);
    DaysBeforeYearStep(f.year);
    DaysBeforeYearMonotone(f.year + 1, 10000);
  }

  lemma TimeOfDayBound(f: Fields)
    requires ValidFields(f)
    ensures 0 <= TimeOfDay(f) < TicksPerDay
  {
  }

  /** The year containing day n (counted from 0001-01-01), searched upwards from year y. */
  function YearContaining(n: int, y: int): (r: int)
    requires 1 <= y <= 9999 && DaysBeforeYear(y) <= n < DaysTo10000
    ensures y <= r <= 9999 && DaysBeforeYear(r) <= n < DaysBeforeYear(r + 1)
    decreases 10000 - y
  {
    if n < DaysBeforeYear(y + 1) then y else YearContaining(n, y + 1)
  }

  /** The month containing day d of year y (counted from 0), searched upwards from month m. */
  function MonthContaining(y: int, d: int, m: int): (r: int)
    requires 1 <= m <= 12 && DaysBeforeMonth(y, m) <= d < DaysInYear(y)
    ensures m <= r <= 12 && DaysBeforeMonth(y, r) <= d < DaysBeforeMonth(y, r + 1)
    decreases 12 - m
  {
    if d < DaysBeforeMonth(y, m + 1) then m else MonthContaining(y, d, m + 1)
  }

  /** The calendar fields of an instant (.NET's GetDatePart and the time-of-day divisions). */
  function FromTicks(t: Ticks): (f: Fields)
    ensures ValidFields(f) && ToTicks(f) == t
  {
    var days := t / TicksPerDay;
    var tod := t % TicksPerDay;
    var y := YearContaining(days, 1);
    DaysBeforeYearStep(y);
    var doy := days - DaysBeforeYear(y);
    var m := MonthContaining(y, doy, 1);
    DaysBeforeMonthStep(y, m);
    var h := tod / TicksPerHour;
    var r1 := tod % TicksPerHour;
    var r2 := r1 % TicksPerMinute;
    Fields(y, m, doy - DaysBeforeMonth(y, m) + 1, h, r1 / TicksPerMinute, r2 / TicksPerSecond, r2 % TicksPerSecond)
  }

  lemma YearUnique(n: int, a: int, b: int)
    requires 1 <= a <= 9999 && 1 <= b <= 9999
    requires DaysBeforeYear(a) <= n < DaysBeforeYear(a + 1)
    requires DaysBeforeYear(b) <= n < DaysBeforeYear(b + 1)
    ensures a == b
  {
    if a < b { DaysBeforeYearMonotone(a + 1, b); }
    if b < a { DaysBeforeYearMonotone(b + 1, a); }
  }

  lemma MonthUnique(y: int, d: int, a: int, b: int)
    requires 1 <= a <= 12 && 1 <= b <= 12
    requires DaysBeforeMonth(y, a) <= d < DaysBeforeMonth(y, a + 1)
    requires DaysBeforeMonth(y, b) <= d < DaysBeforeMonth(y, b + 1)
    ensures a == b
  {
  }

  /** Distinct valid dates have distinct day numbers. */
  lemma DayNumberInjective(f: Fields, g: Fields)
    requires ValidFields(f) && ValidFields(g) && DayNumber(f) == DayNumber(g)
    ensures f.year == g.year && f.month == g.month && f.day == g.day
  {
    var n := DayNumber(f);
    DaysBeforeMonthStep(f.year, f.month);
    DaysBeforeYearStep(f.year);
    DaysBeforeMonthStep(g.year, g.month);
    DaysBeforeYearStep(g.year);
    YearUnique(n, f.year, g.year);
    MonthUnique(f.year, n - DaysBeforeYear(f.year), f.month, g.month);
  }

  /** Distinct valid times of day have distinct tick counts. */
  lemma TimeOfDayInjective(f: Fields, g: Fields)
    requires ValidFields(f) && ValidFields(g) && TimeOfDay(f) == TimeOfDay(g)
    ensures f.hour == g.hour && f.minute == g.minute && f.second == g.second && f.fraction == g.fraction
  {
  }

  /** Distinct valid fields name distinct instants: reading the fields back gives them unchanged. */
  lemma FromTicksToTicks(f: Fields)
    requires ValidFields(f)
    ensures FromTicks(ToTicks(f)) == f
  {
    var g := FromTicks(ToTicks(f));
    DayNumberInjective(f, g);
    TimeOfDayInjective(f, g);
  }
}
