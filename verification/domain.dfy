/**
  Periods, periodic tasks, and the invocation point: the first calendar
  boundary of the period's unit strictly after a start instant, in the start
  instant's location.
 */
module Domain {
  import opened Wrappers
  import opened Calendar
  import opened GoTime
  import opened HttpErrors
  import Constants

  /** The four period units. */
  datatype Unit = Year | Month | Day | Hour

  /** The token that names a unit in a period string. */
  function Token(u: Unit): string {
    match u
    case Year => Constants.Year
    case Month => Constants.Month
    case Day => Constants.Day
    case Hour => Constants.Hour
  }

  /** The unit a period type names; only the four tokens name one. */
  function UnitOf(s: string): (r: Option<Unit>)
    ensures r.Some? <==> s in {Constants.Year, Constants.Month, Constants.Day, Constants.Hour}
    ensures r.Some? ==> Token(r.value) == s
  {
    if s == Constants.Year then Some(Year)
    else if s == Constants.Month then Some(Month)
    else if s == Constants.Day then Some(Day)
    else if s == Constants.Hour then Some(Hour)
    else None
  }

  /** A count and a unit. The type stays a string, as Go's `Period.PeriodType` is, so a bad one can reach the calculator. */
  datatype Period = Period(value: int, periodType: string)

  datatype PeriodicTask = PeriodicTask(period: Period, invocationPoint: Time, timezone: Location)

  /** `t` lies on a boundary of unit `u` in its own location. */
  predicate Aligned(u: Unit, t: Time) {
    var c := Fields(t);
    c.minute == 0 && c.second == 0 &&
    (u != Hour ==> c.hour == 0) &&
    ((u == Month || u == Year) ==> c.day == 1) &&
    (u == Year ==> c.month == 1)
  }

  /** `r` is the first instant on a boundary of `u` strictly after `start`, in `start`'s location. */
  ghost predicate IsNextBoundary(u: Unit, start: Time, r: Time) {
    r.loc == start.loc && Aligned(u, r) && start.unix < r.unix &&
    forall t: Time :: t.loc == start.loc && Aligned(u, t) && start.unix < t.unix ==> r.unix <= t.unix
  }

  /** The calculator's `time.Date` call for each unit: the next field value with everything smaller zeroed. */
  function NextBoundary(u: Unit, start: Time): (r: Time)
    ensures r.loc == start.loc
  {
    var c := Fields(start);
    match u
    case Year => Date(c.year + 1, 1, 1, 0, 0, 0, start.loc)
    case Month => Date(c.year, c.month + 1, 1, 0, 0, 0, start.loc)
    case Day => Date(c.year, c.month, c.day + 1, 0, 0, 0, start.loc)
    case Hour => Date(c.year, c.month, c.day, c.hour + 1, 0, 0, start.loc)
  }

  /**
    `getInvocationPoint`: the first boundary of the period's unit after `start`.
    The period's value plays no part; an unknown period type is an error.
   */
  function GetInvocationPoint(p: Period, start: Time): (r: Result<Time, Error>)
    ensures r.Failure? <==> UnitOf(p.periodType).None?
    ensures r.Failure? ==> r.error == InvalidPeriod
    ensures r.Success? ==> IsNextBoundary(UnitOf(p.periodType).value, start, r.value)
  {
    match UnitOf(p.periodType)
    case None => Failure(InvalidPeriod)
    case Some(u) =>
      NextBoundaryIsFirst(u, start);
      Success(NextBoundary(u, start))
  }

  /** `NewPeriodicTask`: the period and location kept as given, with the computed invocation point. */
  function NewPeriodicTask(period: Period, timezone: Location, start: Time): (r: Result<PeriodicTask, Error>)
    ensures r.Failure? <==> UnitOf(period.periodType).None?
    ensures r.Failure? ==> r.error == InvalidPeriod
    ensures r.Success? ==> r.value.period == period && r.value.timezone == timezone
    ensures r.Success? ==> IsNextBoundary(UnitOf(period.periodType).value, start, r.value.invocationPoint)
  {
    var point :- GetInvocationPoint(period, start);
    Success(PeriodicTask(period, point, timezone))
  }

  // ---------------------------------------------------------------------------
  // Alignment in terms of the wall clock

  lemma ModOfDayMod(x: int)
    ensures (x % SecondsPerDay) % SecondsPerHour == x % SecondsPerHour
  {
    var q := x / SecondsPerDay;
    assert x == q * SecondsPerDay + x % SecondsPerDay;
    assert q * SecondsPerDay == (24 * q) * SecondsPerHour;
  }

  /** On the hour exactly when the wall clock is a whole number of hours. */
  lemma AlignedHourIff(t: Time)
    ensures Aligned(Hour, t) <==> Local(t) % SecondsPerHour == 0
  {
    OnTheHour(Local(t));
  }

  /** The minute and second of the wall clock `x` are both zero exactly when `x` is a whole number of hours. */
  lemma OnTheHour(x: int)
    ensures (x % SecondsPerDay % SecondsPerHour / SecondsPerMinute == 0 && x % SecondsPerDay % SecondsPerMinute == 0)
            <==> x % SecondsPerHour == 0
  {
    ModOfDayMod(x);
    var r := x % SecondsPerHour;
    assert x % SecondsPerDay % SecondsPerMinute == r % SecondsPerMinute by {
      var q := x % SecondsPerDay / SecondsPerHour;
      assert x % SecondsPerDay == q * SecondsPerHour + r;
      assert q * SecondsPerHour == (q * 60) * SecondsPerMinute;
    }
  }

  /** At midnight exactly when the wall clock is a whole number of days. */
  lemma AlignedDayIff(t: Time)
    ensures Aligned(Day, t) <==> Local(t) % SecondsPerDay == 0
  {
    var sod := Local(t) % SecondsPerDay;
    ClockSplit(sod);
    assert Fields(t).hour == sod / SecondsPerHour;
    assert Fields(t).minute == sod % SecondsPerHour / SecondsPerMinute;
    assert Fields(t).second == sod % SecondsPerMinute;
  }

  /** On a month boundary, the wall clock is the start of the instant's month. */
  lemma AlignedMonthLocal(t: Time)
    requires Aligned(Month, t)
    ensures Local(t) == MonthStart(MonthIndex(Fields(t))) * SecondsPerDay
  {
    LocalOfFields(t);
  }

  /** Every instant's wall clock lies within its own month. */
  lemma LocalWithinMonth(t: Time)
    ensures var k := MonthIndex(Fields(t));
      MonthStart(k) * SecondsPerDay <= Local(t) < MonthStart(k + 1) * SecondsPerDay
  {
    var c := Fields(t);
    LocalOfFields(t);
    MonthBracket(MonthIndex(c), c.year, c.month, c.day, c.hour * SecondsPerHour + c.minute * SecondsPerMinute + c.second, Local(t));
  }

  /** A wall clock on day `day` of month `k` lies between the starts of months `k` and `k + 1`. */
  lemma MonthBracket(k: int, y: int, m: int, day: int, sod: int, x: int)
    requires 1 <= m <= 12 && k == 12 * y + (m - 1)
    requires 1 <= day <= DaysInMonth(y, m) && 0 <= sod < SecondsPerDay
    requires x == (MonthStart(k) + day - 1) * SecondsPerDay + sod
    ensures MonthStart(k) * SecondsPerDay <= x < MonthStart(k + 1) * SecondsPerDay
  {
    MonthStartStep(k);
    MonthIndexSplit(y, m);
    assert DaysInMonth(k / 12, k % 12 + 1) == DaysInMonth(y, m);
  }

  // ---------------------------------------------------------------------------
  // The calculator finds the first boundary

  /** For every unit, the calculator's result is the first boundary strictly after `start`. */
  lemma NextBoundaryIsFirst(u: Unit, start: Time)
    ensures IsNextBoundary(u, start, NextBoundary(u, start))
  {
    match u
    case Year => YearBoundaryIsFirst(start);
    case Month => MonthBoundaryIsFirst(start);
    case Day => DayBoundaryIsFirst(start);
    case Hour => HourBoundaryIsFirst(start);
  }

  /** The next hour boundary is the wall clock rounded down to the hour, plus one hour. */
  lemma HourBoundaryLocal(start: Time)
    ensures Local(NextBoundary(Hour, start)) == Local(start) - Local(start) % SecondsPerHour + SecondsPerHour
  {
    var c := Fields(start);
    LocalOfFields(start);
    MinuteSecondSplit(Local(start));
    assert c.minute * SecondsPerMinute + c.second == Local(start) % SecondsPerHour;
  }

  /** Minutes and seconds of the time of day make up the wall clock modulo an hour. */
  lemma MinuteSecondSplit(x: int)
    ensures var sod := x % SecondsPerDay;
      (sod % SecondsPerHour / SecondsPerMinute) * SecondsPerMinute + sod % SecondsPerMinute == x % SecondsPerHour
  {
    var sod := x % SecondsPerDay;
    ModOfDayMod(x);
    var w := sod % SecondsPerHour;
    var q := sod / SecondsPerHour;
    assert sod == q * SecondsPerHour + w;
    assert q * SecondsPerHour == (60 * q) * SecondsPerMinute;
    assert sod % SecondsPerMinute == w % SecondsPerMinute;
  }

  lemma HourBoundaryIsFirst(start: Time)
    ensures IsNextBoundary(Hour, start, NextBoundary(Hour, start))
  {
    HourBoundaryLocal(start);
    FirstHourAfter(start, NextBoundary(Hour, start));
  }

  /** The instant whose wall clock is `start`'s rounded up to the next whole hour is the next hour boundary. */
  lemma FirstHourAfter(start: Time, r: Time)
    requires r.loc == start.loc && Local(r) == Local(start) - Local(start) % SecondsPerHour + SecondsPerHour
    ensures IsNextBoundary(Hour, start, r)
  {
    RoundUp(Local(start), SecondsPerHour);
    AlignedHourIff(r);
    forall t: Time | t.loc == start.loc && Aligned(Hour, t) && start.unix < t.unix
      ensures r.unix <= t.unix
    {
      AlignedHourIff(t);
      RoundUpMultiple(Local(start), Local(t), SecondsPerHour);
    }
  }

  /** Rounding up past `x` to a multiple of `n` lands strictly above `x`, at most `n` above. */
  lemma RoundUp(x: int, n: int)
    requires n == SecondsPerHour || n == SecondsPerDay
    ensures (x - x % n + n) % n == 0
    ensures x < x - x % n + n <= x + n
  {
    var a := x / n;
    assert x - x % n + n == (a + 1) * n;
  }

  /** A multiple of `n` above `x` is at least `x` rounded down to a multiple of `n`, plus `n`. */
  lemma RoundUpMultiple(x: int, y: int, n: int)
    requires n == SecondsPerHour || n == SecondsPerDay
    requires x < y && y % n == 0
    ensures x - x % n + n <= y
  {
    var a, b := x / n, y / n;
    assert x - x % n == a * n;
    assert y == b * n;
    assert a < b;
  }

  /** The next day boundary is the wall clock rounded down to the day, plus one day. */
  lemma DayBoundaryLocal(start: Time)
    ensures Local(NextBoundary(Day, start)) == Local(start) - Local(start) % SecondsPerDay + SecondsPerDay
  {
    var c := Fields(start);
    LocalOfFields(start);
    ClockSplit(Local(start) % SecondsPerDay);
    assert c.hour * SecondsPerHour + c.minute * SecondsPerMinute + c.second == Local(start) % SecondsPerDay;
  }

  lemma DayBoundaryIsFirst(start: Time)
    ensures IsNextBoundary(Day, start, NextBoundary(Day, start))
  {
    DayBoundaryLocal(start);
    FirstDayAfter(start, NextBoundary(Day, start));
  }

  /** The instant whose wall clock is `start`'s rounded up to the next midnight is the next day boundary. */
  lemma FirstDayAfter(start: Time, r: Time)
    requires r.loc == start.loc && Local(r) == Local(start) - Local(start) % SecondsPerDay + SecondsPerDay
    ensures IsNextBoundary(Day, start, r)
  {
    RoundUp(Local(start), SecondsPerDay);
    AlignedDayIff(r);
    forall t: Time | t.loc == start.loc && Aligned(Day, t) && start.unix < t.unix
      ensures r.unix <= t.unix
    {
      AlignedDayIff(t);
      RoundUpMultiple(Local(start), Local(t), SecondsPerDay);
    }
  }

  /** The next month boundary is the start of the month after the start instant's month. */
  lemma MonthBoundaryLocal(start: Time)
    ensures Local(NextBoundary(Month, start)) == MonthStart(MonthIndex(Fields(start)) + 1) * SecondsPerDay
  {
    var c := Fields(start);
    assert 12 * c.year + (c.month + 1 - 1) == MonthIndex(c) + 1;
  }

  /** A month boundary after an instant is no earlier than the start of the instant's next month. */
  lemma MonthBoundaryAfter(start: Time, t: Time)
    requires t.loc == start.loc && Aligned(Month, t) && start.unix < t.unix
    ensures MonthStart(MonthIndex(Fields(start)) + 1) * SecondsPerDay <= Local(t)
  {
    AlignedMonthLocal(t);
    LocalWithinMonth(start);
    FirstMonthAfter(MonthIndex(Fields(start)), MonthIndex(Fields(t)), Local(start), Local(t));
  }

  /** The ordering argument behind the month boundary, on plain integers. */
  lemma FirstMonthAfter(k: int, j: int, x: int, z: int)
    requires MonthStart(k) * SecondsPerDay <= x && x < z && z == MonthStart(j) * SecondsPerDay
    ensures MonthStart(k + 1) * SecondsPerDay <= z
  {
    MonthStartOrder(k, j);
    MonthStartOrder(j, k + 1);
  }

  lemma MonthBoundaryIsFirst(start: Time)
    ensures IsNextBoundary(Month, start, NextBoundary(Month, start))
  {
    MonthBoundaryLater(start);
    MonthBoundaryAligned(start);
    forall t: Time | t.loc == start.loc && Aligned(Month, t) && start.unix < t.unix
      ensures NextBoundary(Month, start).unix <= t.unix
    {
      MonthBoundaryLocal(start);
      MonthBoundaryAfter(start, t);
    }
  }

  /** The next month boundary comes after the start instant. */
  lemma MonthBoundaryLater(start: Time)
    ensures start.unix < NextBoundary(Month, start).unix
  {
    MonthBoundaryLocal(start);
    LocalWithinMonth(start);
  }

  /** The next month boundary is on a month boundary. */
  lemma MonthBoundaryAligned(start: Time)
    ensures Aligned(Month, NextBoundary(Month, start))
  {
    MonthFirstAligned(Fields(start).year, Fields(start).month + 1, NextBoundary(Month, start), start.loc);
  }

  /** `time.Date` of the first of any month, after normalisation, is a month boundary with that month index. */
  lemma MonthFirstAligned(y: int, m: int, r: Time, loc: Location)
    requires r == Date(y, m, 1, 0, 0, 0, loc)
    ensures Aligned(Month, r) && MonthIndex(Fields(r)) == 12 * y + (m - 1)
  {
    MonthFirstIndex(y, m, loc);
  }

  lemma MonthFirstIndex(y: int, m: int, loc: Location)
    ensures var f := Fields(Date(y, m, 1, 0, 0, 0, loc));
      f.day == 1 && f.hour == 0 && f.minute == 0 && f.second == 0 && MonthIndex(f) == 12 * y + (m - 1)
  {
    FieldsOfMonthStart(y, m, loc);
  }

  /** The next year boundary is the start of January of the following year. */
  lemma YearBoundaryLocal(start: Time)
    ensures Local(NextBoundary(Year, start)) == MonthStart(12 * (Fields(start).year + 1)) * SecondsPerDay
  {
  }

  /** A year boundary after an instant is no earlier than the next January 1. */
  lemma YearBoundaryAfter(start: Time, t: Time)
    requires t.loc == start.loc && Aligned(Year, t) && start.unix < t.unix
    ensures MonthStart(12 * (Fields(start).year + 1)) * SecondsPerDay <= Local(t)
  {
    AlignedYearLocal(t);
    LocalWithinMonth(start);
    FirstYearAfter(Fields(start).year, MonthIndex(Fields(start)), Fields(t).year, Local(start), Local(t));
  }

  /** On a year boundary, the wall clock is the start of the instant's January. */
  lemma AlignedYearLocal(t: Time)
    requires Aligned(Year, t)
    ensures Local(t) == MonthStart(12 * Fields(t).year) * SecondsPerDay
  {
    AlignedMonthLocal(t);
  }

  /** Every instant's wall clock is earlier than the start of its next year. */
  lemma YearEndAbove(t: Time)
    ensures Local(t) < MonthStart(12 * (Fields(t).year + 1)) * SecondsPerDay
  {
    LocalWithinMonth(t);
    MonthStartOrder(12 * (Fields(t).year + 1), MonthIndex(Fields(t)) + 1);
  }

  /** The ordering argument behind the year boundary, on plain integers. */
  lemma FirstYearAfter(year: int, k: int, y: int, x: int, z: int)
    requires 12 * year <= k < 12 * (year + 1)
    requires MonthStart(k) * SecondsPerDay <= x < z && z == MonthStart(12 * y) * SecondsPerDay
    ensures MonthStart(12 * (year + 1)) * SecondsPerDay <= z
  {
    MonthStartOrder(k, 12 * y);
    MonthStartOrder(12 * y, 12 * (year + 1));
  }

  lemma YearBoundaryIsFirst(start: Time)
    ensures IsNextBoundary(Year, start, NextBoundary(Year, start))
  {
    YearBoundaryLater(start);
    YearBoundaryAligned(start);
    forall t: Time | t.loc == start.loc && Aligned(Year, t) && start.unix < t.unix
      ensures NextBoundary(Year, start).unix <= t.unix
    {
      YearBoundaryLocal(start);
      YearBoundaryAfter(start, t);
    }
  }

  /** The next year boundary comes after the start instant. */
  lemma YearBoundaryLater(start: Time)
    ensures start.unix < NextBoundary(Year, start).unix
  {
    YearBoundaryLocal(start);
    YearEndAbove(start);
  }

  /** The next year boundary is on a year boundary. */
  lemma YearBoundaryAligned(start: Time)
    ensures Aligned(Year, NextBoundary(Year, start))
  {
    JanuaryFirstAligned(Fields(start).year + 1, start.loc, NextBoundary(Year, start));
  }

  lemma JanuaryFirstAligned(y: int, loc: Location, r: Time)
    requires r == Date(y, 1, 1, 0, 0, 0, loc)
    ensures Aligned(Year, r)
  {
    JanuaryFirstFields(y, loc);
  }

  // ---------------------------------------------------------------------------
  // The fields of the invocation point

  /**
    The fields of the boundary that follows the fields `c`, stated with the
    calendar's own next-day rule rather than with `Date`'s normalisation.
   */
  function BoundaryAfter(u: Unit, c: DateTime): DateTime
    requires c.Valid()
  {
    var next := NextDay(CivilDate(c.year, c.month, c.day));
    match u
    case Year => DateTime(c.year + 1, 1, 1, 0, 0, 0)
    case Month => if c.month == 12 then DateTime(c.year + 1, 1, 1, 0, 0, 0) else DateTime(c.year, c.month + 1, 1, 0, 0, 0)
    case Day => DateTime(next.year, next.month, next.day, 0, 0, 0)
    case Hour =>
      if c.hour < 23 then DateTime(c.year, c.month, c.day, c.hour + 1, 0, 0)
      else DateTime(next.year, next.month, next.day, 0, 0, 0)
  }

  /** The invocation point's fields are the next boundary's fields on the calendar. */
  lemma NextBoundaryFields(u: Unit, start: Time)
    ensures Fields(NextBoundary(u, start)) == BoundaryAfter(u, Fields(start))
  {
    match u
    case Year => YearBoundaryFields(start);
    case Month => MonthBoundaryFieldsOf(start);
    case Day => DayBoundaryFields(start);
    case Hour => HourBoundaryFields(start);
  }

  lemma YearBoundaryFields(start: Time)
    ensures Fields(NextBoundary(Year, start)) == BoundaryAfter(Year, Fields(start))
  {
    NewYearFields(Fields(start), start.loc);
  }

  lemma NewYearFields(c: DateTime, loc: Location)
    requires c.Valid()
    ensures Fields(Date(c.year + 1, 1, 1, 0, 0, 0, loc)) == BoundaryAfter(Year, c)
  {
    FieldsOfDate(DateTime(c.year + 1, 1, 1, 0, 0, 0), loc);
  }

  lemma MonthBoundaryFieldsOf(start: Time)
    ensures Fields(NextBoundary(Month, start)) == BoundaryAfter(Month, Fields(start))
  {
    var c := Fields(start);
    MonthBoundaryFields(c.year, c.month, start.loc);
  }

  lemma DayBoundaryFields(start: Time)
    ensures Fields(NextBoundary(Day, start)) == BoundaryAfter(Day, Fields(start))
  {
    NextMidnightFields(Fields(start), start.loc, NextBoundary(Day, start));
  }

  lemma NextMidnightFields(c: DateTime, loc: Location, r: Time)
    requires c.Valid() && r == Date(c.year, c.month, c.day + 1, 0, 0, 0, loc)
    ensures Fields(r) == BoundaryAfter(Day, c)
  {
    NextDayFields(c.year, c.month, c.day, loc);
  }

  lemma HourBoundaryFields(start: Time)
    ensures Fields(NextBoundary(Hour, start)) == BoundaryAfter(Hour, Fields(start))
  {
    var c := Fields(start);
    if c.hour < 23 {
      NextHourFields(c, start.loc);
    } else {
      MidnightFields(c, start.loc);
    }
  }

  lemma NextHourFields(c: DateTime, loc: Location)
    requires c.Valid() && c.hour < 23
    ensures Fields(Date(c.year, c.month, c.day, c.hour + 1, 0, 0, loc)) == DateTime(c.year, c.month, c.day, c.hour + 1, 0, 0)
  {
    FieldsOfDate(DateTime(c.year, c.month, c.day, c.hour + 1, 0, 0), loc);
  }

  /** The hour after 23:xx is midnight of the next day. */
  lemma MidnightFields(c: DateTime, loc: Location)
    requires c.Valid() && c.hour == 23
    ensures var next := NextDay(CivilDate(c.year, c.month, c.day));
      Fields(Date(c.year, c.month, c.day, c.hour + 1, 0, 0, loc)) == DateTime(next.year, next.month, next.day, 0, 0, 0)
  {
    HourCarry(c.year, c.month, c.day, loc);
    NextDayFields(c.year, c.month, c.day, loc);
  }

  /** The first of the month after (`y`, `m`), December rolling over into January. */
  lemma MonthBoundaryFields(y: int, m: int, loc: Location)
    requires 1 <= m <= 12
    ensures Fields(Date(y, m + 1, 1, 0, 0, 0, loc)) ==
      if m == 12 then DateTime(y + 1, 1, 1, 0, 0, 0) else DateTime(y, m + 1, 1, 0, 0, 0)
  {
    var c := if m == 12 then DateTime(y + 1, 1, 1, 0, 0, 0) else DateTime(y, m + 1, 1, 0, 0, 0);
    assert Date(y, m + 1, 1, 0, 0, 0, loc) == DateOf(c, loc) by {
      if m == 12 {
        MonthCarry(y, 13, 1, 0, 0, 0, loc);
      }
    }
    FieldsOfDate(c, loc);
  }

  /** Day `d + 1` at midnight is the calendar's next day. */
  lemma NextDayFields(y: int, m: int, d: int, loc: Location)
    requires 1 <= m <= 12 && 1 <= d <= DaysInMonth(y, m)
    ensures var next := NextDay(CivilDate(y, m, d));
      Fields(Date(y, m, d + 1, 0, 0, 0, loc)) == DateTime(next.year, next.month, next.day, 0, 0, 0)
  {
    var next := NextDay(CivilDate(y, m, d));
    var c := DateTime(next.year, next.month, next.day, 0, 0, 0);
    assert Date(y, m, d + 1, 0, 0, 0, loc) == DateOf(c, loc) by {
      if d == DaysInMonth(y, m) {
        DayCarry(y, m, 0, 0, 0, loc);
        if m == 12 {
          MonthCarry(y, 13, 1, 0, 0, 0, loc);
        }
      }
    }
    FieldsOfDate(c, loc);
  }
}
