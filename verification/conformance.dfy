/**
  The examples the repository's tests check, restated about the model. The
  tests use the Europe/Athens zone; every instant they list from July to
  September 2021 falls in its summer time, a fixed offset of three hours, and
  every January 1 the yearly list holds falls in its winter time, two hours.
 */
module Conformance {
  import opened Wrappers
  import opened Calendar
  import opened GoTime
  import opened HttpErrors
  import opened Domain
  import opened Steps
  import opened Usecase
  import Constants

  /** Europe/Athens in summer time (EEST, UTC+3). */
  const Athens: Location := FixedZone(3 * SecondsPerHour)

  /** A timestamp of the layout read in UTC and shown in Athens, as the tests build `T1` and `T2`. */
  function AthensAt(c: DateTime): (t: Time)
    ensures t.loc == Athens
  {
    In(DateOf(c, UTC), Athens)
  }

  /** The instant of fields with an in-range month, counted from their day number. */
  lemma UnixOf(c: DateTime, loc: Location)
    requires 1 <= c.month <= 12
    ensures DateOf(c, loc).unix == DayNumber(CivilDate(c.year, c.month, c.day)) * SecondsPerDay
                                   + (c.hour * SecondsPerHour + c.minute * SecondsPerMinute + c.second) - loc.offset
  {
    LocalOfDate(c, loc);
  }

  /** Day numbers in 2021: 18628 days lie between 1970-01-01 and 2021-01-01. */
  lemma DayNumber2021(m: int, d: int)
    requires 1 <= m <= 12
    ensures DayNumber(CivilDate(2021, m, d)) == 18627 + DaysBeforeMonth(2021, m) + d
  {
    DaysBeforeYearClosed(2021);
  }

  /** Midnight in Athens of day number `z`. */
  function Midnight(z: int): (t: Time)
    ensures t.loc == Athens
  {
    Time(z * SecondsPerDay - Athens.offset, Athens)
  }

  /** Midnight of a valid date in Athens has that date's fields. */
  lemma MidnightFields(d: CivilDate)
    requires 1 <= d.month <= 12 && 1 <= d.day <= DaysInMonth(d.year, d.month)
    ensures Fields(Midnight(DayNumber(d))) == DateTime(d.year, d.month, d.day, 0, 0, 0)
  {
    FieldsOfClock(Midnight(DayNumber(d)), DateTime(d.year, d.month, d.day, 0, 0, 0));
  }

  /** A day's step from midnight is the next midnight. */
  lemma MidnightDayStep(z: int)
    ensures Step(Day, 1, Midnight(z)) == Midnight(z + 1)
  {
    var d := CivilFromDays(z);
    MidnightFields(d);
    UnixOf(DateTime(d.year, d.month, d.day + 1, 0, 0, 0), Athens);
  }

  /** A month's step from the first of a month before December is the first of the next month. */
  lemma MidnightMonthStep(y: int, m: int)
    requires 1 <= m < 12
    ensures Step(Month, 1, Midnight(DayNumber(CivilDate(y, m, 1)))) == Midnight(DayNumber(CivilDate(y, m + 1, 1)))
  {
    MidnightFields(CivilDate(y, m, 1));
    UnixOf(DateTime(y, m + 1, 1, 0, 0, 0), Athens);
  }

  /** Midnight in Athens is 21:00 UTC of the day before. */
  lemma MidnightInUtc(z: int, c: DateTime)
    requires 1 <= c.month <= 12 && c.hour == 21 && c.minute == 0 && c.second == 0
    requires DayNumber(CivilDate(c.year, c.month, c.day)) == z - 1
    ensures In(Midnight(z), UTC) == DateOf(c, UTC)
  {
    UnixOf(c, UTC);
    MidnightUnix(z);
  }

  lemma MidnightUnix(z: int)
    ensures Midnight(z).unix == z * 86400 - 10800
  {
  }

  /** From a midnight, the daily schedule is the next `n` midnights when `t2` falls after the last of them. */
  lemma {:induction false} DailyFrom(z: int, n: nat, t2: Time)
    requires (z + n - 1) * 86400 - 10800 < t2.unix <= (z + n) * 86400 - 10800
    ensures Schedule(Day, 1, Midnight(z), t2) == seq(n, i => Midnight(z + i))
    decreases n
  {
    MidnightUnix(z);
    if n == 0 {
      ScheduleStops(Day, 1, Midnight(z), t2);
    } else {
      DailyFrom(z + 1, n - 1, t2);
      MidnightDayStep(z);
      ScheduleUnfold(Day, 1, Midnight(z), t2);
      assert seq(n, i => Midnight(z + i)) == [Midnight(z)] + seq(n - 1, i => Midnight(z + 1 + i));
    }
  }

  /** An instant given by valid UTC fields is listed as those fields in the timestamp layout. */
  lemma RenderUtc(c: DateTime)
    requires c.Valid()
    ensures Render(DateOf(c, UTC)) == FormatFields(c)
  {
    FieldsOfDate(c, UTC);
  }

  /**
    A schedule given point by point: if each listed point is before `t2` and
    steps to the next, and the last one is not before `t2`, the schedule from
    the first is the list without the last.
   */
  lemma {:induction false} ScheduleIs(u: Unit, v: int, pts: seq<Time>, t2: Time)
    requires v > 0 && |pts| >= 1
    requires forall i :: 0 <= i < |pts| - 1 ==> Before(pts[i], t2) && Step(u, v, pts[i]) == pts[i + 1]
    requires !Before(pts[|pts| - 1], t2)
    ensures Schedule(u, v, pts[0], t2) == pts[..|pts| - 1]
  {
    if |pts| == 1 {
      ScheduleStops(u, v, pts[0], t2);
    } else {
      ScheduleIs(u, v, pts[1..], t2);
      ScheduleUnfold(u, v, pts[0], t2);
      assert pts[..|pts| - 1] == [pts[0]] + pts[1..][..|pts| - 2];
    }
  }

  // ---------------------------------------------------------------------------
  // The invocation point

  /** The start instant of the calculator's tests: 2021-07-14 23:46:03 in Athens. */
  lemma StartFields()
    ensures Fields(DateOf(DateTime(2021, 7, 14, 23, 46, 3), Athens)) == DateTime(2021, 7, 14, 23, 46, 3)
  {
    FieldsOfDate(DateTime(2021, 7, 14, 23, 46, 3), Athens);
  }

  /** The calculator's tests: the next month, day and hour boundaries in Athens, and an unknown type. */
  lemma InvocationPointExamples()
    ensures GetInvocationPoint(Period(1, "wrong"), DateOf(DateTime(2014, 7, 14, 23, 46, 3), Athens)) == Failure(InvalidPeriod)
    ensures GetInvocationPoint(Period(1, Constants.Month), DateOf(DateTime(2021, 7, 14, 23, 46, 3), Athens))
         == Success(DateOf(DateTime(2021, 8, 1, 0, 0, 0), Athens))
    ensures GetInvocationPoint(Period(1, Constants.Day), DateOf(DateTime(2021, 7, 28, 23, 46, 3), Athens))
         == Success(DateOf(DateTime(2021, 7, 29, 0, 0, 0), Athens))
    ensures GetInvocationPoint(Period(1, Constants.Hour), DateOf(DateTime(2021, 7, 14, 23, 46, 3), Athens))
         == Success(DateOf(DateTime(2021, 7, 15, 0, 0, 0), Athens))
  {
    StartFields();
    FieldsOfDate(DateTime(2021, 7, 28, 23, 46, 3), Athens);
    HourCarry(2021, 7, 14, Athens);
  }

  // ---------------------------------------------------------------------------
  // The lists

  /** The day numbers of the dates the daily and monthly tests list. */
  lemma DayNumbers()
    ensures DayNumber(CivilDate(2021, 7, 28)) == 18836 && DayNumber(CivilDate(2021, 7, 29)) == 18837
    ensures DayNumber(CivilDate(2021, 7, 30)) == 18838 && DayNumber(CivilDate(2021, 7, 31)) == 18839
    ensures DayNumber(CivilDate(2021, 8, 1)) == 18840 && DayNumber(CivilDate(2021, 8, 31)) == 18870
    ensures DayNumber(CivilDate(2021, 9, 1)) == 18871 && DayNumber(CivilDate(2021, 10, 1)) == 18901
  {
    DayNumber2021(7, 28);
    DayNumber2021(7, 29);
    DayNumber2021(7, 30);
    DayNumber2021(7, 31);
    DayNumber2021(8, 1);
    DayNumber2021(8, 31);
    DayNumber2021(9, 1);
    DayNumber2021(10, 1);
  }

  /** The start of the daily list: `T1` is 2021-07-28 23:46:03 in Athens, so the first point is the next midnight. */
  lemma DayListStart()
    ensures NextBoundary(Day, AthensAt(DateTime(2021, 7, 28, 20, 46, 3))) == Midnight(18837)
  {
    var t1 := AthensAt(DateTime(2021, 7, 28, 20, 46, 3));
    UnixOf(DateTime(2021, 7, 28, 20, 46, 3), UTC);
    UnixOf(DateTime(2021, 7, 29, 0, 0, 0), Athens);
    DayNumber2021(7, 28);
    DayNumber2021(7, 29);
    FieldsOfClock(t1, DateTime(2021, 7, 28, 23, 46, 3));
  }

  /** The end of the daily list: 2021-08-02 12:34:56 UTC. */
  lemma DayListEnd()
    ensures AthensAt(DateTime(2021, 8, 2, 12, 34, 56)).unix == 1627907696
  {
    UnixOf(DateTime(2021, 8, 2, 12, 34, 56), UTC);
    DayNumber2021(8, 2);
  }

  /** The test `1d`: five midnights from 2021-07-29 to 2021-08-02 in Athens, 21:00 UTC of the days before. */
  lemma DayListExample()
    ensures var t1 := AthensAt(DateTime(2021, 7, 28, 20, 46, 3));
      var t2 := AthensAt(DateTime(2021, 8, 2, 12, 34, 56));
      var pts := Schedule(Day, 1, NextBoundary(Day, t1), t2);
      |pts| == 5 &&
      In(pts[0], UTC) == DateOf(DateTime(2021, 7, 28, 21, 0, 0), UTC) &&
      In(pts[1], UTC) == DateOf(DateTime(2021, 7, 29, 21, 0, 0), UTC) &&
      In(pts[2], UTC) == DateOf(DateTime(2021, 7, 30, 21, 0, 0), UTC) &&
      In(pts[3], UTC) == DateOf(DateTime(2021, 7, 31, 21, 0, 0), UTC) &&
      In(pts[4], UTC) == DateOf(DateTime(2021, 8, 1, 21, 0, 0), UTC)
  {
    var t2 := AthensAt(DateTime(2021, 8, 2, 12, 34, 56));
    DayListStart();
    DayListEnd();
    DailyFrom(18837, 5, t2);
    var pts := Schedule(Day, 1, Midnight(18837), t2);
    assert pts[0] == Midnight(18837) && pts[1] == Midnight(18838) && pts[2] == Midnight(18839);
    assert pts[3] == Midnight(18840) && pts[4] == Midnight(18841);
    DayNumbers();
    MidnightInUtc(18837, DateTime(2021, 7, 28, 21, 0, 0));
    MidnightInUtc(18838, DateTime(2021, 7, 29, 21, 0, 0));
    MidnightInUtc(18839, DateTime(2021, 7, 30, 21, 0, 0));
    MidnightInUtc(18840, DateTime(2021, 7, 31, 21, 0, 0));
    MidnightInUtc(18841, DateTime(2021, 8, 1, 21, 0, 0));
  }

  /** The start of the monthly list: `T1` is 2021-07-14 23:46:03 in Athens, so the first point is August 1. */
  lemma MonthListStart()
    ensures NextBoundary(Month, AthensAt(DateTime(2021, 7, 14, 20, 46, 3))) == Midnight(18840)
  {
    var t1 := AthensAt(DateTime(2021, 7, 14, 20, 46, 3));
    UnixOf(DateTime(2021, 7, 14, 20, 46, 3), UTC);
    UnixOf(DateTime(2021, 8, 1, 0, 0, 0), Athens);
    DayNumber2021(7, 14);
    DayNumber2021(8, 1);
    FieldsOfClock(t1, DateTime(2021, 7, 14, 23, 46, 3));
  }

  /** The end of the monthly list: 2021-09-15 12:34:56 UTC. */
  lemma MonthListEnd()
    ensures AthensAt(DateTime(2021, 9, 15, 12, 34, 56)).unix == 1631709296
  {
    UnixOf(DateTime(2021, 9, 15, 12, 34, 56), UTC);
    DayNumber2021(9, 15);
  }

  /** The monthly points from August 1 in Athens: two before the end, October 1 not. */
  lemma MonthListPoints()
    ensures var t2 := AthensAt(DateTime(2021, 9, 15, 12, 34, 56));
      Schedule(Month, 1, Midnight(18840), t2) == [Midnight(18840), Midnight(18871)]
  {
    var t2 := AthensAt(DateTime(2021, 9, 15, 12, 34, 56));
    MonthListEnd();
    DayNumbers();
    MidnightMonthStep(2021, 8);
    MidnightMonthStep(2021, 9);
    MidnightUnix(18840);
    MidnightUnix(18871);
    MidnightUnix(18901);
    var pts := [Midnight(18840), Midnight(18871), Midnight(18901)];
    ScheduleIs(Month, 1, pts, t2);
  }

  /** The test `1mo`: August 1 and September 1 in Athens, 21:00 UTC of the days before. */
  lemma MonthListExample()
    ensures var t1 := AthensAt(DateTime(2021, 7, 14, 20, 46, 3));
      var t2 := AthensAt(DateTime(2021, 9, 15, 12, 34, 56));
      var pts := Schedule(Month, 1, NextBoundary(Month, t1), t2);
      |pts| == 2 &&
      In(pts[0], UTC) == DateOf(DateTime(2021, 7, 31, 21, 0, 0), UTC) &&
      In(pts[1], UTC) == DateOf(DateTime(2021, 8, 31, 21, 0, 0), UTC)
  {
    MonthListStart();
    MonthListPoints();
    DayNumbers();
    MidnightInUtc(18840, DateTime(2021, 7, 31, 21, 0, 0));
    MidnightInUtc(18871, DateTime(2021, 8, 31, 21, 0, 0));
  }

  /** The start of the hourly list: `T1` is 2021-07-14 23:46:03 in Athens, so the first point is midnight. */
  lemma HourListStart()
    ensures NextBoundary(Hour, AthensAt(DateTime(2021, 7, 14, 20, 46, 3))) == DateOf(DateTime(2021, 7, 15, 0, 0, 0), Athens)
  {
    var t1 := AthensAt(DateTime(2021, 7, 14, 20, 46, 3));
    UnixOf(DateTime(2021, 7, 14, 20, 46, 3), UTC);
    FieldsOfClock(t1, DateTime(2021, 7, 14, 23, 46, 3));
    HourCarry(2021, 7, 14, Athens);
  }

  /**
    The test `1h`: sixteen hours from midnight of 2021-07-15 in Athens, the first
    21:00 UTC of July 14, each an hour after the one before, so the last is
    12:00 UTC of July 15.
   */
  lemma HourListExample()
    ensures var t1 := AthensAt(DateTime(2021, 7, 14, 20, 46, 3));
      var t2 := AthensAt(DateTime(2021, 7, 15, 12, 34, 56));
      var pts := Schedule(Hour, 1, NextBoundary(Hour, t1), t2);
      |pts| == 16 &&
      In(pts[0], UTC) == DateOf(DateTime(2021, 7, 14, 21, 0, 0), UTC) &&
      (forall i :: 0 <= i < 16 ==> pts[i].unix == pts[0].unix + i * 3600) &&
      In(pts[15], UTC) == DateOf(DateTime(2021, 7, 15, 12, 0, 0), UTC)
  {
    var t2 := AthensAt(DateTime(2021, 7, 15, 12, 34, 56));
    var p0 := DateOf(DateTime(2021, 7, 15, 0, 0, 0), Athens);
    HourListStart();
    var pts := Schedule(Hour, 1, p0, t2);
    UnixOf(DateTime(2021, 7, 15, 0, 0, 0), Athens);
    UnixOf(DateTime(2021, 7, 15, 12, 34, 56), UTC);
    UnixOf(DateTime(2021, 7, 14, 21, 0, 0), UTC);
    UnixOf(DateTime(2021, 7, 15, 12, 0, 0), UTC);
    DayNumber2021(7, 15);
    DayNumber2021(7, 14);
    assert t2.unix - p0.unix == 56096;
    HourSchedule(1, p0, t2);
    assert |pts| == 16;
  }

  // ---------------------------------------------------------------------------
  // The yearly list

  /** Europe/Athens in winter time (EET, UTC+2). */
  const AthensWinter: Location := FixedZone(2 * SecondsPerHour)

  /** A timestamp of the layout read in UTC and shown in Athens in winter time. */
  function WinterAt(c: DateTime): (t: Time)
    ensures t.loc == AthensWinter
  {
    In(DateOf(c, UTC), AthensWinter)
  }

  /** New Year's midnight of year `y` in Athens in winter time. */
  function NewYear(y: int): (t: Time)
    ensures t.loc == AthensWinter
  {
    Time(DaysBeforeYear(y) * 86400 - 7200, AthensWinter)
  }

  lemma NewYearUnix(y: int)
    ensures NewYear(y).unix == DaysBeforeYear(y) * 86400 - 7200
  {
  }

  /** New Year's midnight is the instant of the fields of January 1 at midnight. */
  lemma NewYearDate(y: int)
    ensures NewYear(y) == DateOf(DateTime(y, 1, 1, 0, 0, 0), AthensWinter)
  {
    UnixOf(DateTime(y, 1, 1, 0, 0, 0), AthensWinter);
  }

  /** A year's step from New Year's midnight is the next New Year's midnight. */
  lemma NewYearStep(y: int)
    ensures Step(Year, 1, NewYear(y)) == NewYear(y + 1)
  {
    NewYearDate(y);
    NewYearDate(y + 1);
    JanuaryFirstFields(y, AthensWinter);
    StepLemmas.YearStepDate(1, NewYear(y), y, 1, 1, 0, 0, 0, y + 1);
  }

  /** New Year's midnight in Athens is 22:00 UTC on December 31 of the year before. */
  lemma NewYearInUtc(y: int, p: int)
    requires p == y - 1
    ensures In(NewYear(y), UTC) == DateOf(DateTime(p, 12, 31, 22, 0, 0), UTC)
  {
    NewYearUnix(y);
    UnixOf(DateTime(p, 12, 31, 22, 0, 0), UTC);
    NextDayNumber(CivilDate(p, 12, 31));
  }

  /**
    A loop whose step takes `f(k)` to `f(k + 1)` lists `f(y)`, …, `f(y + n - 1)`
    when those are before `t2` and `f(y + n)` is not.
   */
  lemma {:induction false} RunFrom(next: Time -> Time, f: int -> Time, y: int, n: nat, t2: Time)
    requires Advances(next)
    requires forall k :: next(f(k)) == f(k + 1)
    requires forall k :: y <= k < y + n ==> Before(f(k), t2)
    requires !Before(f(y + n), t2)
    ensures Run(next, f(y), t2) == seq(n, i => f(y + i))
    decreases n
  {
    if n > 0 {
      RunFrom(next, f, y + 1, n - 1, t2);
      assert Run(next, f(y), t2) == [f(y)] + Run(next, f(y + 1), t2);
      assert seq(n, i => f(y + i)) == [f(y)] + seq(n - 1, i => f(y + 1 + i));
    }
  }

  /** From New Year's midnight of `y`, the yearly schedule is the next `n` of them when `t2` falls after the `n`-th. */
  lemma YearlyFrom(y: int, n: nat, t2: Time)
    requires forall k :: y <= k < y + n ==> Before(NewYear(k), t2)
    requires !Before(NewYear(y + n), t2)
    ensures Schedule(Year, 1, NewYear(y), t2) == seq(n, i => NewYear(y + i))
  {
    NextAdvances(Year, 1);
    forall k: int
      ensures Next(Year, 1)(NewYear(k)) == NewYear(k + 1)
    {
      NewYearStep(k);
    }
    RunFrom(Next(Year, 1), NewYear, y, n, t2);
  }

  /** The start of the yearly list: `T1` is 2014-07-14 22:46:03 in winter time, so the first point is 2015's New Year. */
  lemma YearListStart()
    ensures NextBoundary(Year, WinterAt(DateTime(2014, 7, 14, 20, 46, 3))) == NewYear(2015)
  {
    var t1 := WinterAt(DateTime(2014, 7, 14, 20, 46, 3));
    UnixOf(DateTime(2014, 7, 14, 20, 46, 3), UTC);
    FieldsOfClock(t1, DateTime(2014, 7, 14, 22, 46, 3));
    NewYearDate(2015);
  }

  /**
    The test `1y`: seven New Year's midnights in Athens, 2015 to 2021, each
    22:00 UTC on December 31 of the year before.
   */
  lemma YearListExample()
    ensures var t1 := WinterAt(DateTime(2014, 7, 14, 20, 46, 3));
      var t2 := WinterAt(DateTime(2021, 9, 15, 12, 34, 56));
      var pts := Schedule(Year, 1, NextBoundary(Year, t1), t2);
      |pts| == 7 &&
      In(pts[0], UTC) == DateOf(DateTime(2014, 12, 31, 22, 0, 0), UTC) &&
      In(pts[1], UTC) == DateOf(DateTime(2015, 12, 31, 22, 0, 0), UTC) &&
      In(pts[2], UTC) == DateOf(DateTime(2016, 12, 31, 22, 0, 0), UTC) &&
      In(pts[3], UTC) == DateOf(DateTime(2017, 12, 31, 22, 0, 0), UTC) &&
      In(pts[4], UTC) == DateOf(DateTime(2018, 12, 31, 22, 0, 0), UTC) &&
      In(pts[5], UTC) == DateOf(DateTime(2019, 12, 31, 22, 0, 0), UTC) &&
      In(pts[6], UTC) == DateOf(DateTime(2020, 12, 31, 22, 0, 0), UTC)
  {
    var t2 := WinterAt(DateTime(2021, 9, 15, 12, 34, 56));
    YearListStart();
    UnixOf(DateTime(2021, 9, 15, 12, 34, 56), UTC);
    DayNumber2021(9, 15);
    assert t2.unix == 1631709296;
    DaysBeforeYearClosed(2021);
    DaysBeforeYearClosed(2022);
    NewYearUnix(2021);
    NewYearUnix(2022);
    forall k | 2015 <= k < 2022
      ensures Before(NewYear(k), t2)
    {
      NewYearUnix(k);
      DaysBeforeYearMono(k, 2021);
    }
    YearlyFrom(2015, 7, t2);
    var pts := Schedule(Year, 1, NewYear(2015), t2);
    assert pts[0] == NewYear(2015) && pts[1] == NewYear(2016) && pts[2] == NewYear(2017) && pts[3] == NewYear(2018);
    assert pts[4] == NewYear(2019) && pts[5] == NewYear(2020) && pts[6] == NewYear(2021);
    NewYearInUtc(2015, 2014);
    NewYearInUtc(2016, 2015);
    NewYearInUtc(2017, 2016);
    NewYearInUtc(2018, 2017);
    NewYearInUtc(2019, 2018);
    NewYearInUtc(2020, 2019);
    NewYearInUtc(2021, 2020);
  }
}
