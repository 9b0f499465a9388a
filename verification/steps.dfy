/**
  One turn of the list loop: the step each unit takes, the whole units an
  instant lies from 1970 on its wall clock, and what a step does to both.
 */
module Steps {
  import opened Calendar
  import opened GoTime
  import opened Domain

  /**
    The most whole hours Go's 64-bit `time.Duration` holds, either way; beyond
    it `time.Duration(v) * time.Hour` wraps and `Step` no longer is Go's step.
   */
  const MaxHours: int := 2562047

  /** One turn of the loop: `AddDate` in the unit's field, or a fixed number of hours. */
  function Step(u: Unit, v: int, t: Time): (r: Time)
    ensures r.loc == t.loc
  {
    match u
    case Year => AddYears(t, v)
    case Month => AddMonths(t, v)
    case Day => AddDays(t, v)
    case Hour => Add(t, v * SecondsPerHour)
  }

  /**
    Whole units from the start of 1970 to `t`, on `t`'s wall clock: the year, the
    month index, the day number or the hour number.
   */
  function Ordinal(u: Unit, t: Time): int {
    match u
    case Year => Fields(t).year
    case Month => MonthIndex(Fields(t))
    case Day => Local(t) / SecondsPerDay
    case Hour => Local(t) / SecondsPerHour
  }


  /** The loop's step as a function of the instant, for a fixed unit and value. */
  function Next(u: Unit, v: int): Time -> Time {
    t => Step(u, v, t)
  }

  /** The point after `n` turns of the loop. */
  function Iterate(next: Time -> Time, p: Time, n: nat): Time {
    if n == 0 then p else next(Iterate(next, p, n - 1))
  }
}

/**
  What a step does: its direction, the boundary it lands on, and the ordinal
  it adds; and the loop that never ends when the value is not positive.
 */
module StepLemmas {
  import opened Calendar
  import opened GoTime
  import opened Domain
  import opened Steps

  /** A step moves forward exactly when the period's value is positive, and stays put when it is zero. */
  lemma StepSign(u: Unit, v: int, t: Time)
    ensures t.unix < Step(u, v, t).unix <==> v > 0
    ensures Step(u, v, t).unix == t.unix <==> v == 0
  {
    match u
    case Year => YearStepSign(v, t);
    case Month => MonthStepSign(v, t);
    case Day => DayStepShift(v, t);
    case Hour =>
  }

  lemma YearStepSign(v: int, t: Time)
    ensures t.unix < Step(Year, v, t).unix <==> v > 0
    ensures Step(Year, v, t).unix == t.unix <==> v == 0
  {
    var c := Fields(t);
    DateOfFields(t);
    YearStepDate(v, t, c.year, c.month, c.day, c.hour, c.minute, c.second, c.year + v);
    SameClockOrder(t, Step(Year, v, t), c.year, c.month, c.year + v, c.month, c.day, c.hour, c.minute, c.second, t.loc);
  }

  lemma MonthStepSign(v: int, t: Time)
    ensures t.unix < Step(Month, v, t).unix <==> v > 0
    ensures Step(Month, v, t).unix == t.unix <==> v == 0
  {
    var c := Fields(t);
    DateOfFields(t);
    MonthStepDate(v, t, c.year, c.month, c.day, c.hour, c.minute, c.second, c.month + v);
    SameClockOrder(t, Step(Month, v, t), c.year, c.month, c.year, c.month + v, c.day, c.hour, c.minute, c.second, t.loc);
  }

  /** A day step moves the instant by whole days, since the offset is fixed. */
  lemma DayStepShift(v: int, t: Time)
    ensures Step(Day, v, t).unix == t.unix + v * SecondsPerDay
  {
    var c := Fields(t);
    DateOfFields(t);
    DayStepDate(v, t, c.year, c.month, c.day, c.hour, c.minute, c.second, c.day + v);
    LaterDay(t, Step(Day, v, t), c.year, c.month, c.day, v, c.hour, c.minute, c.second, t.loc);
  }

  /** The same wall-clock day and time in two months are ordered as the months are. */
  lemma SameClockOrder(a: Time, b: Time, y: int, m: int, y2: int, m2: int, d: int, h: int, mi: int, s: int, loc: Location)
    requires a == Date(y, m, d, h, mi, s, loc) && b == Date(y2, m2, d, h, mi, s, loc)
    ensures a.unix < b.unix <==> 12 * y + (m - 1) < 12 * y2 + (m2 - 1)
    ensures a.unix == b.unix <==> 12 * y + (m - 1) == 12 * y2 + (m2 - 1)
  {
    MonthStartOrder(12 * y + (m - 1), 12 * y2 + (m2 - 1));
    MonthStartOrder(12 * y2 + (m2 - 1), 12 * y + (m - 1));
  }

  /** The same wall-clock time `v` days later is `v` whole days later. */
  lemma LaterDay(a: Time, b: Time, y: int, m: int, d: int, v: int, h: int, mi: int, s: int, loc: Location)
    requires a == Date(y, m, d, h, mi, s, loc) && b == Date(y, m, d + v, h, mi, s, loc)
    ensures b.unix == a.unix + v * SecondsPerDay
  {
  }

  /** A year step keeps every wall-clock field but the year, `z`, and normalises with `time.Date`. */
  lemma YearStepDate(v: int, t: Time, y: int, m: int, d: int, h: int, mi: int, s: int, z: int)
    requires Fields(t) == DateTime(y, m, d, h, mi, s) && z == y + v
    ensures Step(Year, v, t) == Date(z, m, d, h, mi, s, t.loc)
  {
  }

  /** A month step keeps every wall-clock field but the month, `n`, and normalises with `time.Date`. */
  lemma MonthStepDate(v: int, t: Time, y: int, m: int, d: int, h: int, mi: int, s: int, n: int)
    requires Fields(t) == DateTime(y, m, d, h, mi, s) && n == m + v
    ensures Step(Month, v, t) == Date(y, n, d, h, mi, s, t.loc)
  {
  }

  /** A day step keeps every wall-clock field but the day, `e`, and normalises with `time.Date`. */
  lemma DayStepDate(v: int, t: Time, y: int, m: int, d: int, h: int, mi: int, s: int, e: int)
    requires Fields(t) == DateTime(y, m, d, h, mi, s) && e == d + v
    ensures Step(Day, v, t) == Date(y, m, e, h, mi, s, t.loc)
  {
  }

  // ---------------------------------------------------------------------------
  // Ordinals of aligned instants

  /** A step from a boundary lands on a boundary `v` units further on. */
  lemma StepOrdinal(u: Unit, v: int, t: Time)
    requires Aligned(u, t)
    ensures Aligned(u, Step(u, v, t))
    ensures Ordinal(u, Step(u, v, t)) == Ordinal(u, t) + v
  {
    match u
    case Year => YearStepOrdinal(v, t);
    case Month => MonthStepOrdinal(v, t, Step(Month, v, t));
    case Day => DayStepOrdinal(v, t);
    case Hour => HourStepOrdinal(v, t);
  }

  lemma YearStepOrdinal(v: int, t: Time)
    requires Aligned(Year, t)
    ensures Aligned(Year, Step(Year, v, t)) && Ordinal(Year, Step(Year, v, t)) == Ordinal(Year, t) + v
  {
    var c := Fields(t);
    YearStepFields(v, t, Step(Year, v, t), c.year, c.year + v);
  }

  /** A year step from New Year's midnight of year `y` is New Year's midnight of year `z`, `v` years on. */
  lemma YearStepFields(v: int, t: Time, r: Time, y: int, z: int)
    requires Fields(t) == DateTime(y, 1, 1, 0, 0, 0) && r == Step(Year, v, t) && z == y + v
    ensures Fields(r) == DateTime(z, 1, 1, 0, 0, 0)
  {
    YearStepDate(v, t, y, 1, 1, 0, 0, 0, z);
    JanuaryFirstFields(z, t.loc);
  }

  lemma MonthStepOrdinal(v: int, t: Time, r: Time)
    requires Aligned(Month, t) && r == Step(Month, v, t)
    ensures Aligned(Month, r) && Ordinal(Month, r) == Ordinal(Month, t) + v
  {
    var c := Fields(t);
    var n := c.month + v;
    MonthStepDate(v, t, c.year, c.month, 1, 0, 0, 0, n);
    assert r == Date(c.year, n, 1, 0, 0, 0, t.loc);
    MonthFirstOrdinal(c.year, n, r, t.loc);
  }

  /** The first of a month at midnight is a month boundary whose ordinal is that month's index. */
  lemma MonthFirstOrdinal(y: int, m: int, r: Time, loc: Location)
    requires r == Date(y, m, 1, 0, 0, 0, loc)
    ensures Aligned(Month, r) && Ordinal(Month, r) == 12 * y + (m - 1)
  {
    MonthFirstAligned(y, m, r, loc);
  }

  lemma DayStepOrdinal(v: int, t: Time)
    requires Aligned(Day, t)
    ensures Aligned(Day, Step(Day, v, t)) && Ordinal(Day, Step(Day, v, t)) == Ordinal(Day, t) + v
  {
    DayStepShift(v, t);
    DaysLater(v, t, Step(Day, v, t));
  }

  /** The instant `v` whole days after a midnight is a midnight `v` days on. */
  lemma DaysLater(v: int, t: Time, r: Time)
    requires Aligned(Day, t) && r.loc == t.loc && r.unix == t.unix + v * SecondsPerDay
    ensures Aligned(Day, r) && Ordinal(Day, r) == Ordinal(Day, t) + v
  {
    AlignedDayIff(t);
    AlignedDayIff(r);
    WholeDays(Local(t), Local(r), v);
  }

  lemma HourStepOrdinal(v: int, t: Time)
    requires Aligned(Hour, t)
    ensures Aligned(Hour, Step(Hour, v, t)) && Ordinal(Hour, Step(Hour, v, t)) == Ordinal(Hour, t) + v
  {
    var r := Step(Hour, v, t);
    AlignedHourIff(t);
    AlignedHourIff(r);
    WholeHours(Local(t), Local(r), v);
  }

  /** Adding whole days to a whole number of days. */
  lemma WholeDays(x: int, y: int, v: int)
    requires x % SecondsPerDay == 0 && y == x + v * SecondsPerDay
    ensures y % SecondsPerDay == 0 && y / SecondsPerDay == x / SecondsPerDay + v
  {
  }

  /** Adding whole hours to a whole number of hours. */
  lemma WholeHours(x: int, y: int, v: int)
    requires x % SecondsPerHour == 0 && y == x + v * SecondsPerHour
    ensures y % SecondsPerHour == 0 && y / SecondsPerHour == x / SecondsPerHour + v
  {
  }

  /** On boundaries of one location, the ordinal orders instants as time does, and names each one. */
  lemma OrdinalOrder(u: Unit, a: Time, b: Time)
    requires Aligned(u, a) && Aligned(u, b) && a.loc == b.loc
    ensures a.unix < b.unix <==> Ordinal(u, a) < Ordinal(u, b)
    ensures Ordinal(u, a) == Ordinal(u, b) ==> a == b
  {
    match u
    case Year =>
      AlignedMonthLocal(a);
      AlignedMonthLocal(b);
      MonthStartOrder(MonthIndex(Fields(a)), MonthIndex(Fields(b)));
      MonthStartOrder(MonthIndex(Fields(b)), MonthIndex(Fields(a)));
    case Month =>
      AlignedMonthLocal(a);
      AlignedMonthLocal(b);
      MonthStartOrder(Ordinal(Month, a), Ordinal(Month, b));
      MonthStartOrder(Ordinal(Month, b), Ordinal(Month, a));
    case Day =>
      AlignedDayIff(a);
      AlignedDayIff(b);
    case Hour =>
      AlignedHourIff(a);
      AlignedHourIff(b);
  }
}
