/**
  The part of Go's `time` package the generator relies on, for time zones
  with one fixed UTC offset: instants, `time.Date` with its normalisation of
  out-of-range fields, the civil fields of an instant, `AddDate`, `Add`, `In`,
  `Before`, and `Format` with the layout `20060102T150405Z`.

  An instant is a whole number of seconds since 1970-01-01 00:00:00 UTC.
 */
module GoTime {
  import opened Wrappers
  import opened Calendar
  import opened Decimal

  const SecondsPerMinute: int := 60
  const SecondsPerHour: int := 3600
  const SecondsPerDay: int := 86400

  /** A time zone whose offset east of UTC, in seconds, never changes. */
  datatype Location = FixedZone(offset: int)

  const UTC: Location := FixedZone(0)

  /** An instant together with the location it is shown in, as a `time.Time` is. */
  datatype Time = Time(unix: int, loc: Location)

  /** Seconds from 1970-01-01 00:00:00 on the wall clock of `t`'s location to `t`. */
  function Local(t: Time): int {
    t.unix + t.loc.offset
  }

  /** Absolute month index of the civil fields `c`. */
  function MonthIndex(c: DateTime): int {
    12 * c.year + (c.month - 1)
  }

  /**
    `time.Date`: the instant with the given wall-clock fields in `loc`. Fields out
    of range are normalised as Go does: the month carries into the year, and
    day, hour, minute and second overflow into the next larger unit.
   */
  function Date(year: int, month: int, day: int, hour: int, minute: int, second: int, loc: Location): (t: Time)
    ensures t.loc == loc
  {
    var k := 12 * year + (month - 1);
    Time((MonthStart(k) + day - 1) * SecondsPerDay + hour * SecondsPerHour + minute * SecondsPerMinute + second - loc.offset, loc)
  }

  function DateOf(c: DateTime, loc: Location): Time {
    Date(c.year, c.month, c.day, c.hour, c.minute, c.second, loc)
  }

  /** `Year()`, `Month()`, `Day()`, `Hour()`, `Minute()`, `Second()` of `t` in its location. */
  function Fields(t: Time): (c: DateTime)
    ensures c.Valid()
  {
    Civil(Local(t))
  }

  /** The civil fields of the wall clock `x` seconds after 1970-01-01 00:00:00. */
  function Civil(x: int): (c: DateTime)
    ensures c.Valid()
  {
    var d := CivilFromDays(x / SecondsPerDay);
    var sod := x % SecondsPerDay;
    DateTime(d.year, d.month, d.day, sod / SecondsPerHour, sod % SecondsPerHour / SecondsPerMinute, sod % SecondsPerMinute)
  }

  /** `t.Add(d)` for a duration of `seconds`. */
  function Add(t: Time, seconds: int): Time {
    Time(t.unix + seconds, t.loc)
  }

  /*
    `t.AddDate(years, months, days)` adds to the civil fields and normalises
    with `Date`. The generator only ever moves one field at a time, so the
    three single-field forms are given separately.
   */

  /** `t.AddDate(years, 0, 0)`. */
  function AddYears(t: Time, years: int): Time {
    var c := Fields(t);
    Date(c.year + years, c.month, c.day, c.hour, c.minute, c.second, t.loc)
  }

  /** `t.AddDate(0, months, 0)`. */
  function AddMonths(t: Time, months: int): Time {
    var c := Fields(t);
    Date(c.year, c.month + months, c.day, c.hour, c.minute, c.second, t.loc)
  }

  /** `t.AddDate(0, 0, days)`. */
  function AddDays(t: Time, days: int): Time {
    var c := Fields(t);
    Date(c.year, c.month, c.day + days, c.hour, c.minute, c.second, t.loc)
  }

  /** `t.In(loc)`: the same instant shown in another location. */
  function In(t: Time, loc: Location): Time {
    Time(t.unix, loc)
  }

  /** `t.Before(u)`. */
  predicate Before(t: Time, u: Time) {
    t.unix < u.unix
  }

  /** `t.Format("20060102T150405Z")`: year padded to four digits, the other fields to two. */
  function Format(t: Time): string {
    FormatFields(Fields(t))
  }

  function FormatFields(c: DateTime): string {
    PadInt(c.year, 4) + PadInt(c.month, 2) + PadInt(c.day, 2) + "T" +
    PadInt(c.hour, 2) + PadInt(c.minute, 2) + PadInt(c.second, 2) + "Z"
  }

  /** Reads the fields back from a string in the layout `20060102T150405Z` with a four-digit year. */
  function Scan(s: string): Option<DateTime> {
    if |s| == 16 && s[8] == 'T' && s[15] == 'Z' &&
       AllDigits(s[0..4]) && AllDigits(s[4..6]) && AllDigits(s[6..8]) &&
       AllDigits(s[9..11]) && AllDigits(s[11..13]) && AllDigits(s[13..15])
    then
      Some(DateTime(ValueOf(s[0..4]), ValueOf(s[4..6]), ValueOf(s[6..8]),
                    ValueOf(s[9..11]), ValueOf(s[11..13]), ValueOf(s[13..15])))
    else None
  }

  // ---------------------------------------------------------------------------
  // Date and Fields are inverse

  /** The wall clock of `t` is its day number in seconds plus the time of day. */
  lemma LocalOfFields(t: Time)
    ensures var c := Fields(t);
      Local(t) == (MonthStart(MonthIndex(c)) + c.day - 1) * SecondsPerDay
                  + c.hour * SecondsPerHour + c.minute * SecondsPerMinute + c.second
  {
    ClockOfCivil(Local(t));
  }

  lemma ClockOfCivil(x: int)
    ensures var c := Civil(x);
      x == (MonthStart(MonthIndex(c)) + c.day - 1) * SecondsPerDay
           + c.hour * SecondsPerHour + c.minute * SecondsPerMinute + c.second
  {
    var c := Civil(x);
    var z := x / SecondsPerDay;
    var sod := x % SecondsPerDay;
    var d := CivilFromDays(z);
    assert c == DateTime(d.year, d.month, d.day, sod / SecondsPerHour, sod % SecondsPerHour / SecondsPerMinute, sod % SecondsPerMinute);
    MonthStartOf(c.year, c.month);
    assert MonthStart(MonthIndex(c)) + c.day - 1 == DayNumber(d) == z;
    ClockSplit(sod);
  }

  /** A time of day splits into hours, minutes and seconds. */
  lemma ClockSplit(sod: int)
    requires 0 <= sod < SecondsPerDay
    ensures (sod / SecondsPerHour) * SecondsPerHour + (sod % SecondsPerHour / SecondsPerMinute) * SecondsPerMinute
            + sod % SecondsPerMinute == sod
  {
  }

  /** Rebuilding an instant from its own fields gives the instant back. */
  lemma DateOfFields(t: Time)
    ensures DateOf(Fields(t), t.loc) == t
  {
    LocalOfFields(t);
  }

  /** The fields of a date built from valid fields are those fields. */
  lemma FieldsOfDate(c: DateTime, loc: Location)
    requires c.Valid()
    ensures Fields(DateOf(c, loc)) == c
  {
    LocalOfDate(c, loc);
    FieldsOfClock(DateOf(c, loc), c);
  }

  /** An instant whose wall clock is the day number and time of day of valid fields `c` has the fields `c`. */
  lemma FieldsOfClock(t: Time, c: DateTime)
    requires c.Valid()
    requires Local(t) == DayNumber(CivilDate(c.year, c.month, c.day)) * SecondsPerDay
                         + (c.hour * SecondsPerHour + c.minute * SecondsPerMinute + c.second)
    ensures Fields(t) == c
  {
    CivilOfClock(Local(t), c);
  }

  lemma CivilOfClock(x: int, c: DateTime)
    requires c.Valid()
    requires x == DayNumber(CivilDate(c.year, c.month, c.day)) * SecondsPerDay
                  + (c.hour * SecondsPerHour + c.minute * SecondsPerMinute + c.second)
    ensures Civil(x) == c
  {
    CivilOfDate(x, CivilDate(c.year, c.month, c.day), c.hour, c.minute, c.second);
  }

  /** The fields of the wall clock at a given hour, minute and second of a valid civil date. */
  lemma CivilOfDate(x: int, d: CivilDate, h: int, mi: int, s: int)
    requires 1 <= d.month <= 12 && 1 <= d.day <= DaysInMonth(d.year, d.month)
    requires 0 <= h < 24 && 0 <= mi < 60 && 0 <= s < 60
    requires x == DayNumber(d) * SecondsPerDay + (h * SecondsPerHour + mi * SecondsPerMinute + s)
    ensures Civil(x) == DateTime(d.year, d.month, d.day, h, mi, s)
  {
    CivilFromDayNumber(d);
    CivilOfDay(x, DayNumber(d), h, mi, s);
  }

  /** The wall clock of a date built from fields with an in-range month is its day number in seconds plus the time of day. */
  lemma LocalOfDate(c: DateTime, loc: Location)
    requires 1 <= c.month <= 12
    ensures Local(DateOf(c, loc)) == DayNumber(CivilDate(c.year, c.month, c.day)) * SecondsPerDay
                                     + (c.hour * SecondsPerHour + c.minute * SecondsPerMinute + c.second)
  {
    MonthStartOf(c.year, c.month);
  }

  /** The fields of the wall clock at a given hour, minute and second of day `z` after the epoch. */
  lemma CivilOfDay(x: int, z: int, h: int, mi: int, s: int)
    requires 0 <= h < 24 && 0 <= mi < 60 && 0 <= s < 60
    requires x == z * SecondsPerDay + (h * SecondsPerHour + mi * SecondsPerMinute + s)
    ensures var d := CivilFromDays(z); Civil(x) == DateTime(d.year, d.month, d.day, h, mi, s)
  {
    ClockFields(h, mi, s);
    DayDivMod(x, z, h * SecondsPerHour + mi * SecondsPerMinute + s);
  }

  lemma DayDivMod(x: int, q: int, r: int)
    requires 0 <= r < SecondsPerDay && x == q * SecondsPerDay + r
    ensures x / SecondsPerDay == q && x % SecondsPerDay == r
  {
  }

  /** A valid hour, minute and second are recovered from their time of day. */
  lemma ClockFields(h: int, m: int, s: int)
    requires 0 <= h < 24 && 0 <= m < 60 && 0 <= s < 60
    ensures var sod := h * SecondsPerHour + m * SecondsPerMinute + s;
      0 <= sod < SecondsPerDay && sod / SecondsPerHour == h &&
      sod % SecondsPerHour / SecondsPerMinute == m && sod % SecondsPerMinute == s
  {
  }

  /** Two instants in one location with the same fields are the same instant. */
  lemma FieldsInjective(t: Time, u: Time)
    requires t.loc == u.loc && Fields(t) == Fields(u)
    ensures t == u
  {
    DateOfFields(t);
    DateOfFields(u);
  }

  // ---------------------------------------------------------------------------
  // Normalisation performed by Date

  /** A month number outside 1..12 carries into the year, month 13 being January of the next year. */
  lemma MonthCarry(year: int, month: int, day: int, hour: int, minute: int, second: int, loc: Location)
    ensures var k := 12 * year + (month - 1);
      Date(year, month, day, hour, minute, second, loc) == Date(k / 12, k % 12 + 1, day, hour, minute, second, loc)
    ensures Date(year, 13, day, hour, minute, second, loc) == Date(year + 1, 1, day, hour, minute, second, loc)
  {
  }

  /** The day after the last of a month is the first of the next month. */
  lemma DayCarry(year: int, month: int, hour: int, minute: int, second: int, loc: Location)
    requires 1 <= month <= 12
    ensures Date(year, month, DaysInMonth(year, month) + 1, hour, minute, second, loc)
         == Date(year, month + 1, 1, hour, minute, second, loc)
  {
    var k := 12 * year + (month - 1);
    MonthStartStep(k);
    MonthIndexSplit(year, month);
  }

  /** Hour 24 is 00:00 of the next day. */
  lemma HourCarry(year: int, month: int, day: int, loc: Location)
    ensures Date(year, month, day, 24, 0, 0, loc) == Date(year, month, day + 1, 0, 0, 0, loc)
  {
  }

  /** January 1 at midnight has the fields it was built from. */
  lemma JanuaryFirstFields(y: int, loc: Location)
    ensures Fields(Date(y, 1, 1, 0, 0, 0, loc)) == DateTime(y, 1, 1, 0, 0, 0)
  {
    FieldsOfDate(DateTime(y, 1, 1, 0, 0, 0), loc);
  }

  /** The fields of the first day of any (possibly out-of-range) month, after normalisation. */
  lemma FieldsOfMonthStart(year: int, month: int, loc: Location)
    ensures var k := 12 * year + (month - 1);
      Fields(Date(year, month, 1, 0, 0, 0, loc)) == DateTime(k / 12, k % 12 + 1, 1, 0, 0, 0)
  {
    var k := 12 * year + (month - 1);
    var y, m := k / 12, k % 12 + 1;
    MonthCarry(year, month, 1, 0, 0, 0, loc);
    assert Date(year, month, 1, 0, 0, 0, loc) == Date(y, m, 1, 0, 0, 0, loc);
    var c := DateTime(y, m, 1, 0, 0, 0);
    assert c.Valid();
    FieldsOfDate(c, loc);
  }

  // ---------------------------------------------------------------------------
  // Formatting

  /** The formatted string has sixteen characters and reads back as the fields, for years 0 to 9999. */
  lemma ScanFormat(t: Time)
    requires 0 <= Fields(t).year <= 9999
    ensures |Format(t)| == 16
    ensures Scan(Format(t)) == Some(Fields(t))
  {
    ScanFormatFields(Fields(t));
  }

  lemma ScanFormatFields(c: DateTime)
    requires c.Valid() && 0 <= c.year <= 9999
    ensures |FormatFields(c)| == 16
    ensures Scan(FormatFields(c)) == Some(c)
  {
    var s := FormatFields(c);
    assert |s| == 16 && s[8] == 'T' && s[15] == 'Z' &&
      AllDigits(s[0..4]) && AllDigits(s[4..6]) && AllDigits(s[6..8]) &&
      AllDigits(s[9..11]) && AllDigits(s[11..13]) && AllDigits(s[13..15]) &&
      ValueOf(s[0..4]) == c.year && ValueOf(s[4..6]) == c.month && ValueOf(s[6..8]) == c.day &&
      ValueOf(s[9..11]) == c.hour && ValueOf(s[11..13]) == c.minute && ValueOf(s[13..15]) == c.second
    by {
      var y, mo, d := PadInt(c.year, 4), PadInt(c.month, 2), PadInt(c.day, 2);
      var h, mi, se := PadInt(c.hour, 2), PadInt(c.minute, 2), PadInt(c.second, 2);
      PadIntReadBack(c.year, 4);
      PadIntReadBack(c.month, 2);
      PadIntReadBack(c.day, 2);
      PadIntReadBack(c.hour, 2);
      PadIntReadBack(c.minute, 2);
      PadIntReadBack(c.second, 2);
      assert s == y + mo + d + "T" + h + mi + se + "Z";
      SliceOfConcat(y, mo, d, h, mi, se);
    }
  }

  /** The positions of the seven fields in the sixteen-character layout. */
  lemma SliceOfConcat(y: string, mo: string, d: string, h: string, mi: string, se: string)
    requires |y| == 4 && |mo| == 2 && |d| == 2 && |h| == 2 && |mi| == 2 && |se| == 2
    ensures var s := y + mo + d + "T" + h + mi + se + "Z";
      |s| == 16 && s[8] == 'T' && s[15] == 'Z' &&
      s[0..4] == y && s[4..6] == mo && s[6..8] == d &&
      s[9..11] == h && s[11..13] == mi && s[13..15] == se
  {
  }

  /** Distinct instants in one location format differently, for years 0 to 9999. */
  lemma FormatInjective(t: Time, u: Time)
    requires t.loc == u.loc
    requires 0 <= Fields(t).year <= 9999 && 0 <= Fields(u).year <= 9999
    requires Format(t) == Format(u)
    ensures t == u
  {
    ScanFormat(t);
    ScanFormat(u);
    FieldsInjective(t, u);
  }
}
