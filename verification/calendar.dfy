/**
  The proleptic Gregorian calendar that Go's `time` package uses: leap years,
  month lengths, day numbers counted from 1970-01-01, and the conversion of a
  day number back to a civil (year, month, day).

  Months are also numbered absolutely: month index `k = 12 * year + (month - 1)`,
  so that "the month after" is `k + 1` across year ends.
 */
module Calendar {

  /** A civil date and wall-clock time, field by field, as `time.Time` reports it. */
  datatype DateTime = DateTime(year: int, month: int, day: int, hour: int, minute: int, second: int) {

    /** The fields are in their ordinary ranges. */
    predicate Valid() {
      1 <= month <= 12 && 1 <= day <= DaysInMonth(year, month) &&
      0 <= hour < 24 && 0 <= minute < 60 && 0 <= second < 60
    }
  }

  /** A civil date without a time of day. */
  datatype CivilDate = CivilDate(year: int, month: int, day: int)

  predicate IsLeap(y: int) {
    y % 4 == 0 && (y % 100 != 0 || y % 400 == 0)
  }

  function YearLength(y: int): int {
    if IsLeap(y) then 366 else 365
  }

  function DaysInMonth(y: int, m: int): int
    requires 1 <= m <= 12
  {
    if m == 2 then (if IsLeap(y) then 29 else 28)
    else if m == 4 || m == 6 || m == 9 || m == 11 then 30
    else 31
  }

  /**
    Days from 1970-01-01 to January 1 of year `y` (negative before 1970).

    Here and in the searches below, the argument of the recursive call is bound
    with `:|` instead of being written inline. The value is the same, but the
    solver then cannot unfold the recursion on a literal argument all the way
    to 1970; proofs about particular dates go through `DaysBeforeYearClosed`.
   */
  function DaysBeforeYear(y: int): int
    decreases if y < 1970 then 1970 - y else y - 1970
  {
    if y == 1970 then 0
    else if y > 1970 then var p :| p == y - 1; DaysBeforeYear(p) + YearLength(p)
    else var n :| n == y + 1; DaysBeforeYear(n) - YearLength(y)
  }

  /** Days from January 1 of year `y` to the first of month `m`; `m == 13` is the next January. */
  function DaysBeforeMonth(y: int, m: int): int
    requires 1 <= m <= 13
  {
    if m == 1 then 0 else DaysBeforeMonth(y, m - 1) + DaysInMonth(y, m - 1)
  }

  /** Day number (days since 1970-01-01) of the first of month `m` of year `y`. */
  function FirstOfMonth(y: int, m: int): int
    requires 1 <= m <= 13
  {
    DaysBeforeYear(y) + DaysBeforeMonth(y, m)
  }

  /** Day number of the first day of absolute month `k`. */
  function MonthStart(k: int): int {
    FirstOfMonth(k / 12, k % 12 + 1)
  }

  /** Day number of a valid civil date. */
  function DayNumber(d: CivilDate): int
    requires 1 <= d.month <= 12
  {
    DaysBeforeYear(d.year) + DaysBeforeMonth(d.year, d.month) + d.day - 1
  }

  /** The civil date that follows a valid civil date. */
  function NextDay(d: CivilDate): (n: CivilDate)
    requires 1 <= d.month <= 12 && 1 <= d.day <= DaysInMonth(d.year, d.month)
  {
    if d.day < DaysInMonth(d.year, d.month) then CivilDate(d.year, d.month, d.day + 1)
    else if d.month < 12 then CivilDate(d.year, d.month + 1, 1)
    else CivilDate(d.year + 1, 1, 1)
  }

  // ---------------------------------------------------------------------------
  // Year and month starts are increasing

  /** Consecutive years are one year length apart. */
  lemma YearStep(y: int)
    ensures DaysBeforeYear(y + 1) == DaysBeforeYear(y) + YearLength(y)
  {
  }

  /** Day numbers of year starts grow by at least 365 a year. */
  lemma {:induction false} DaysBeforeYearMono(a: int, b: int)
    requires a <= b
    ensures DaysBeforeYear(a) + 365 * (b - a) <= DaysBeforeYear(b)
    decreases b - a
  {
    if a < b {
      DaysBeforeYearMono(a, b - 1);
      YearStep(b - 1);
    }
  }

  /** Month starts within a year are increasing, and month 13 closes the year. */
  lemma {:induction false} DaysBeforeMonthMono(y: int, m: int, n: int)
    requires 1 <= m <= n <= 13
    ensures DaysBeforeMonth(y, m) + 28 * (n - m) <= DaysBeforeMonth(y, n)
    decreases n - m
  {
    if m < n {
      DaysBeforeMonthMono(y, m, n - 1);
    }
  }

  lemma DaysBeforeMonthTotal(y: int)
    ensures DaysBeforeMonth(y, 13) == YearLength(y)
  {
    var leap := if IsLeap(y) then 1 else 0;
    assert DaysBeforeMonth(y, 2) == 31;
    assert DaysBeforeMonth(y, 3) == 59 + leap;
    assert DaysBeforeMonth(y, 4) == 90 + leap;
    assert DaysBeforeMonth(y, 5) == 120 + leap;
    assert DaysBeforeMonth(y, 6) == 151 + leap;
    assert DaysBeforeMonth(y, 7) == 181 + leap;
    assert DaysBeforeMonth(y, 8) == 212 + leap;
    assert DaysBeforeMonth(y, 9) == 243 + leap;
    assert DaysBeforeMonth(y, 10) == 273 + leap;
    assert DaysBeforeMonth(y, 11) == 304 + leap;
    assert DaysBeforeMonth(y, 12) == 334 + leap;
  }

  /** Leap years among 1 to `n`, counted by the divisibility rules. */
  function Leaps(n: int): int {
    n / 4 - n / 100 + n / 400
  }

  /** Counting leap years agrees with testing one year. */
  lemma LeapStep(y: int)
    ensures Leaps(y) == Leaps(y - 1) + (if IsLeap(y) then 1 else 0)
  {
    MultipleStep(y, 4);
    MultipleStep(y, 100);
    MultipleStep(y, 400);
    if y % 400 == 0 {
      CenturyDivisors(y);
    } else if y % 100 == 0 {
      assert y == 4 * (25 * (y / 100));
    }
  }

  lemma MultipleStep(y: int, k: int)
    requires k == 4 || k == 100 || k == 400
    ensures y / k == (y - 1) / k + (if y % k == 0 then 1 else 0)
  {
    if k == 4 {
    } else if k == 100 {
    } else {
    }
  }

  lemma CenturyDivisors(y: int)
    requires y % 400 == 0
    ensures y % 100 == 0 && y % 4 == 0
  {
    var m := y / 400;
    assert y == 100 * (4 * m);
    assert y == 4 * (100 * m);
  }

  /**
    The year starts counted one year at a time agree with the closed form that
    counts 365 days a year plus one per leap year since 1970.
   */
  lemma {:induction false} DaysBeforeYearClosed(y: int)
    ensures DaysBeforeYear(y) == 365 * (y - 1970) + Leaps(y - 1) - Leaps(1969)
    decreases if y < 1970 then 1970 - y else y - 1970
  {
    if y > 1970 {
      DaysBeforeYearClosed(y - 1);
      YearStep(y - 1);
      LeapStep(y - 1);
    } else if y < 1970 {
      DaysBeforeYearClosed(y + 1);
      YearStep(y);
      LeapStep(y);
    }
  }

  // ---------------------------------------------------------------------------
  // Absolute months

  lemma MonthIndexSplit(y: int, m: int)
    requires 1 <= m <= 12
    ensures (12 * y + (m - 1)) / 12 == y && (12 * y + (m - 1)) % 12 + 1 == m
  {
  }

  /** The month start of a valid (year, month) is the year start plus the month offset. */
  lemma MonthStartOf(y: int, m: int)
    requires 1 <= m <= 12
    ensures MonthStart(12 * y + (m - 1)) == DaysBeforeYear(y) + DaysBeforeMonth(y, m)
  {
    var k := 12 * y + (m - 1);
    MonthIndexSplit(y, m);
    var q, r := k / 12, k % 12 + 1;
    assert q == y && r == m;
    assert MonthStart(k) == FirstOfMonth(q, r);
  }

  /** The month after absolute month `k` starts one month length later. */
  lemma MonthStartStep(k: int)
    ensures MonthStart(k + 1) == MonthStart(k) + DaysInMonth(k / 12, k % 12 + 1)
  {
    var y, m := k / 12, k % 12 + 1;
    assert k == 12 * y + (m - 1);
    if m < 12 {
      MonthIndexSplit(y, m + 1);
    } else {
      MonthIndexSplit(y + 1, 1);
      YearStep(y);
      DaysBeforeMonthTotal(y);
    }
  }

  /** Month starts strictly increase with the month index, by at least 28 days a month. */
  lemma {:induction false} MonthStartMono(k: int, j: int)
    requires k <= j
    ensures MonthStart(k) + 28 * (j - k) <= MonthStart(j)
    decreases j - k
  {
    if k < j {
      MonthStartMono(k, j - 1);
      MonthStartStep(j - 1);
    }
  }

  /** Comparing month starts compares month indices. */
  lemma MonthStartOrder(k: int, j: int)
    ensures MonthStart(k) < MonthStart(j) <==> k < j
  {
    if k < j {
      MonthStartMono(k, j);
    } else {
      MonthStartMono(j, k);
    }
  }

  // ---------------------------------------------------------------------------
  // From a day number back to a civil date

  function YearUp(z: int, y: int): (r: int)
    requires DaysBeforeYear(y) <= z
    ensures DaysBeforeYear(r) <= z < DaysBeforeYear(r + 1)
    decreases z - DaysBeforeYear(y)
  {
    YearStep(y);
    if z < DaysBeforeYear(y + 1) then y else var n :| n == y + 1; YearUp(z, n)
  }

  function YearDown(z: int, y: int): (r: int)
    requires z < DaysBeforeYear(y + 1)
    ensures DaysBeforeYear(r) <= z < DaysBeforeYear(r + 1)
    decreases DaysBeforeYear(y + 1) - z
  {
    YearStep(y);
    if DaysBeforeYear(y) <= z then y else var p :| p == y - 1; YearDown(z, p)
  }

  /** The year whose days contain day number `z`. */
  function YearOf(z: int): (y: int)
    ensures DaysBeforeYear(y) <= z < DaysBeforeYear(y + 1)
  {
    var guess := 1970 + z / 366;
    if DaysBeforeYear(guess) <= z then YearUp(z, guess) else YearDown(z, guess - 1)
  }

  function MonthFrom(y: int, doy: int, m: int): (r: int)
    requires 1 <= m <= 12
    requires DaysBeforeMonth(y, m) <= doy < YearLength(y)
    ensures m <= r <= 12
    ensures DaysBeforeMonth(y, r) <= doy < DaysBeforeMonth(y, r + 1)
    decreases 12 - m
  {
    DaysBeforeMonthTotal(y);
    if doy < DaysBeforeMonth(y, m + 1) then m else var n :| n == m + 1; MonthFrom(y, doy, n)
  }

  /** The civil date found by searching for the year, then for the month, of day number `z`. */
  function CivilSearch(z: int): (d: CivilDate)
    ensures 1 <= d.month <= 12 && 1 <= d.day <= DaysInMonth(d.year, d.month)
    ensures DayNumber(d) == z
  {
    var y := YearOf(z);
    YearStep(y);
    var doy := z - DaysBeforeYear(y);
    var m := MonthFrom(y, doy, 1);
    CivilDate(y, m, doy - DaysBeforeMonth(y, m) + 1)
  }

  /** `d` is a valid civil date with day number `z`. */
  predicate IsCivilOf(d: CivilDate, z: int) {
    1 <= d.month <= 12 && 1 <= d.day <= DaysInMonth(d.year, d.month) && DayNumber(d) == z
  }

  lemma CivilOfUnique(z: int)
    ensures forall d: CivilDate, e: CivilDate {:trigger IsCivilOf(d, z), IsCivilOf(e, z)} :: IsCivilOf(d, z) && IsCivilOf(e, z) ==> d == e
  {
    forall d: CivilDate, e: CivilDate | IsCivilOf(d, z) && IsCivilOf(e, z)
      ensures d == e
    {
      DayNumberInjective(d, e);
    }
  }

  /** The civil date of day number `z`: the inverse of `DayNumber`. */
  function CivilFromDays(z: int): (d: CivilDate)
    ensures 1 <= d.month <= 12 && 1 <= d.day <= DaysInMonth(d.year, d.month)
    ensures DayNumber(d) == z
  {
    var w := CivilSearch(z);
    assert IsCivilOf(w, z);
    CivilOfUnique(z);
    var d :| IsCivilOf(d, z); d
  }

  /** Every valid civil date is what `CivilFromDays` returns for its day number. */
  lemma CivilFromDayNumber(d: CivilDate)
    requires 1 <= d.month <= 12 && 1 <= d.day <= DaysInMonth(d.year, d.month)
    ensures CivilFromDays(DayNumber(d)) == d
  {
    DayNumberInjective(d, CivilFromDays(DayNumber(d)));
  }

  /** A valid civil date's day number lies in its year and in its month. */
  lemma DayNumberBracket(d: CivilDate)
    requires 1 <= d.month <= 12 && 1 <= d.day <= DaysInMonth(d.year, d.month)
    ensures DaysBeforeYear(d.year) <= DayNumber(d) < DaysBeforeYear(d.year + 1)
    ensures DaysBeforeMonth(d.year, d.month) <= DayNumber(d) - DaysBeforeYear(d.year) < DaysBeforeMonth(d.year, d.month + 1)
  {
    DaysBeforeMonthMono(d.year, 1, d.month);
    DaysBeforeMonthMono(d.year, d.month + 1, 13);
    DaysBeforeMonthTotal(d.year);
    YearStep(d.year);
  }

  /** Distinct valid civil dates have distinct day numbers. */
  lemma DayNumberInjective(d: CivilDate, e: CivilDate)
    requires 1 <= d.month <= 12 && 1 <= d.day <= DaysInMonth(d.year, d.month)
    requires 1 <= e.month <= 12 && 1 <= e.day <= DaysInMonth(e.year, e.month)
    requires DayNumber(d) == DayNumber(e)
    ensures d == e
  {
    var z := DayNumber(d);
    DayNumberBracket(d);
    DayNumberBracket(e);
    YearUnique(d.year, e.year, z);
    MonthUnique(d.year, d.month, e.month, z - DaysBeforeYear(d.year));
  }

  lemma YearUnique(a: int, b: int, z: int)
    requires DaysBeforeYear(a) <= z < DaysBeforeYear(a + 1)
    requires DaysBeforeYear(b) <= z < DaysBeforeYear(b + 1)
    ensures a == b
  {
    if a < b {
      DaysBeforeYearMono(a + 1, b);
    } else if b < a {
      DaysBeforeYearMono(b + 1, a);
    }
  }

  lemma MonthUnique(y: int, m: int, n: int, doy: int)
    requires 1 <= m <= 12 && 1 <= n <= 12
    requires DaysBeforeMonth(y, m) <= doy < DaysBeforeMonth(y, m + 1)
    requires DaysBeforeMonth(y, n) <= doy < DaysBeforeMonth(y, n + 1)
    ensures m == n
  {
    if m < n {
      DaysBeforeMonthMono(y, m + 1, n);
    } else if n < m {
      DaysBeforeMonthMono(y, n + 1, m);
    }
  }

  /** The day number of the next day is one more: `NextDay` agrees with counting days. */
  lemma NextDayNumber(d: CivilDate)
    requires 1 <= d.month <= 12 && 1 <= d.day <= DaysInMonth(d.year, d.month)
    ensures DayNumber(NextDay(d)) == DayNumber(d) + 1
  {
    if d.day == DaysInMonth(d.year, d.month) && d.month == 12 {
      YearStep(d.year);
      DaysBeforeMonthTotal(d.year);
    }
  }
}
