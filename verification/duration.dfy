/**
  Go's `time.Duration`: a signed 64-bit count of nanoseconds. The hour step of
  the list loop is `time.Duration(v) * time.Hour`, a 64-bit product that wraps
  around once `v` exceeds the number of hours a duration can hold.
 */
module Durations {
  import opened Wrappers
  import opened Decimal
  import opened GoTime
  import opened Domain
  import opened Utils
  import opened Steps
  import opened Divergence
  import Constants

  const NanosPerSecond: int := 1_000_000_000
  /** `time.Hour`. */
  const NanosPerHour: int := 3600 * NanosPerSecond
  const TwoTo64: int := 0x1_0000_0000_0000_0000

  /** Two's-complement wrap-around of a 64-bit result. */
  function Wrap64(x: int): (r: int)
    ensures InInt64(r)
    ensures InInt64(x) ==> r == x
  {
    (x - MinInt64) % TwoTo64 + MinInt64
  }

  /** `time.Duration(v) * time.Hour` in 64-bit arithmetic. */
  function HourDuration(v: int): (d: int)
    ensures InInt64(d)
  {
    Wrap64(v * NanosPerHour)
  }

  /** `MaxHours` is exactly the number of whole hours a 64-bit duration holds. */
  lemma MaxHoursIsLargest()
    ensures InInt64(MaxHours * NanosPerHour) && InInt64(-MaxHours * NanosPerHour)
    ensures !InInt64((MaxHours + 1) * NanosPerHour) && !InInt64(-(MaxHours + 1) * NanosPerHour)
  {
  }

  /** Up to `MaxHours` the duration is exact, and in whole seconds it is `v` hours. */
  lemma HourDurationExact(v: int)
    requires -MaxHours <= v <= MaxHours
    ensures HourDuration(v) == v * NanosPerHour
    ensures HourDuration(v) / NanosPerSecond == v * SecondsPerHour
  {
    assert -MaxHours * NanosPerHour <= v * NanosPerHour <= MaxHours * NanosPerHour;
  }

  /** Just past the limit the product wraps to a negative duration: `v` hours forward becomes a step back. */
  lemma HourDurationNegative(v: int)
    requires MaxHours < v <= 2 * MaxHours + 1
    ensures HourDuration(v) == v * NanosPerHour - TwoTo64
    ensures HourDuration(v) <= -2073709551616
  {
    assert (MaxHours + 1) * NanosPerHour <= v * NanosPerHour <= (2 * MaxHours + 1) * NanosPerHour;
    var x := v * NanosPerHour;
    assert 0 <= x - MinInt64 - TwoTo64 < TwoTo64;
    assert (x - MinInt64) % TwoTo64 == x - MinInt64 - TwoTo64;
  }

  /**
    Just past the limit below zero the product wraps the other way, to a positive
    duration: `v` hours back becomes a step forward of at least 2073 seconds.
   */
  lemma HourDurationPositive(v: int)
    requires -(2 * MaxHours + 1) <= v < -MaxHours
    ensures HourDuration(v) == v * NanosPerHour + TwoTo64
    ensures HourDuration(v) >= 2073709551616
  {
    assert -(2 * MaxHours + 1) * NanosPerHour <= v * NanosPerHour <= -(MaxHours + 1) * NanosPerHour;
    var x := v * NanosPerHour;
    assert 0 <= x - MinInt64 + TwoTo64 < TwoTo64;
    assert (x - MinInt64) % TwoTo64 == x - MinInt64 + TwoTo64;
  }

  /**
    The first value that wraps below zero gives a forward duration of about 292
    years that is not a whole number of seconds, so no whole-second step is Go's.
   */
  lemma WrappingForwardDuration()
    ensures HourDuration(-(MaxHours + 1)) == 9223371273709551616
    ensures HourDuration(-(MaxHours + 1)) % NanosPerSecond == 709551616
  {
    HourDurationPositive(-(MaxHours + 1));
  }

  /**
    Past 5124095 hours the product wraps more than once and its sign alternates:
    5124096 hours is a forward step of only about 1526 seconds, and 7686144 hours
    a step backwards.
   */
  lemma WrapSignAlternates()
    ensures HourDuration(2 * MaxHours + 2) == 1526290448384
    ensures HourDuration(3 * MaxHours + 3) < 0
  {
    assert (18446745600000000000 - MinInt64) % TwoTo64 == 18446745600000000000 - MinInt64 - TwoTo64;
    assert (27670118400000000000 - MinInt64) % TwoTo64 == 27670118400000000000 - MinInt64 - 2 * TwoTo64;
  }

  /** The parser accepts the first value that wraps, written in decimal with the hour token (`"2562048h"`). */
  lemma WrappingPeriodParses()
    ensures ParsePeriod(Itoa(MaxHours + 1) + Constants.Hour) == Success(Period(MaxHours + 1, Constants.Hour))
  {
    TokenRoundTrip(MaxHours + 1, Hour);
  }

  /** The first value that wraps gives a duration of about 292 years backwards. */
  lemma WrappingDuration()
    ensures HourDuration(MaxHours + 1) == -9223371273709551616
  {
    HourDurationNegative(MaxHours + 1);
  }

  /** The hour step as the loop computes it: the wrapped duration, in whole seconds. */
  function WrappedHourStep(v: int, t: Time): (r: Time)
    ensures r.loc == t.loc
  {
    Time(t.unix + HourDuration(v) / NanosPerSecond, t.loc)
  }

  /**
    With a value just past the limit the hour loop never ends: every point the
    loop reaches is still before `t2`, although `v` is positive.
   */
  lemma WrappedLoopNeverEnds(v: int, p: Time, t2: Time, n: nat)
    requires MaxHours < v <= 2 * MaxHours + 1 && Before(p, t2)
    ensures Before(Iterate(t => WrappedHourStep(v, t), p, n), t2)
  {
    HourDurationNegative(v);
    var next := (t: Time) => WrappedHourStep(v, t);
    assert NeverAdvances(next);
    IterateNeverAdvances(next, p, n);
  }
}
