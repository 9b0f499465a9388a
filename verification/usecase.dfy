/**
  The list generator (`GetList`): from the invocation point, every point before
  the end instant, each the previous one advanced by the period, rendered in UTC
  with the timestamp layout.
 */
module Usecase {
  import opened Wrappers
  import opened GoTime
  import opened HttpErrors
  import opened Domain
  import opened Utils
  import opened Steps
  import opened StepLemmas
  import Durations

  /** `next` moves every instant strictly forward and keeps its location. */
  ghost predicate Advances(next: Time -> Time) {
    forall t: Time :: t.unix < next(t).unix && next(t).loc == t.loc
  }

  /**
    The points a loop `for p.Before(t2) { …; p = next(p) }` visits: `p` itself
    when it is before `t2`, then the points from `next(p)`.
   */
  function Run(next: Time -> Time, p: Time, t2: Time): (pts: seq<Time>)
    requires Advances(next)
    ensures |pts| > 0 <==> Before(p, t2)
    ensures |pts| > 0 ==> pts[0] == p
    ensures forall i :: 0 <= i < |pts| ==> pts[i].loc == p.loc && Before(pts[i], t2)
    decreases t2.unix - p.unix
  {
    if Before(p, t2) then [p] + Run(next, next(p), t2) else []
  }

  /** A positive value makes the step move forward. */
  lemma NextAdvances(u: Unit, v: int)
    requires v > 0
    ensures Advances(Next(u, v))
  {
    forall t: Time ensures t.unix < Next(u, v)(t).unix && Next(u, v)(t).loc == t.loc {
      StepSign(u, v, t);
    }
  }

  /**
    The loop's step moves forward as Go computes it: the value is positive and,
    for hours, no more than a `time.Duration` holds.
   */
  predicate StepsForward(u: Unit, v: int) {
    v > 0 && (u == Hour ==> v <= MaxHours)
  }

  /** The points `GetList` visits from `p` for a unit and a positive value. */
  function Schedule(u: Unit, v: int, p: Time, t2: Time): (pts: seq<Time>)
    requires v > 0
    ensures forall i :: 0 <= i < |pts| ==> pts[i].loc == p.loc && Before(pts[i], t2)
  {
    NextAdvances(u, v);
    Run(Next(u, v), p, t2)
  }

  /** A point as the list shows it: its UTC fields in the layout, which ends in the literal `Z`. */
  function Render(t: Time): (r: string)
    ensures |r| > 0 && r[|r| - 1] == 'Z'
  {
    Format(In(t, UTC))
  }

  /**
    The list's strings, one per point in order; each reads back as its point's
    UTC fields while the year stays within 0 to 9999.
   */
  function RenderAll(pts: seq<Time>): (r: seq<string>)
    ensures |r| == |pts| && forall i :: 0 <= i < |pts| ==> r[i] == Render(pts[i])
    ensures forall i :: 0 <= i < |pts| && 0 <= Fields(In(pts[i], UTC)).year <= 9999 ==>
      |r[i]| == 16 && Scan(r[i]) == Some(Fields(In(pts[i], UTC)))
  {
    RenderScanEach(pts);
    seq(|pts|, i requires 0 <= i < |pts| => Render(pts[i]))
  }

  /**
    `GetList`: build the task, then collect the rendered points while they are
    before `T2`. A task that cannot be built is the error returned.
   */
  method GetList(params: ListQueryParams) returns (r: Result<seq<string>, Error>)
    requires UnitOf(params.period.periodType).Some? ==>
      var u := UnitOf(params.period.periodType).value;
      StepsForward(u, params.period.value) || !Before(NextBoundary(u, params.t1), params.t2)
    ensures r.Failure? <==> UnitOf(params.period.periodType).None?
    ensures r.Failure? ==> r.error == InvalidPeriod
    ensures r.Success? && params.period.value > 0 ==>
      var u := UnitOf(params.period.periodType).value;
      r.value == RenderAll(Schedule(u, params.period.value, NextBoundary(u, params.t1), params.t2))
    ensures r.Success? && !Before(NextBoundary(UnitOf(params.period.periodType).value, params.t1), params.t2) ==>
      r.value == []
  {
    var task :- NewPeriodicTask(params.period, params.timezone, params.t1);
    var u := UnitOf(task.period.periodType).value;
    assert task.invocationPoint == NextBoundary(u, params.t1);
    var list := Collect(u, task.period.value, task.invocationPoint, params.t2);
    return Success(list);
  }

  /**
    The loop of `GetList`: while the point is before `t2`, list it and advance
    it by the unit's field of `AddDate`, or by a duration of hours. With a value
    of zero or below, or an hour step that wraps, the loop ends only if it
    never starts.
   */
  method Collect(u: Unit, v: int, start: Time, t2: Time) returns (list: seq<string>)
    requires StepsForward(u, v) || !Before(start, t2)
    ensures v > 0 ==> list == RenderAll(Schedule(u, v, start, t2))
    ensures !Before(start, t2) ==> list == []
  {
    if v > 0 {
      NextAdvances(u, v);
    }
    ghost var next := Next(u, v);
    var point := start;
    list := [];
    ghost var done: seq<Time> := [];
    while Before(point, t2)
      invariant StepsForward(u, v) || (point == start && done == [])
      invariant v > 0 ==> Run(next, start, t2) == done + Run(next, point, t2)
      invariant list == RenderAll(done)
      decreases t2.unix - point.unix
    {
      assert StepsForward(u, v);
      RunSnoc(next, start, point, t2, done);
      RenderAllSnoc(done, point);
      list := list + [Render(point)];
      done := done + [point];
      point := Advance(u, v, point);
    }
  }

  /**
    The step of the loop body: `AddDate` in the unit's field, or `Add` of the
    64-bit duration of `v` hours, in whole seconds.
   */
  method Advance(u: Unit, v: int, point: Time) returns (next: Time)
    requires u == Hour ==> -MaxHours <= v <= MaxHours
    ensures next == Next(u, v)(point)
  {
    match u
    case Year => next := AddYears(point, v);
    case Month => next := AddMonths(point, v);
    case Day => next := AddDays(point, v);
    case Hour =>
      Durations.HourDurationExact(v);
      next := Add(point, Durations.HourDuration(v) / Durations.NanosPerSecond);
  }

  lemma RenderAllSnoc(pts: seq<Time>, t: Time)
    ensures RenderAll(pts + [t]) == RenderAll(pts) + [Render(t)]
  {
  }

  // ---------------------------------------------------------------------------
  // The loop for any forward step

  /** Moving a point before `t2` from the points still to come to the points already listed. */
  lemma RunSnoc(next: Time -> Time, start: Time, p: Time, t2: Time, done: seq<Time>)
    requires Advances(next) && Before(p, t2)
    requires Run(next, start, t2) == done + Run(next, p, t2)
    ensures Run(next, start, t2) == (done + [p]) + Run(next, next(p), t2)
  {
    var rest := Run(next, next(p), t2);
    assert Run(next, p, t2) == [p] + rest;
    MoveOne(done, p, rest);
  }

  lemma MoveOne<T>(front: seq<T>, x: T, back: seq<T>)
    ensures front + ([x] + back) == (front + [x]) + back
  {
  }

  /** Each point is the step from the one before, and the step from the last is not before `t2`. */
  lemma {:induction false} RunSteps(next: Time -> Time, p: Time, t2: Time)
    requires Advances(next)
    ensures var pts := Run(next, p, t2);
      (forall i :: 0 <= i < |pts| - 1 ==> pts[i + 1] == next(pts[i])) &&
      (|pts| > 0 ==> !Before(next(pts[|pts| - 1]), t2))
    decreases t2.unix - p.unix
  {
    if Before(p, t2) {
      var q := next(p);
      RunSteps(next, q, t2);
      var pts := Run(next, p, t2);
      var rest := Run(next, q, t2);
      assert pts == [p] + rest;
      forall i | 0 <= i < |pts| - 1 ensures pts[i + 1] == next(pts[i]) {
        if i > 0 {
          assert pts[i] == rest[i - 1] && pts[i + 1] == rest[i];
        }
      }
    }
  }

  /** The points strictly increase, so none repeats. */
  lemma {:induction false} RunIncreasing(next: Time -> Time, p: Time, t2: Time)
    requires Advances(next)
    ensures forall i, j :: 0 <= i < j < |Run(next, p, t2)| ==> Run(next, p, t2)[i].unix < Run(next, p, t2)[j].unix
    decreases t2.unix - p.unix
  {
    if Before(p, t2) {
      var q := next(p);
      RunIncreasing(next, q, t2);
      var pts := Run(next, p, t2);
      var rest := Run(next, q, t2);
      assert pts == [p] + rest;
      forall i, j | 0 <= i < j < |pts| ensures pts[i].unix < pts[j].unix {
        assert pts[j] == rest[j - 1];
        if i > 0 {
          assert pts[i] == rest[i - 1];
        } else {
          assert p.unix < q.unix;
          if j > 1 {
            assert rest[0].unix < rest[j - 1].unix;
          }
        }
      }
    }
  }

  /** Each step keeps `f` and adds `v` to `g`. */
  ghost predicate Counts(next: Time -> Time, f: Time -> bool, g: Time -> int, v: int) {
    forall t: Time {:trigger next(t)} :: f(t) ==> f(next(t)) && g(next(t)) == g(t) + v
  }

  /** On instants of one location that satisfy `f`, `g` orders them as time does and tells them apart. */
  ghost predicate Ranks(f: Time -> bool, g: Time -> int) {
    forall a: Time, b: Time :: f(a) && f(b) && a.loc == b.loc ==>
      (a.unix < b.unix <==> g(a) < g(b)) && (g(a) == g(b) ==> a == b)
  }

  /** From a start satisfying `f`, every point satisfies `f` and the `i`-th has `g` grown by `i * v`. */
  lemma {:induction false} RunCounts(next: Time -> Time, p: Time, t2: Time, f: Time -> bool, g: Time -> int, v: int)
    requires Advances(next) && Counts(next, f, g, v) && f(p)
    ensures forall i :: 0 <= i < |Run(next, p, t2)| ==> f(Run(next, p, t2)[i]) && g(Run(next, p, t2)[i]) == g(p) + i * v
    decreases t2.unix - p.unix
  {
    if Before(p, t2) {
      var q := next(p);
      RunCounts(next, q, t2, f, g, v);
      var pts := Run(next, p, t2);
      var rest := Run(next, q, t2);
      assert pts == [p] + rest;
      forall i | 0 < i < |pts| ensures f(pts[i]) && g(pts[i]) == g(p) + i * v {
        assert pts[i] == rest[i - 1];
        MulPred(i, v);
      }
    }
  }

  /**
    Nothing is skipped: an instant `t` before `t2` satisfying `f`, in `p`'s
    location, whose `g` is `j` steps of `v` beyond `p`'s, is the `j`-th point.
   */
  lemma {:induction false} RunComplete(next: Time -> Time, p: Time, t2: Time, f: Time -> bool, g: Time -> int, v: int,
                                       t: Time, j: nat)
    requires Advances(next) && Counts(next, f, g, v) && Ranks(f, g) && v > 0
    requires f(p) && f(t) && t.loc == p.loc && Before(t, t2) && g(t) == g(p) + j * v
    ensures j < |Run(next, p, t2)| && Run(next, p, t2)[j] == t
    decreases j
  {
    MulNonNegative(j, v);
    assert p.unix <= t.unix;
    if j > 0 {
      var q := next(p);
      MulPred(j, v);
      assert g(t) == g(q) + (j - 1) * v;
      RunComplete(next, q, t2, f, g, v, t, j - 1);
      assert Run(next, p, t2) == [p] + Run(next, q, t2);
    }
  }

  lemma MulPred(i: int, v: int)
    ensures (i - 1) * v + v == i * v
  {
  }

  lemma MulNonNegative(j: nat, v: int)
    requires v > 0
    ensures j * v >= 0
  {
  }

  // ---------------------------------------------------------------------------
  // The schedule

  /** Each point after the first is one step from the point before it. */
  lemma ScheduleStep(u: Unit, v: int, p: Time, t2: Time, i: nat)
    requires v > 0 && 0 < i < |Schedule(u, v, p, t2)|
    ensures Schedule(u, v, p, t2)[i] == Step(u, v, Schedule(u, v, p, t2)[i - 1])
  {
    NextAdvances(u, v);
    RunSteps(Next(u, v), p, t2);
  }

  /** The schedule starts at `p` when `p` is before `t2`, and continues with the schedule from the step. */
  lemma ScheduleUnfold(u: Unit, v: int, p: Time, t2: Time)
    requires v > 0 && Before(p, t2)
    ensures Schedule(u, v, p, t2) == [p] + Schedule(u, v, Step(u, v, p), t2)
  {
    NextAdvances(u, v);
  }

  /** The step from the last point is not before `t2`: the loop stops at the first point it can. */
  lemma ScheduleStops(u: Unit, v: int, p: Time, t2: Time)
    requires v > 0
    ensures var pts := Schedule(u, v, p, t2);
      (|pts| > 0 <==> Before(p, t2)) && (|pts| > 0 ==> pts[0] == p && !Before(Step(u, v, pts[|pts| - 1]), t2))
  {
    NextAdvances(u, v);
    RunSteps(Next(u, v), p, t2);
  }

  /** With a positive step the points strictly increase. */
  lemma ScheduleIncreasing(u: Unit, v: int, p: Time, t2: Time)
    requires v > 0
    ensures var pts := Schedule(u, v, p, t2);
      forall i, j :: 0 <= i < j < |pts| ==> pts[i].unix < pts[j].unix
  {
    NextAdvances(u, v);
    RunIncreasing(Next(u, v), p, t2);
  }

  /** From a boundary, the `i`-th point is the boundary `i` periods later. */
  lemma ScheduleOrdinals(u: Unit, v: int, p: Time, t2: Time)
    requires v > 0 && Aligned(u, p)
    ensures var pts := Schedule(u, v, p, t2);
      forall i :: 0 <= i < |pts| ==> Aligned(u, pts[i]) && Ordinal(u, pts[i]) == Ordinal(u, p) + i * v
  {
    NextAdvances(u, v);
    NextCounts(u, v);
    RunCounts(Next(u, v), p, t2, t => Aligned(u, t), t => Ordinal(u, t), v);
  }

  /** A step keeps an instant on a boundary and adds the value to its ordinal. */
  lemma NextCounts(u: Unit, v: int)
    ensures Counts(Next(u, v), t => Aligned(u, t), t => Ordinal(u, t), v)
  {
    forall t: Time | Aligned(u, t) ensures Aligned(u, Next(u, v)(t)) && Ordinal(u, Next(u, v)(t)) == Ordinal(u, t) + v {
      StepOrdinal(u, v, t);
    }
  }

  /** The ordinal ranks boundaries of one location. */
  lemma OrdinalRanks(u: Unit)
    ensures Ranks(t => Aligned(u, t), t => Ordinal(u, t))
  {
    forall a: Time, b: Time | Aligned(u, a) && Aligned(u, b) && a.loc == b.loc
      ensures (a.unix < b.unix <==> Ordinal(u, a) < Ordinal(u, b)) && (Ordinal(u, a) == Ordinal(u, b) ==> a == b)
    {
      OrdinalOrder(u, a, b);
    }
  }

  /**
    Nothing is skipped: every boundary before `t2`, in `p`'s location, a whole
    number `j` of periods after the boundary `p`, is the `j`-th point.
   */
  lemma ScheduleComplete(u: Unit, v: int, p: Time, t2: Time, t: Time, j: nat)
    requires v > 0 && Aligned(u, p)
    requires Aligned(u, t) && t.loc == p.loc && Before(t, t2)
    requires Ordinal(u, t) == Ordinal(u, p) + j * v
    ensures j < |Schedule(u, v, p, t2)| && Schedule(u, v, p, t2)[j] == t
  {
    NextAdvances(u, v);
    NextCounts(u, v);
    OrdinalRanks(u);
    RunComplete(Next(u, v), p, t2, t => Aligned(u, t), t => Ordinal(u, t), v, t, j);
  }

  /**
    Hour steps are a fixed duration: the `i`-th point is `i * v` hours after the
    first, and the points stop at the first multiple of the step not before `t2`.
   */
  lemma HourSchedule(v: int, p: Time, t2: Time)
    requires v > 0
    ensures var pts := Schedule(Hour, v, p, t2); var d := v * SecondsPerHour;
      (forall i :: 0 <= i < |pts| ==> pts[i].unix == p.unix + i * d) &&
      (Before(p, t2) ==> (|pts| - 1) * d < t2.unix - p.unix <= |pts| * d)
  {
    var pts := Schedule(Hour, v, p, t2);
    var d := v * SecondsPerHour;
    NextAdvances(Hour, v);
    assert Counts(Next(Hour, v), (t: Time) => true, (t: Time) => t.unix, d);
    RunCounts(Next(Hour, v), p, t2, (t: Time) => true, (t: Time) => t.unix, d);
    ScheduleStops(Hour, v, p, t2);
    if Before(p, t2) {
      var n := |pts|;
      assert pts[n - 1].unix == p.unix + (n - 1) * d;
      assert (n - 1) * d + d == n * d;
    }
  }

  // ---------------------------------------------------------------------------
  // Rendering

  /** A listed timestamp reads back as the point's fields in UTC, for years 0 to 9999. */
  lemma RenderScan(t: Time)
    requires 0 <= Fields(In(t, UTC)).year <= 9999
    ensures |Render(t)| == 16 && Scan(Render(t)) == Some(Fields(In(t, UTC)))
  {
    ScanFormat(In(t, UTC));
  }

  /** `RenderScan` for every point of a list. */
  lemma RenderScanEach(pts: seq<Time>)
    ensures forall i :: 0 <= i < |pts| && 0 <= Fields(In(pts[i], UTC)).year <= 9999 ==>
      |Render(pts[i])| == 16 && Scan(Render(pts[i])) == Some(Fields(In(pts[i], UTC)))
  {
    forall i | 0 <= i < |pts| && 0 <= Fields(In(pts[i], UTC)).year <= 9999
      ensures |Render(pts[i])| == 16 && Scan(Render(pts[i])) == Some(Fields(In(pts[i], UTC)))
    {
      RenderScan(pts[i]);
    }
  }

  /** Different instants are listed as different timestamps, for years 0 to 9999. */
  lemma RenderInjective(a: Time, b: Time)
    requires 0 <= Fields(In(a, UTC)).year <= 9999 && 0 <= Fields(In(b, UTC)).year <= 9999
    requires Render(a) == Render(b)
    ensures a.unix == b.unix
  {
    FormatInjective(In(a, UTC), In(b, UTC));
  }

  /** Strictly increasing instants within years 0 to 9999 are listed as pairwise distinct timestamps. */
  lemma RenderDistinct(pts: seq<Time>)
    requires forall i, j :: 0 <= i < j < |pts| ==> pts[i].unix < pts[j].unix
    requires forall i :: 0 <= i < |pts| ==> 0 <= Fields(In(pts[i], UTC)).year <= 9999
    ensures var list := RenderAll(pts);
      forall i, j :: 0 <= i < j < |list| ==> list[i] != list[j]
  {
    forall i, j | 0 <= i < j < |pts| ensures Render(pts[i]) != Render(pts[j]) {
      if Render(pts[i]) == Render(pts[j]) {
        RenderInjective(pts[i], pts[j]);
      }
    }
  }

  /** The listed timestamps are pairwise distinct while the years stay within 0 to 9999. */
  lemma ListDistinct(u: Unit, v: int, p: Time, t2: Time)
    requires v > 0
    requires forall i :: 0 <= i < |Schedule(u, v, p, t2)| ==> 0 <= Fields(In(Schedule(u, v, p, t2)[i], UTC)).year <= 9999
    ensures var list := RenderAll(Schedule(u, v, p, t2));
      forall i, j :: 0 <= i < j < |list| ==> list[i] != list[j]
  {
    ScheduleIncreasing(u, v, p, t2);
    RenderDistinct(Schedule(u, v, p, t2));
  }
}
