# ptask: a Dafny model of the periodic-task list calculator

ptask is a small HTTP service. It answers a request with every matching
timestamp of a periodic task between two instants. The request has four
parameters:

- a period such as `1h`, `2d`, `1mo` or `1y`;
- a time zone;
- a start instant `T1`;
- an end instant `T2`.

This project models the three parts of the service that compute the answer:

- **reading the request** (`parsePeriod` and `GetListQueryParams`): the period
  token is split at its first letter. The text before the letter must be a
  64-bit integer, and the rest, lower-cased, must be one of the unit tokens
  `y`, `mo`, `d`, `h`. The parameters are checked in a fixed order, and the
  first one that fails decides the error;
- **the periodic task** (`NewPeriodicTask` and `getInvocationPoint`): the
  invocation point is the first boundary of the period's unit strictly after
  `T1`, on the wall clock of `T1`'s zone. The boundaries are the next January
  1, the next first of a month, the next midnight and the next whole hour. An
  unknown unit is an error;
- **the list** (`GetList`): starting at the invocation point, every point
  before `T2` is listed and then advanced by the period. Years, months and
  days use Go's `AddDate`; hours use a `time.Duration`. Each point is written
  in UTC with the layout `20060102T150405Z`.

The modules follow the program:

- `Constants` and `HttpErrors` hold the tokens, the timestamp layout and the
  four sentinel errors;
- `Utils` reads the request;
- `Domain` holds the task and the invocation point;
- `Steps`, `StepLemmas` and `Usecase` hold the list loop.

Modules for the Go standard library the core relies on:

- `Calendar` and `GoTime`: the proleptic Gregorian calendar, `time.Date` with
  Go's normalisation of out-of-range fields, the fields of an instant,
  `AddDate`, `Format`;
- `Decimal`: `strconv.Atoi` and `Itoa`;
- `Durations`: 64-bit `time.Duration` arithmetic.

Two modules hold the consequences:

- `Divergence`: the loop that never ends;
- `Conformance`: the repository's table tests, restated as lemmas.

The central results:

- the invocation point is proved to be the *least* boundary after `T1`
  (`Domain.IsNextBoundary`), not just some boundary;
- the listed points are proved to be exactly the boundaries `T1`'s first
  boundary plus `i` periods that fall before `T2`:
  - they strictly increase;
  - the `i`-th point is `i` periods on;
  - every such boundary before `T2` is listed at position `i`;
  - the loop stops at the first point not before `T2`.
- the listed strings read back as the points' UTC fields, so no timestamp is
  repeated.

## Model

| member | source | states |
|---|---|---|
| Utils.ParsePeriod | internal/utils/utils.go:60-81 | every failure is `ErrInvalidPeriod`; a success carries one of the four unit tokens and a value that fits in Go's 64-bit `int` |
| Utils.IndexOfLetter | internal/utils/utils.go:64 | the result is the position of the first letter (everything before it is not a letter), or none exactly when the string has no letter |
| Utils.Lower | internal/utils/utils.go:74 | lower-casing keeps the length and leaves no upper-case letter; each upper-case letter becomes its lower-case partner and every other character is kept |
| Utils.LowerFixed | internal/utils/utils.go:74 | a string is its own lower-casing exactly when it holds no upper-case letter |
| Utils.LowerIdempotent | internal/utils/utils.go:74 | lower-casing twice gives the same string as lower-casing once |
| Utils.NoLetterFails | internal/utils/utils.go:64-67 | a token with no letter, the empty token included, is rejected with `ErrInvalidPeriod` |
| Utils.BadValueFails | internal/utils/utils.go:69-72 | a token whose text before the first letter is not a decimal integer is rejected |
| Utils.BadUnitFails | internal/utils/utils.go:74-80 | a token whose unit, lower-cased, is not `y`, `mo`, `d` or `h` is rejected |
| Utils.ParsePeriodRoundTrip | internal/utils/utils.go:64-77 | any 64-bit value written in decimal and followed by a unit in any letter case parses back to that value and the lower-cased unit |
| Utils.ParsePeriodSplit | internal/utils/utils.go:64-77 | a token whose text before its first letter reads as an integer, and whose rest lower-cased is a unit token, is accepted with that value and the lower-cased rest as its type |
| Utils.ParsePeriodRejects | internal/utils/utils_test.go:80-88 | `""`, `"a"` and `"10w"` are rejected |
| Utils.ParsePeriodAccepts | internal/utils/utils_test.go:89-100 | `"1y"` and `"1h"` parse to one year and one hour |
| Utils.ParsePeriodIgnoresCase | internal/utils/utils_test.go:92-97 | `"1Mo"` and `"2D"` parse to one month and two days |
| Utils.ParsePeriodSigned | internal/utils/utils.go:69-77 | `"+1h"` parses to one hour, since `strconv.Atoi` takes a leading `+` |
| Utils.ParsePeriodPadded | internal/utils/utils.go:69-77 | `"01h"` parses to one hour, since `strconv.Atoi` takes leading zeros |
| Utils.GetListQueryParams | internal/utils/utils.go:24-58 | the request succeeds exactly when all four parameters do. Otherwise the error is that of the first failing parameter, in the order period, zone, start, end. On success both instants are the parsed ones, moved into the loaded zone |
| Decimal.Atoi | internal/utils/utils.go:69 | an accepted value always fits in 64 bits |
| Decimal.AtoiItoa | internal/utils/utils.go:69 | every 64-bit integer written by `Itoa` is read back by `Atoi` as itself |
| Domain.UnitOf | internal/ptask/domain/periodictask.go:52-72 | exactly the four tokens name a unit, and each names the unit whose token it is |
| Domain.NextBoundary | internal/ptask/domain/periodictask.go:53-69 | the `time.Date` call stays in the start's zone; that it is the least aligned instant after the start is `Domain.NextBoundaryIsFirst`, and its fields are `Domain.NextBoundaryFields` |
| Domain.GetInvocationPoint | internal/ptask/domain/periodictask.go:43-73 | it fails, with `ErrInvalidPeriod`, exactly for an unknown period type. Otherwise the result is the earliest instant after the start that lies on a boundary of the unit on the start's wall clock |
| Domain.NextBoundaryIsFirst | internal/ptask/domain/periodictask.go:53-69 | for every unit, the `time.Date` call the code makes is aligned to the unit, lies strictly after the start, and no aligned instant lies between them |
| Domain.NextBoundaryFields | internal/ptask/domain/periodictask.go:53-69 | the `time.Date` call's fields are the calendar's next boundary: the next year, the next month across year ends, or the next day across month and year ends |
| Domain.NewPeriodicTask | internal/ptask/domain/periodictask.go:25-41 | the task keeps the period and zone as given and holds the least boundary after the start. Its error is `ErrInvalidPeriod`, exactly for an unknown type |
| GoTime.DateOfFields | internal/ptask/domain/periodictask.go:54-68 | `time.Date` on an instant's own fields gives back that instant |
| GoTime.FieldsInjective | internal/ptask/domain/periodictask.go:54-68 | two instants of one zone with the same fields are the same instant |
| Calendar.CivilFromDays | internal/ptask/domain/periodictask.go:54-58 | the date found for a day number is a valid date whose day number is that number |
| Calendar.CivilFromDayNumber | internal/ptask/domain/periodictask.go:54-58 | reading a valid date's day number back gives the date |
| Steps.Step | internal/ptask/usecase/usecase.go:36-44 | one turn of the loop keeps the point's zone; its direction is `StepLemmas.StepSign` and the boundary it lands on is `StepLemmas.StepOrdinal` |
| StepLemmas.StepSign | internal/ptask/usecase/usecase.go:36-44 | one step of the loop moves the point forward exactly when the value is positive, and leaves it in place exactly when the value is zero |
| StepLemmas.StepOrdinal | internal/ptask/usecase/usecase.go:36-44 | a step from a boundary lands on a boundary exactly `v` units (years, months, days or hours) further on |
| StepLemmas.OrdinalOrder | internal/ptask/usecase/usecase.go:33 | boundaries of one zone are ordered in time as their unit counts are, and equal counts mean the same instant |
| Usecase.Advance | internal/ptask/usecase/usecase.go:36-44 | the loop body's `AddDate` in the unit's field, or `Add` of the 64-bit duration of `v` hours, is the model's step, for hour values a duration can hold |
| Usecase.Collect | internal/ptask/usecase/usecase.go:32-48 | for a step that moves forward, the collected strings are the rendered schedule; when the first point is not before `T2`, the list is empty |
| Usecase.GetList | internal/ptask/usecase/usecase.go:23-51 | it fails, with `ErrInvalidPeriod`, exactly for an unknown type. Otherwise it returns the rendered schedule from the least boundary after `T1`, or the empty list when that boundary is not before `T2` |
| Usecase.Run | internal/ptask/usecase/usecase.go:33 | the loop lists its start exactly when the start is before `T2`, and lists only points of the start's zone that are before `T2` |
| Usecase.ScheduleStops | internal/ptask/usecase/usecase.go:33 | the list is empty exactly when the first point is not before `T2`; otherwise it starts at the first point, and one more step from its last point is not before `T2` |
| Usecase.ScheduleStep | internal/ptask/usecase/usecase.go:36-44 | each listed point after the first is one step from the point before it |
| Usecase.ScheduleIncreasing | internal/ptask/usecase/usecase.go:32-48 | with a positive value the listed points strictly increase |
| Usecase.ScheduleOrdinals | internal/ptask/usecase/usecase.go:32-48 | from a boundary, the `i`-th listed point is the boundary `i * v` units on |
| Usecase.ScheduleComplete | internal/ptask/usecase/usecase.go:32-48 | every boundary `j * v` units after the first point that is before `T2` is listed, at position `j` |
| Usecase.HourSchedule | internal/ptask/usecase/usecase.go:44 | hour points are `i * v` hours after the first, and there are as many as the ceiling of the time to `T2` divided by the step |
| Usecase.RenderAll | internal/ptask/usecase/usecase.go:34 | the list has one string per point, in order; for years 0 to 9999 each string has 16 characters and reads back as its point's UTC fields |
| Usecase.Render | internal/ptask/usecase/usecase.go:34 | a listed string ends in the layout's literal `Z`; that it reads back as the point's UTC fields is `Usecase.RenderScan` |
| Usecase.RenderScan | internal/ptask/usecase/usecase.go:34 | a listed timestamp has 16 characters and reads back as the point's UTC fields, for years 0 to 9999 |
| Usecase.RenderInjective | internal/ptask/usecase/usecase.go:34 | two points listed with the same timestamp are the same instant, for years 0 to 9999 |
| Usecase.ListDistinct | internal/ptask/usecase/usecase.go:32-48 | no timestamp appears twice in a list, for years 0 to 9999 |
| GoTime.ScanFormat | internal/constants/constants.go:5 | an instant formatted in the layout `20060102T150405Z` reads back as its fields, for years 0 to 9999 |
| GoTime.FormatInjective | internal/constants/constants.go:5 | two instants of one zone with the same formatted timestamp are the same instant, for years 0 to 9999 |
| Divergence.LoopNeverEnds | internal/ptask/usecase/usecase.go:33-47 | with a value of zero or below (for hours, no further below than -2562047) and a first point before `T2`, no number of turns of the loop reaches `T2`, within the magnitudes where `AddDate` does not overflow (see `Steps.Step` under "Left out") |
| Durations.HourDurationExact | internal/ptask/usecase/usecase.go:44 | for up to 2562047 hours either way the 64-bit duration is exact, and in seconds it is `v` hours |
| Durations.HourDurationNegative | internal/ptask/usecase/usecase.go:44 | from 2562048 to 5124095 hours the 64-bit duration wraps to a negative one, at least 2073 seconds backwards |
| Durations.HourDurationPositive | internal/ptask/usecase/usecase.go:44 | from -2562048 to -5124095 hours the 64-bit duration wraps to a positive one, at least 2073 seconds forwards |
| Durations.WrappingForwardDuration | internal/ptask/usecase/usecase.go:44 | at -2562048 hours the duration is about 292 years forwards and not a whole number of seconds |
| Durations.WrapSignAlternates | internal/ptask/usecase/usecase.go:44 | past 5124095 hours the duration wraps more than once: 5124096 hours is a forward step of about 1526 seconds and 7686144 hours a backward one |
| Durations.WrappingPeriodParses | internal/utils/utils.go:69-77 | the parser accepts `2562048h`, the first hour value whose duration wraps |
| Durations.WrappedLoopNeverEnds | internal/ptask/usecase/usecase.go:33-44 | with an hour value that wraps to a negative duration and a first point before `T2`, no number of turns of the loop reaches `T2` |
| Conformance.InvocationPointExamples | internal/ptask/domain/periodictask_test.go:31-75 | an unknown type is rejected. From 23:46:03 in Athens (+03:00), the next month, day and hour boundaries are August 1, July 29 and July 15 at midnight. The year case is left out |
| Conformance.MonthListExample | internal/ptask/usecase/usecase_test.go:48-54 | the `1mo` list has two points: 21:00 UTC on July 31 and on August 31 |
| Conformance.DailyFrom | internal/ptask/usecase/usecase.go:41-42 | from a midnight in Athens, the daily list is the next `n` midnights when `T2` falls after the `n`-th of them and no later than the one after |
| Conformance.DayListExample | internal/ptask/usecase/usecase_test.go:55-60 | the `1d` list has five points: 21:00 UTC on July 28, 29, 30 and 31 and on August 1 |
| Conformance.HourListExample | internal/ptask/usecase/usecase_test.go:61-68 | the `1h` list has sixteen points, an hour apart, from 21:00 UTC on July 14 to 12:00 UTC on July 15 |
| Conformance.YearlyFrom | internal/ptask/usecase/usecase.go:37-38 | from New Year's midnight of a year at +02:00, the yearly list is the next `n` New Year's midnights when `T2` falls after the `n`-th of them and no later than the one after |
| Conformance.YearListExample | internal/ptask/usecase/usecase_test.go:41-47 | the `1y` list has seven points: 22:00 UTC on December 31 of 2014 to 2020 |
| Conformance.RenderUtc | internal/ptask/usecase/usecase.go:34 | a point given by valid UTC fields is listed as exactly those fields in the layout, so the tests' strings follow from the points above |

## Left out

- HTTP handlers, routes, the server, middlewares, response writing and logging: they are I/O and carry no computation of the list. The `logger.Trace` calls in the core are dropped.
- Time zones: `Location` is a fixed UTC offset, with no daylight-saving rules. Go's `time.LoadLocation` returns IANA zones. As a result, the `1y` invocation-point test (periodictask_test.go:40-48) is not reproduced: its start is at +03:00 and its New Year at +02:00. The `1y` list test (usecase_test.go:41-47) is reproduced by `Conformance.YearListExample` at a fixed +02:00, the offset of every New Year's midnight it lists; the start's local date, July 14, is the same at +02:00 and +03:00.
- Utils.GetListQueryParams: `time.LoadLocation` and `time.Parse` are parameters (`loadLocation`, `parseTime`), since their zone database and layout parser are outside the core. The `fmt.Errorf("%w:%v", …)` wrapping keeps only the sentinel error.
- Utils.GetListQueryParams: instants are whole seconds. Go's `time.Parse` also accepts a fractional second after the seconds field, e.g. `20210802T123456.5Z`. Every listed point lies on a whole second, and the invocation point depends only on `T1`'s fields. So the model agrees with Go when `parseTime` truncates `T1` and rounds a fractional `T2` up to the next second; this rounding is assumed, not modelled.
- Utils.IsLetter: letters and lower-casing are ASCII only, where Go's `unicode.IsLetter` and `strings.ToLower` cover all of Unicode. No token changes its verdict, though: a non-ASCII letter is either inside the value, which `Atoi` rejects, or inside the unit, and no non-ASCII letter lower-cases to `y`, `mo`, `d` or `h`.
- GetList: requires that the loop's step moves forward, unless the first point is not before `T2`. This excludes, whenever the first point is before `T2`:
  - a value of zero or below, hour values down to -2562047 included: in Go the loop never ends (`Divergence.LoopNeverEnds`), within the magnitudes where `AddDate` does not overflow (see `Steps.Step` below);
  - hour values from 2562048 to 5124095, whose 64-bit duration wraps to a step backwards: in Go the loop never ends (`Durations.WrappedLoopNeverEnds`);
  - hour values from -5124095 to -2562048: their 64-bit duration wraps to a forward step of at least 2073 seconds (`Durations.HourDurationPositive`). That step is generally not a whole number of seconds (`Durations.WrappingForwardDuration`) and has no relation to the value. Go then ends with a finite list, often of one point, that the whole-second model of instants cannot represent;
  - hour values below -5124095 or above 5124095: the product wraps more than once, and the step can go either way (`Durations.WrapSignAlternates`). A backward step makes Go loop forever, and a forward one can be arbitrarily small and is generally not whole seconds. No result is promised for any of these values.
- Steps.Step: the year, month and day arithmetic of `AddDate` and `time.Date` uses unbounded integers. Go counts seconds since its epoch in an unsigned 64-bit integer, which wraps at absurd magnitudes. Examples are years beyond about 2.9e11 (the period `300000000000y`) and days beyond about 1.07e14. This wrap is not modelled. Its consequence for `GetList`:
  - with the period `213503982334601d`, which the parser accepts, Go's day step wraps to 25216 seconds backwards, so Go's loop never ends; yet the model's step moves forward, and `GetList` promises a finite list;
  - with `-213503982334601d`, Go's step wraps to 25216 seconds forwards and Go ends with a finite list, where `Divergence.LoopNeverEnds` describes the unwrapped step that never ends.
- Usecase.Collect: the loop's `default` branch (usecase.go:45-46) is not modelled. It cannot be reached, because the task exists only for one of the four unit tokens.
- Conformance.InvocationPointExamples: the start instants are stated as fields in a +03:00 zone rather than parsed from the tests' `2006-01-02 15:04:05 -0700 MST` strings, since parsing is left to the caller.
- Conformance.DayListExample: the five points are stated as UTC instants. Their strings follow from `Usecase.RenderAll` and `Conformance.RenderUtc`, rather than being spelled out as the literal strings of the test.

## Findings

| source | as written | input that shows it | evidently intended | confidence | as-written member | corrected member |
|---|---|---|---|---|---|---|
| internal/ptask/usecase/usecase.go:44 | `time.Duration(task.Period.Value) * time.Hour` is a 64-bit product of nanoseconds, and the parser accepts any 64-bit value | period `2562048h`: the step is about 292 years backwards, so every point stays before `T2` and the loop never ends | a positive hour value moves each point that many hours forward | not executed | Durations.WrappedLoopNeverEnds | StepLemmas.StepSign |
