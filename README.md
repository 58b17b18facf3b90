# Business-calendar core of the "Task & Productivity Analyzer"

This project models the date and time logic of `app.py`, a dashboard that reads
a spreadsheet of tickets and measures how long each took in working days.

- **Interval resolver** (`calculate_working_days`). It parses two timestamp
  cells against eight formats, trying them in order. It snaps the start
  forward and the end backward onto working time. Then it walks day by day,
  adding up each working day's share. The result is the number of working
  seconds divided by the length of the daily working window.
- **Capacity** (`calculate_total_working_hours`). The working hours in a
  range of dates: a full window for every weekday that is not a holiday.
- **Date presets** (`get_date_range`). A preset name such as "Last Week",
  turned into a range of dates relative to today.
- **Productivity assessment** (lines 288-292 of `main`). Time spent as a
  percentage of the time available, and a three-way assessment of it.

Dates are Python ordinals (`date.toordinal()`, 0001-01-01 is day 1), and the
weekday is `(d + 6) % 7` with Monday 0. A timestamp is a day number and a
second of the day. A calendar is a working window of whole minutes (the
app's time pickers give hours and minutes) and a finite set of holiday dates.

The modules, in dependency order:

- `Wrappers`: the `Option` type.
- `CivilDate`: (year, month, day) to day number, leap years, month lengths.
- `BusinessCalendar`: the calendar and the reference measure `WorkingSeconds`. It is
  the part of an interval that lies in some working day's window, summed day
  by day.
- `TimestampParser`: `str.strip`, the eight formats, a fixed-width
  `strptime`, the first-match loop, and a `strftime` used to state
  round trips.
- `IntervalResolver`: the snaps, the day walk and the division. There are
  methods for the three loops, each proved equal to a specification function,
  and lemmas that tie the result to `WorkingSeconds`.
- `ResolutionExamples`: worked examples on the default 09:30-18:30 calendar.
- `Capacity`: the capacity loop and its relation to the resolver's measure.
- `DatePresets`: the presets, with today as a parameter.
- `Productivity`: the percentage and the assessment.

Several `replace(hour=..., minute=...)` calls in the resolver keep the
timestamp's seconds. `IntervalResolver.SecondsRule` makes this a parameter.
`CarrySeconds` is the code as written. `ZeroSeconds` sets the seconds to zero
at the same steps, as lines 101 and 112 already do. One proof covers both
rules: the result equals `WorkingSeconds` divided by the window whenever no
seconds are carried. For the code as written that holds for whole-minute
timestamps, and for the corrected rule it holds for every timestamp.

The day walk adds `min(end, day_end) - max(current, day_start)` without
clamping it at zero (app.py:129). The model does the same.
`IntervalResolver.SumFromNonNegative` shows that the sum is never negative
anyway, because the walk always starts inside working hours.

## Model

| member | source | states |
|---|---|---|
| CivilDate.DayBeforeFirstOfMonth | app.py:72 | the day before the first of a month is the last day of the month before, across a year boundary too |
| CivilDate.Ordinal | app.py:72 | `date.toordinal()`: the days of the years and months before the date, plus its day of the month, counted from 0001-01-01 as day 1 (no contract of its own; DayBeforeFirstOfMonth states its property) |
| CivilDate.PreviousMonth | app.py:72 | the month before a month is a month, one month earlier |
| BusinessCalendar.Weekday | app.py:100 | `weekday()` is 0 to 6 |
| BusinessCalendar.IsWorkingDay | app.py:126 | the test of app.py:100, 111, 126 and 141: a weekday (Monday to Friday) that is not a holiday (a predicate; no contract of its own) |
| BusinessCalendar.WindowSeconds | app.py:132-133 | `working_seconds_per_day`: positive exactly when the calendar is well formed (work end after work start), the truth of the `> 0` guard, and then at least one minute |
| BusinessCalendar.DayStart | app.py:127 | `datetime.combine(date, work_start_time)` as an instant (no contract of its own; `IntervalResolver.SumFrom` and `Overlap` use it) |
| BusinessCalendar.DayEnd | app.py:128 | `datetime.combine(date, work_end_time)` as an instant (no contract of its own; `IntervalResolver.SumFrom` and `Overlap` use it) |
| BusinessCalendar.Overlap | app.py:126-129 | a day's share of an interval is zero on a weekend or holiday, never more than the interval or the window, and the whole window when the interval covers it |
| BusinessCalendar.NoWorkUntilNextDay | app.py:100-101 | from a time on a non-working day, or at or after work end, up to the next day's work start there is no working time |
| BusinessCalendar.NoWorkUntilDayStart | app.py:103-104 | from a time at or before work start up to that day's work start there is no working time |
| BusinessCalendar.NoWorkSincePreviousDay | app.py:111-112 | from the previous day's work end up to a time on a non-working day, or at or before work start, there is no working time |
| BusinessCalendar.NoWorkSinceDayEnd | app.py:114-115 | from a day's work end up to a later time on that day there is no working time |
| BusinessCalendar.WorkDaysTrim | app.py:99-119 | cutting stretches without work off both ends of an interval leaves its working time unchanged |
| BusinessCalendar.WorkDaysAddHoliday | app.py:126 | making one more date a holiday removes exactly that day's share and nothing else |
| BusinessCalendar.WorkingSecondsOverRange | app.py:125 | days outside the interval's own dates add nothing to its working time |
| TimestampParser.Strip | app.py:80 | `strip()` returns a slice of the text, with only white space cut off at either end and no white space left at its ends |
| TimestampParser.StripIdempotent | app.py:80 | stripping twice is stripping once |
| TimestampParser.Build | app.py:90 | the fields give a timestamp exactly when they are a real date in years 1 to 9999 at a valid time of day, and the timestamp is the ordinal and the second of that date and time |
| TimestampParser.Match | app.py:90 | `strptime(text, fmt)` for one format: read the format's fields from the whole text, starting from the defaults 1900-01-01 00:00:00, then build the datetime; None stands for the ValueError (no contract of its own; ScanConsumesAll, ScanRender and MatchRendered state its properties) |
| TimestampParser.TwelveHourClock | app.py:82 | reading `%I` and `%p` gives back the hour of the day, midnight and noon included |
| TimestampParser.TwelveHourFormatRead | app.py:82 | `%d/%m/%Y %I:%M %p` reads every field of a printed datetime except the 24-hour clock and the seconds |
| TimestampParser.TwelveHourRoundTrip | app.py:82 | `%d/%m/%Y %I:%M %p` reads back the date and the time it writes, to the minute |
| TimestampParser.TwelveHourSlash | app.py:82 | text that `%d/%m/%Y %I:%M %p` accepts has a slash after two characters |
| TimestampParser.TwelveHourWins | app.py:81-91 | text that `%d/%m/%Y %I:%M %p` accepts is parsed by that format |
| TimestampParser.TwelveHourTextParses | app.py:80-91 | a date and time written with a 12-hour clock and AM/PM, day first, parses back to that date and time |
| TimestampParser.ClockSecondsReadBack | app.py:90 | the second of the day determines the hour, minute and second it came from |
| TimestampParser.FirstMatch | app.py:88-91 | the loop's result is None exactly when no format tried parses; otherwise it is the result of a format that parses, and every format before that one fails |
| TimestampParser.Parse | app.py:81-96 | no timestamp exactly when none of the eight formats parses the text |
| TimestampParser.ParseTimestamp | app.py:88-91 | the format loop returns what the first-match rule gives |
| TimestampParser.ParseTakesFirstFormat | app.py:88-91 | the first format in list order that parses decides the timestamp |
| TimestampParser.ScanConsumesAll | app.py:90 | a format accepts only text exactly as wide as the format |
| TimestampParser.WidthMismatchRejects | app.py:90 | text of another width fails the format |
| TimestampParser.YearFirstRejectsSlash | app.py:82-84 | a format that opens with `%Y` rejects text with a slash after two characters |
| TimestampParser.DayFirstSlash | app.py:83 | text that `%d/%m/%Y %H:%M` accepts has a slash after two characters |
| TimestampParser.FormatWidths | app.py:81-85 | every format reads 16 or 19 characters |
| TimestampParser.EarlierFormatsReject | app.py:82 | 16 characters with a slash at position 2 fail the first three formats |
| TimestampParser.DayFirstWins | app.py:81-95 | text that `%d/%m/%Y %H:%M` accepts is parsed by that format, whatever later formats would give |
| TimestampParser.ScanRender | app.py:90 | every format reads back, field by field, the text it writes |
| TimestampParser.MatchRendered | app.py:90 | parsing a format's own output gives the datetime of the fields read back |
| TimestampParser.PrintedRoundTrip | app.py:82 | `%Y-%m-%d %H:%M:%S` reads back a printed datetime exactly |
| TimestampParser.ParsePrinted | app.py:80-91 | a cell holding a datetime as Python prints it (`YYYY-MM-DD HH:MM:SS`) resolves to that datetime |
| TimestampParser.DayFirstRoundTrip | app.py:83 | `%d/%m/%Y %H:%M` reads back the date and the time to the minute |
| TimestampParser.MonthFirstRoundTrip | app.py:83 | `%m/%d/%Y %H:%M` reads back the date and the time to the minute |
| TimestampParser.AmbiguousTextIsDayFirst | app.py:81-95 | text written day first whose day is at most 12 would also read month first, as another date, but the parser reads it day first |
| TimestampParser.WrongLengthRejected | app.py:88-96 | text that is not 16 or 19 characters long after stripping gives no timestamp |
| IntervalResolver.Kept | app.py:104 | the seconds carried by `replace(hour, minute)` are below 60, and none under the corrected rule |
| IntervalResolver.SnapStart | app.py:99-108 | the snapped start is on a weekday that is not a holiday, inside [work start, work end), and not earlier than the start, on the same day or later |
| IntervalResolver.SnapEnd | app.py:110-119 | the snapped end is on a weekday that is not a holiday, inside (work start, work end] plus any carried seconds, and not later than the end, on the same day or earlier |
| IntervalResolver.MoveStartForward | app.py:99-108 | the `while True` start loop returns the snapped start |
| IntervalResolver.MoveEndBack | app.py:110-119 | the `while True` end loop returns the snapped end |
| IntervalResolver.SumWorkingSeconds | app.py:123-130 | the day walk returns the sum the walk specification gives |
| IntervalResolver.SumFromNonNegative | app.py:125-130 | from a cursor inside working hours the walk never sums to less than zero |
| IntervalResolver.ResolveParsed | app.py:97-133 | the result is non-negative; it is 0.0 when the start is not before the end, and also when the snapped start is not before the snapped end |
| IntervalResolver.Resolve | app.py:79-96 | the result is NaN exactly when a cell is missing or its stripped text matches none of the formats; a value is never negative |
| IntervalResolver.NextDayAtStart | app.py:106 | the day advance lands on the next day, at work start plus fewer than 60 carried seconds, and exactly at work start under the corrected rule |
| IntervalResolver.SumFrom | app.py:123-130 | the day walk as a function: stop once the cursor reaches the end; otherwise add `min(end, day_end) - max(cursor, day_start)` on a weekday that is not a holiday and move to the next day's work start (no contract of its own; SumFromMeasures and SumFromNonNegative state its properties) |
| IntervalResolver.CalculateWorkingDays | app.py:77-133 | `calculate_working_days` returns the resolution time that Resolve specifies |
| IntervalResolver.SnapStartSkipsNoWork | app.py:99-108 | with no seconds carried, the time the start snap skips holds no work, and the snapped start carries no seconds |
| IntervalResolver.SnapEndSkipsNoWork | app.py:110-119 | with no seconds carried, the time the end snap skips holds no work, and the snapped end is at or before work end |
| IntervalResolver.SumFromMeasures | app.py:123-130 | from inside working hours without carried seconds, the day walk adds up exactly the working seconds up to the end |
| IntervalResolver.TrimmedIntervalMeasure | app.py:97-130 | the walk between the trimmed ends counts the working seconds of the whole interval |
| IntervalResolver.ResolveMeasuresWorkingTime | app.py:97-133 | when no seconds are carried, the result is the working seconds between the two timestamps divided by the window |
| IntervalResolver.WholeMinutesMeasured | app.py:97-133 | the code as written measures whole-minute timestamps exactly |
| IntervalResolver.ZeroedSecondsMeasured | app.py:97-133 | with the seconds zeroed, every pair of timestamps is measured exactly |
| IntervalResolver.SnapStartFromDayStart | app.py:100-102 | from a work start the start snap lands on the work start of the first working day, skipping only non-working days |
| IntervalResolver.SnapStartAtWorkEnd | app.py:105-107 | a start exactly at work end moves to the next working day's work start, because the test is "at or after" |
| IntervalResolver.SnapEndFromDayEnd | app.py:111-113 | from a work end the end snap lands on the work end of the last working day, skipping only non-working days |
| IntervalResolver.SnapEndAtWorkStart | app.py:116-118 | an end exactly at work start moves to the previous working day's work end, because the test is "at or before" |
| IntervalResolver.SnapStartIdempotent | app.py:99-108 | snapping a snapped start changes nothing |
| IntervalResolver.SnapEndIdempotent | app.py:110-119 | snapping a snapped end changes nothing, even with seconds carried past work end |
| IntervalResolver.HolidayRemovesWindow | app.py:126 | a working day strictly inside the interval that becomes a holiday removes one full window of working seconds |
| IntervalResolver.HolidayRemovesOneDay | app.py:100-133 | such a holiday lowers the resolution time by exactly 1.0 |
| ResolutionExamples.ExampleDates | app.py:126 | the day numbers of the examples are the `toordinal()` of 2024-01-02, -03, -05 and -08, and their `weekday()` is Tuesday, Wednesday, Friday and Monday |
| ResolutionExamples.TuesdayIsOneDay | app.py:123-133 | on 09:30-18:30, Tuesday 09:30 to Tuesday 18:30 is exactly 1.0 |
| ResolutionExamples.FridayEveningToMonday | app.py:110-133 | Friday 17:00 to Monday 09:00 gives 1.5 hours out of 9, that is 1/6 |
| ResolutionExamples.CarriedSecondsAreLost | app.py:130 | Tuesday 10:00:30 to Wednesday 18:30:00 holds 62970 working seconds; the code as written counts 62940, the corrected rule 62970 |
| Capacity.HoursPerDay | app.py:137 | the hours per day are positive exactly when work start is before work end |
| Capacity.Repeat | app.py:139-142 | the hours added up once per working day are never negative when the hours per day are not |
| Capacity.CountWorkingDays | app.py:140-143 | the working days of a range are never more than its dates |
| Capacity.AvailableHours | app.py:135-144 | capacity is never negative, and 0 for a degenerate window, a missing date or an end before the start |
| Capacity.CalculateTotalWorkingHours | app.py:135-144 | the capacity loop returns AvailableHours |
| Capacity.CountExtends | app.py:140-143 | one more date adds one exactly when it is a weekday and not a holiday |
| Capacity.RepeatIsProduct | app.py:140-143 | adding the hours per day once per working day is working days times hours per day |
| Capacity.CountMonotone | app.py:140-143 | more dates never count fewer working days |
| Capacity.RepeatMonotone | app.py:140-143 | adding a non-negative amount more times never gives less |
| Capacity.AvailableHoursMonotone | app.py:135-144 | a later end date never gives less capacity |
| Capacity.CountWithoutHolidays | app.py:141 | without holidays, the working days of a range are its weekdays |
| Capacity.WeekHasFiveWorkingDays | app.py:141 | seven consecutive dates without holidays hold five working days |
| Capacity.FullDaysMeasure | app.py:141-142 | over days whose windows lie inside an interval, the working seconds are one window per working day |
| Capacity.RepeatInSeconds | app.py:137-142 | n days of h hours are n windows of seconds |
| Capacity.CapacityIsWorkingTime | app.py:135-144 | capacity in seconds equals the resolver's working seconds from the first date's midnight to the midnight after the last date |
| DatePresets.MondayOf | app.py:62 | `today - weekday()` is a Monday in the same week, at most six days back |
| DatePresets.WeekEarlier | app.py:65 | a date seven days earlier has the same weekday |
| DatePresets.GetDateRange | app.py:54-75 | the six presets and only they give a range, which never ends after today and never starts after it ends; Today, Yesterday, This Week, Last Week (Monday to Sunday of the week before), This Month and Last Month (first to last day of the previous month, ending the day before this month's first) each give the range named |
| Productivity.ProductivityPercent | app.py:288 | the percentage is 0 without available time, and otherwise spent times 100 over available |
| Productivity.Assess | app.py:290-292 | Excellent exactly at 95 or more, Productive exactly from 80 to below 95, Needs Improvement exactly below 80 |
| Productivity.AssessMonotone | app.py:290-292 | a higher percentage never gets a worse assessment |
| Productivity.PercentMonotone | app.py:288 | with time available, more time spent never lowers the percentage |
| Productivity.FullTimeIsExcellent | app.py:288-292 | spending exactly the available time is 100 percent, which is Excellent |

## Left out

- The Streamlit page, CSS loading, widgets and tabs (app.py:12-16, 33-39 and `main`): presentation only.
- `load_data` (app.py:41-52): reading Excel through pandas, with caching. Cells come in as the `Cell` type: missing (NaN) or the text `str()` gives for the cell.
- The `holidays.MY` lookup, the state table and turning holiday strings back into dates: an external data source. The holidays are a given finite set of day numbers.
- The pandas filtering, grouping, means and CSV export around the core: library reductions over data frames.
- How the productivity inputs are computed (app.py:284-286): spent and available minutes are parameters.
- `TimestampParser.Match`: the model is a fixed-width `strptime`, not Python's. It reads 4 digits for `%Y` and 2 for the other numbers. Python's `strptime` also accepts one-digit fields ("2024-1-2 9:30:00"); decimal digits outside ASCII, since its `\d` matches any Unicode digit; and a tab or any run of white space where the format has one space, since that space becomes `\s+`. The model rejects all three.
- `TimestampParser.IsSpace`: covers the ASCII and Latin-1 white space that `str.isspace` accepts. Other Unicode spaces are not stripped.
- Microseconds: none of the eight formats reads them, so every parsed timestamp has none.
- Floating point: the final division, the capacity sum and the percentage are exact `real` arithmetic. Python's rounding is not modelled.
- `IntervalResolver.Resolve`, `IntervalResolver.ResolveParsed` and `IntervalResolver.CalculateWorkingDays` require work start before work end (`WellFormed`). With work end at or before work start the loops of app.py:99-119 behave differently. The start loop never stops for a start on a non-working day, or at or after work start (and so after work end): each step lands on work start again, which is at or after work end. A start on a working day before work start is lifted to work start, and the loop stops. The end loop stops for an end on a working day after work end. Whenever both loops stop, the result is 0.0, from app.py:121 or from the guard of app.py:133. The model covers neither the loops that never stop nor this 0.0. Capacity does handle a degenerate window.
- Datetime overflow: day numbers are unbounded. Python's `OverflowError` near 0001-01-01 and 9999-12-31 is not modelled, for example a snap past the last date or "Last Month" in January of year 1.
- `datetime.now()` (app.py:56): today is a parameter of `DatePresets.GetDateRange`.

## Findings

| source | as written | input that shows it | evidently intended | confidence | as-written member | corrected member |
|---|---|---|---|---|---|---|
| app.py:130 (also 104, 106) | `replace(hour=..., minute=...)` keeps the seconds of the timestamp it moves, so the day walk starts every later day at work start plus those seconds. Lines 115 and 117 keep the end's seconds too, but that never changes the result, because line 129 takes `min(end, day_end)` | calendar 09:30-18:30, start Tuesday 2024-01-02 10:00:30, end Wednesday 2024-01-03 18:30:00: 62970 working seconds, but the walk counts 62940 | the seconds set to zero, as lines 101 and 112 do, so the result is the working time between the timestamps | not executed | ResolutionExamples.CarriedSecondsAreLost | IntervalResolver.ZeroedSecondsMeasured |
