# gostradamus: format-token translation and calendar operations in Dafny

This project models two parts of the Go date/time library gostradamus.

1. **The format-token translator** (`formatting.go`, `formats.go`). A
   symbolic layout such as `YYYY-MM-DD HH:mm:ss` is rewritten into Go's
   reference-time layout `2006-01-02 15:04:05`. The library does this with
   one regular expression: an alternation of the 24 tokens of
   `AllFormatTokens` in list order, applied with `ReplaceAllFunc`, where
   every match is looked up in `FormatTokenMap`. A match without an entry
   panics with `FormatToken: <tok> is not mapped`. The model replaces the
   regular expression with the scan it performs. Go's alternation is
   leftmost-first, so the model scans left to right. Where a token starts,
   the first listed token that matches there is replaced by its table entry,
   and the scan resumes after the token in the input. Elsewhere one
   character is copied. The panic becomes a `Failure` carrying the message.
2. **The `DateTime` value and its calendar operations** (`datetime.go`). A
   `DateTime` is an instant in integer nanoseconds since
   1970-01-01T00:00:00 plus the name of its zone. Every zone is read at
   offset zero. The host calendar that `time.Date`, `AddDate` and the field
   accessors rely on is written out in `calendar.dfy`. It converts between
   proleptic Gregorian dates and day counts, using March-based years and
   400-year eras. `TimeDate` models `time.Date`: the month carries into the
   year, the day counts on from the first of the month, and the clock fields
   carry upward. On top of it sit construction, the accessors, the unix
   timestamp, the shifts, the replacements, floors, ceilings, spans, the day
   of the week and `IsBetween`.

Files:
- `formatting.dfy`: module `Formatting`. Token constants, `FormatTokenMap`, `AllFormatTokens`, `ToStringSlice`, `FormatTokenRegex`, the scan `Translate` and `TranslateFormat`, and the laws of the scan.
- `formatting_vectors.dfy`: module `FormattingVectors`. Concrete translations.
- `formats.dfy`: module `Formats`. The `Iso8601`, `Iso8601TZ` and `CTime` layouts and their translations.
- `calendar.dfy`: module `Calendar`. The host calendar.
- `datetime.dfy`: module `DateTimes`. The operations of datetime.go and their laws.
- `datetime_vectors.dfy`: module `DateTimeVectors`. The examples of datetime_test.go.

The vocabulary has 24 tokens (formatting.go:112-137). A one-month shift from
January 31 normalises through `time.Date` into March.

## Model

| member | source | states |
|---|---|---|
| Formatting.TableInSync | formatting.go:85-137 | the list has 24 tokens, every listed token is a key of the table, and every key is listed |
| Formatting.TokensAreRuns | formatting.go:10-41 | every token repeats a single letter, one of Y M D d H h A a m s S Z z |
| Formatting.ToStringSlice | formatting.go:140-146 | the result has the length of the token list and holds each token's text at the same index |
| Formatting.FormatTokenRegex | formatting.go:148-150 | splitting the alternation at the bar character gives back the token texts in list order |
| Formatting.SplitJoin | formatting.go:148-150 | splitting a join at a separator no part contains returns the parts |
| Formatting.FirstMatchSpec | formatting.go:148-154 | the chosen alternative matches, no earlier listed token matches, and there is none only when no token matches |
| Formatting.FirstMatchAt | formatting.go:148-154 | the first match is determined by which tokens match |
| Formatting.AllFormatTokensLongestFirst | formatting.go:112-137 | no listed token is a proper prefix of a token listed after it |
| Formatting.FirstMatchIsLongest | formatting.go:148-154 | for any list where longer tokens come first, the first match is a longest match |
| Formatting.LongestMatch | formatting.go:112-154 | with the library's list, the token picked at a position is a longest token there |
| Formatting.FirstTokenAt | formatting.go:112-154 | at a run of n copies of a letter, the pick is the first listed token of that letter no longer than n |
| Formatting.NoTokenInRun | formatting.go:112-154 | a run shorter than every token of its letter starts no token |
| Formatting.FormatTokenIsNotMapped | errors.go:8-10 | the message is "FormatToken: " then the token then " is not mapped" |
| Formatting.TranslateTotal | formatting.go:152-164 | when every listed token has a table entry, translation never fails |
| Formatting.TranslateFailure | formatting.go:156-160 | a failure carries the unmapped-token message of a listed token that the table lacks |
| Formatting.TranslateFormat | formatting.go:152-164 | with the library's list and table the scan succeeds, and the result is its output |
| Formatting.TokenThenRest | formatting.go:112-164 | for every token of the library's list and any text that does not start with the token's letter, the token followed by the text becomes the token's Go directive followed by the text's translation: the directive is not rescanned |
| Formatting.NoTokenAt | formatting.go:112-137 | no token starts at a character that is not a token letter |
| Formatting.LiteralsUnchanged | formatting.go:152-164 | a layout without token letters translates to itself |
| Formatting.TranslateConcat | formatting.go:152-164 | two layouts that meet at a change of character translate to the two translations side by side |
| FormattingVectors.MonthFullVector | formatting.go:13-16 | "MMMM" becomes exactly "January"; the inserted "a" is not rescanned |
| FormattingVectors.MonthAbbrVector | formatting.go:13-16 | "MMM" becomes "Jan" |
| FormattingVectors.MonthZeroPaddedVector | formatting.go:13-16 | "MM" becomes "01" |
| FormattingVectors.MonthShortVector | formatting.go:13-16 | "M" becomes "1" |
| FormattingVectors.DayOfYearZeroPaddedVector | formatting.go:18-20 | "DDDD" becomes "002" |
| FormattingVectors.DayOfYearShortVector | formatting.go:18-20 | "DDD" becomes "02" followed by "2": DD matches first, then D |
| FormattingVectors.DayOfWeekFullNameVector | formatting.go:22-23 | "dddd" becomes "Monday" |
| FormattingVectors.TimezoneFullNameVector | formatting.go:39-41 | "ZZZ" becomes "MST" |
| FormattingVectors.UnmatchedRunVector | formatting.go:112-137 | a run of a letter shorter than every token of that letter is copied |
| FormattingVectors.ShortRunVectors | formatting.go:10-41 | "Y", "H", "z", "d" and "dd" are no tokens and each translates to itself |
| FormattingVectors.FormatTokenIsNotMappedVector | errors_test.go:9-15 | the message for the token "123" is "FormatToken: 123 is not mapped" |
| FormattingVectors.NoEscapingVector | formatting_test.go:15-19 | "testHH" becomes "te5t15": token letters inside words are replaced |
| FormattingVectors.DateVector | formatting_test.go:9-13 | "YYYY-MM-DD" becomes "2006-01-02" |
| FormattingVectors.ClockVector | formatting_test.go:9-13 | "HH:mm:ss" becomes "15:04:05" |
| FormattingVectors.DateTimeLayoutVector | formatting_test.go:21-27 | "YYYY-MM-DD HH:mm:ss" becomes "2006-01-02 15:04:05" |
| Formats.Iso8601Vector | formats.go:8 | Iso8601 becomes "2006-01-02T15:04:05.000000"; the "T" is copied |
| Formats.Iso8601TZVector | formats.go:15 | Iso8601TZ becomes "2006-01-02T15:04:05.000000Z0700" |
| Formats.CTimeVector | formats.go:21 | CTime becomes "Mon Jan 02 15:04:05 2006" |
| Formats.ZoneSuffixLayout | formats.go:15 | for any list and table, a trailing "Z" appends "Z0700" to the translation of the layout before it |
| Formats.Iso8601TZExtendsIso8601 | formats.go:8-15 | Iso8601TZ is Iso8601 + "Z", and its translation is Iso8601's translation + "Z0700" |
| Calendar.DaysIn | datetime.go:27-38 | months have 28 to 31 days, and February has 29 exactly in leap years |
| Calendar.NextMonth | datetime.go:27-38 | the following month starts the day after the last day of this one |
| Calendar.SplitEra | datetime.go:27-38 | a day of a 400-year era splits into a year of the era and a day of that year; a 366th day only in a leap year |
| Calendar.CivilFromDaysSound | datetime.go:27-38 | every day count names a valid date whose day count is the one given |
| Calendar.DaysFromCivilInverse | datetime.go:27-38 | a valid date converted to a day count and back is the same date |
| Calendar.YearLength | datetime.go:27-38 | a year lasts 366 days when it is a leap year and 365 days otherwise |
| Calendar.TimeDateNormal | datetime.go:27-38 | `time.Date` first carries the month into the year |
| Calendar.SplitInstant | datetime.go:107-139 | splitting an instant gives in-range fields that `time.Date` maps back to the instant |
| Calendar.CivilOf | datetime.go:107-139 | the fields of an instant are a valid reading of it |
| Calendar.ReadingUnique | datetime.go:107-139 | an instant has at most one valid reading |
| Calendar.CivilOfTimeDate | datetime.go:27-38 | the fields of `time.Date` on valid fields are those fields |
| Calendar.InstantOrder | datetime.go:27-38 | within a year, the instant grows with month, day and time of day |
| Calendar.LastDayBefore | datetime.go:358-364 | a day back from the first of the next month is the last day of this month, at the same time of day |
| DateTimes.NewDateTime | datetime.go:17-39 | the result is in the given zone, and valid fields are read back unchanged |
| DateTimes.NewUTCDateTime | datetime.go:42-61 | the result is in UTC, and valid fields are read back unchanged |
| DateTimes.NewDateTimeCarry | datetime.go:17-39 | a day up to 28 past the end of its month carries into the following month |
| DateTimes.FromUnixTimestamp | datetime.go:87-89 | the result is in UTC, its unix timestamp is the one given, and its nanosecond is 0, so it is the instant of exactly that many seconds |
| DateTimes.Month | datetime.go:112-114 | the month is between 1 and 12 |
| DateTimes.Day | datetime.go:117-119 | the day lies within the length of its month |
| DateTimes.Hour | datetime.go:122-124 | the hour is between 0 and 23 |
| DateTimes.Minute | datetime.go:127-129 | the minute is between 0 and 59 |
| DateTimes.Second | datetime.go:132-134 | the second is between 0 and 59 |
| DateTimes.Nanosecond | datetime.go:137-139 | the nanosecond is between 0 and 999999999 |
| DateTimes.IsoCalendar | datetime.go:218-220 | the triple is a valid date |
| DateTimes.UnixTimestamp | datetime.go:228-230 | the timestamp is the whole number of seconds at or before the instant |
| DateTimes.WeekDay | datetime.go:427-429 | the weekday is between 0 (Sunday) and 6 (Saturday) |
| DateTimes.WeekDayOfDate | datetime.go:427-429 | at every time of day the weekday is that of the calendar date: its day count since 1970-01-01, a Thursday, plus 4, modulo 7 |
| DateTimes.Copy | datetime.go:182-193 | rebuilding a value from its own fields and zone gives the value back |
| DateTimes.InTimezone | datetime.go:213-215 | the instant is kept, the zone is the new one, and at offset zero the fields stay |
| DateTimes.ShiftYears | datetime.go:235-237 | the year moves by the count; February 29 carries into March 1 in a non-leap year |
| DateTimes.ShiftMonths | datetime.go:242-244 | the month moves around the year carrying whole years, and a day past the new month's end carries into the month after |
| DateTimes.ShiftDays | datetime.go:249-251 | the instant moves by whole days |
| DateTimes.ParsedDuration | datetime.go:257 | an in-range count of nanoseconds is kept; one outside `time.Duration` becomes the zero duration |
| DateTimes.ShiftHours | datetime.go:256-259 | the instant moves by whole hours, or stays when the duration overflows; minute, second and nanosecond are kept |
| DateTimes.ShiftMinutes | datetime.go:264-267 | the instant moves by whole minutes, or stays on overflow; second and nanosecond are kept |
| DateTimes.ShiftSeconds | datetime.go:272-275 | the instant moves by whole seconds, or stays on overflow; the nanosecond is kept |
| DateTimes.ShiftMilliSeconds | datetime.go:280-283 | the instant moves by whole milliseconds, or stays on overflow; the sub-millisecond digits are kept |
| DateTimes.ShiftMicroSeconds | datetime.go:288-291 | the instant moves by whole microseconds, or stays on overflow; the sub-microsecond digits are kept |
| DateTimes.ShiftNanoseconds | datetime.go:296-299 | the instant moves by the count, or stays on overflow |
| DateTimes.Shift | datetime.go:304-312 | after the year, month and day steps, the clock steps add their durations to the instant, when each clock duration fits a `time.Duration` |
| DateTimes.ReplaceYear | datetime.go:432-443 | the year is set and every other field kept, except that February 29 carries in a non-leap year |
| DateTimes.ReplaceMonth | datetime.go:446-457 | the month is set with carry into the year, and a day past the new month's end carries into the month after |
| DateTimes.ReplaceDay | datetime.go:460-471 | the instant moves by whole days and the clock is kept; a day within the month is set exactly |
| DateTimes.ReplaceHour | datetime.go:474-485 | the instant moves by whole hours and the finer fields are kept; an hour in range is set exactly |
| DateTimes.ReplaceMinute | datetime.go:488-499 | the instant moves by whole minutes and the finer fields are kept; a minute in range is set exactly |
| DateTimes.ReplaceSecond | datetime.go:502-513 | the instant moves by whole seconds and the nanosecond is kept; a second in range is set exactly |
| DateTimes.ReplaceNanosecond | datetime.go:516-527 | the instant moves by the difference; a nanosecond in range is set exactly |
| DateTimes.Replace | datetime.go:530-538 | the chain is `time.Date` on the year and month the first two steps reach, and is `NewDateTime` on the given fields when those steps do not carry |
| DateTimes.ReplaceFromFirst | datetime.go:530-538 | from the first of a month, `Replace` with valid fields sets every field as given |
| DateTimes.ReplaceFields | datetime.go:530-538 | setting every field in one step reads valid fields back unchanged |
| DateTimes.ReplaceAgrees | datetime.go:530-538 | `Replace` equals the one-step rebuild whenever its year and month steps do not carry |
| DateTimes.ReplaceCarriesPastMonth | datetime.go:530-538 | from January 31 2020, replacing the month with 2 and the day with 1 gives March, not February |
| DateTimes.FloorYear | datetime.go:316-318 | the result is January 1 00:00 of the same year, at or before the value |
| DateTimes.FloorMonth | datetime.go:322-324 | the result is the first of the same month at 00:00, at or before the value |
| DateTimes.FloorDay | datetime.go:328-330 | the result is the same day at 00:00, the instant rounded down to a whole day |
| DateTimes.FloorHour | datetime.go:334-336 | the finer fields are reset, and the instant is rounded down to a whole hour |
| DateTimes.FloorMinute | datetime.go:340-342 | the finer fields are reset, and the instant is rounded down to a whole minute |
| DateTimes.FloorSecond | datetime.go:346-348 | the nanosecond is reset, and the instant is rounded down to a whole second |
| DateTimes.FloorsIdempotent | datetime.go:316-348 | flooring twice is flooring once, for every unit |
| DateTimes.CeilYear | datetime.go:352-354 | the result is December 31 23:59:59.999999999 of the same year, at or after the value |
| DateTimes.CeilMonth | datetime.go:358-364 | as written: the day is the last of the month unless the one-month shift carries, in which case it is the last day of the following month |
| DateTimes.CeilMonthAgrees | datetime.go:358-364 | `CeilMonth` is the month's last instant exactly when the day fits the following month, so always on days up to 28 |
| DateTimes.CeilMonthOverflows | datetime.go:358-364 | from January 31 2020, `CeilMonth` gives January 29, before the value |
| DateTimes.CeilMonthNotIdempotent | datetime.go:358-364 | from January 15 2020, `CeilMonth` gives January 31 23:59:59.999999999 and `CeilMonth` of that gives January 29: as written it is not idempotent |
| DateTimes.CeilMonthLastDay | datetime.go:356-364 | the last instant of the month: its last day at 23:59:59.999999999, at or after the value |
| DateTimes.CeilDay | datetime.go:368-370 | the same day at 23:59:59.999999999, one nanosecond before the next day's floor |
| DateTimes.CeilHour | datetime.go:374-376 | the finer fields are set to their maxima, one nanosecond before the next hour |
| DateTimes.CeilMinute | datetime.go:380-382 | the finer fields are set to their maxima, one nanosecond before the next minute |
| DateTimes.CeilSecond | datetime.go:386-388 | the nanosecond is 999999999, one nanosecond before the next second |
| DateTimes.CeilsIdempotent | datetime.go:352-388 | ceiling twice is ceiling once for the year, day, hour, minute and second, and for the month's last instant `CeilMonthLastDay`; not for `CeilMonth` as written (see `CeilMonthNotIdempotent`) |
| DateTimes.FloorCeilBracket | datetime.go:326-388 | every floor, year to second, is at or before the value; the year, day, hour, minute and second ceilings and `CeilMonthLastDay` are at or after it; `CeilMonth` as written is not (see `CeilMonthOverflows`) |
| DateTimes.SpanYear | datetime.go:390-394 | both ends are in the value's zone; the start is January 1 00:00 and the end December 31 23:59:59.999999999 of the value's year; the pair brackets the value and spans 365 or 366 days less a nanosecond |
| DateTimes.SpanMonth | datetime.go:396-400 | both ends are in the value's zone; the start is the first of the month at 00:00, at or before the value; the end is 23:59:59.999999999 on the day CeilMonth reaches, which is the month's last day when the day fits the following month, and then the pair brackets the value and spans the month's days less a nanosecond |
| DateTimes.SpanDay | datetime.go:402-406 | both ends are in the value's zone; the start is the same day at 00:00, the value rounded down to a day, and the end is the same day at 23:59:59.999999999, one day less a nanosecond later |
| DateTimes.SpanHour | datetime.go:408-412 | both ends are in the value's zone; the start is the same hour at :00:00, the value rounded down to an hour, and the end is the same hour at :59:59.999999999, one hour less a nanosecond later |
| DateTimes.SpanMinute | datetime.go:414-418 | both ends are in the value's zone; the start is the same minute at second 0, the value rounded down to a minute, and the end is the same minute at 59.999999999 seconds, one minute less a nanosecond later |
| DateTimes.SpanSecond | datetime.go:420-424 | both ends are in the value's zone; the start is the same second with nanosecond 0, the value rounded down to a second, and the end is the same second with nanosecond 999999999, one second less a nanosecond later |
| DateTimes.WeekDayShiftDays | datetime.go:427-429 | shifting by whole days moves the weekday by as many days modulo 7 |
| DateTimes.ShiftsInverse | datetime.go:256-299 | a sub-day shift by n followed by -n restores the value when both durations fit |
| DateTimes.ShiftDaysInverse | datetime.go:249-251 | a day shift by n followed by -n restores the value |
| DateTimes.IsBetweenStrict | datetime.go:541-543 | a value is never between itself and anything, in either position |
| DateTimes.IsBetweenOrdered | datetime.go:541-543 | a value between two bounds implies the start is before the end |
| DateTimeVectors.UnixTimestampVector | datetime_test.go:118-127 | timestamp 1500000000 is 2017-07-14 02:40:00 UTC, and back |
| DateTimeVectors.SubSecondShiftVectors | datetime_test.go:29-73 | millisecond and microsecond shifts by 10, 0 and -20 from 12:00:00 |
| DateTimeVectors.ShiftYearsVector | datetime_test.go:75-90 | ten years on from 2020-01-01 12:00:01 is 2030-01-01 12:00:01 |
| DateTimeVectors.ShiftCalendarVector | datetime_test.go:75-90 | ten years and two months on from 2020-01-01 12:00:01 is 2030-03-01 12:00:01 |
| DateTimeVectors.ShiftVector | datetime_test.go:75-90 | the shift by (10, 2, -3, -2, 20, 12, -20) gives 2030-02-26 10:20:12.999999980 |
| DateTimeVectors.ReplaceVector | datetime_test.go:92-107 | replacing every field of 2020-01-01 12:00:01 gives the fields given |
| DateTimeVectors.AccessorVectors | datetime_test.go:113-182 | the zone of a UTC value is UTC, and the calendar triple of 2020-12-15 is (2020, 12, 15) |
| DateTimeVectors.WeekDayVector | datetime_test.go:172-175 | 2020-01-01 is a Wednesday |
| DateTimeVectors.IsBetweenVectors | datetime_test.go:158-170 | 12:00 is between 11:00 and 13:00, and not between 13:00 and 14:00 |
| DateTimeVectors.FloorYearVector | datetime_test.go:184-187 | the year floor of 2020-12-15 12:12:49.000000234 |
| DateTimeVectors.FloorMonthVector | datetime_test.go:189-192 | the month floor of 2020-12-15 12:12:49.000000234 |
| DateTimeVectors.FloorDayVector | datetime_test.go:194-197 | the day floor of 2020-12-15 12:12:49.000000234 |
| DateTimeVectors.FloorHourVector | datetime_test.go:199-202 | the hour floor of 2020-12-15 12:12:49.000000234 |
| DateTimeVectors.FloorMinuteVector | datetime_test.go:204-207 | the minute floor of 2020-12-15 12:12:49.000000234 |
| DateTimeVectors.FloorSecondVector | datetime_test.go:209-212 | the second floor of 2020-12-15 12:12:49.000000234 |
| DateTimeVectors.CeilYearVector | datetime_test.go:214-217 | the year ceiling of 2020-12-15 12:12:49.000000234 |
| DateTimeVectors.CeilMonthVector | datetime_test.go:219-222 | the month ceiling of 2020-02-15 is February 29 23:59:59.999999999 |
| DateTimeVectors.LastDayVector | datetime_test.go:219-222 | the last instant of February 2020 is the 29th at 23:59:59.999999999 |
| DateTimeVectors.YearVectors | datetime_test.go:244-256 | the year floor, ceiling and span of 2020-02-15 12:12:49.000000234 |
| DateTimeVectors.FebruaryFloorVector | datetime_test.go:258-270 | the month floor of 2020-02-15 is February 1 00:00 |
| DateTimeVectors.SpanMonthVector | datetime_test.go:258-270 | the month span of 2020-02-15 is February 1 00:00 to February 29 23:59:59.999999999 |
| DateTimeVectors.DayVectors | datetime_test.go:272-284 | the day floor, ceiling and span of 2020-02-15 12:12:49.000000234 |
| DateTimeVectors.HourVectors | datetime_test.go:286-298 | the hour floor, ceiling and span of 2020-02-15 12:12:49.000000234 |
| DateTimeVectors.MinuteVectors | datetime_test.go:300-312 | the minute floor, ceiling and span of 2020-02-15 12:12:49.000000234 |
| DateTimeVectors.SecondVectors | datetime_test.go:314-326 | the second floor, ceiling and span of 2020-02-15 12:12:49.000000234 |

## Left out

- Time zones other than offset zero: `Location`, `LoadLocation` and `Local` look names up in the host's zone database. A zone is only a name here, and every zone is read at offset zero, so DST and non-UTC offsets are not modelled.
- `NewLocalDateTime`, `Now`, `UTCNow` and `NowInTimezone` read the host's local zone or the wall clock.
- `ParseToTime`, `FormatFromTime`, `Format`, `Parse`, `ParseInTimezone`, `IsoFormat`, `IsoFormatTZ`, `CTimeFormat`, `String` and `GoString` hand the translated layout to Go's `time.Parse`/`time.Format`, which is not part of this model. Only the translation before those calls is modelled.
- The regular-expression engine and the text of the pattern: the scan it performs is modelled directly, and `FormatTokenRegex` is modelled as the joined alternation text.
- `DateTimeFromTime` and `Time` only convert between `DateTime` and `time.Time`, which are the same value here.
- `Year` and `Timezone` carry no contract of their own; they are read through `Fields` and the zone field.
- `UTC` and `Europe_Berlin` are defined outside the modelled files; `UTC` is the zone name "UTC" here.
- Integer widths: Go's `int` and `int64` are modelled as unbounded integers. Overflow of the instant or of `year + years` in `time.Date` is not modelled; only the `time.Duration` range of the sub-day shifts is.
- DateTimes.ParsedDuration: the exact lower bound that `time.ParseDuration` accepts (-2^63 nanoseconds) is taken from current Go releases; older releases reject it.
- DateTimes.WeekDay: returns the weekday as a number (0 = Sunday), not as Go's `time.Weekday` type.
- DateTimes.SpanMonth: states that the span covers the month only when the day fits the following month, because `CeilMonth` as written does not otherwise (see Findings).
- Formatting.TranslateFormat: the source's input is a byte string; the model scans characters. The tokens are ASCII, so no token can start inside a multi-byte character.

## Findings

| source | as written | input that shows it | evidently intended | confidence | as-written member | corrected member |
|---|---|---|---|---|---|---|
| datetime.go:358-364 | `CeilMonth` shifts one month on, so a day past the end of the following month carries one month further; for the same reason it is not idempotent (January 15 2020 gives January 31, and that gives January 29, see `DateTimes.CeilMonthNotIdempotent`) | January 31 2020: the shift gives March 2, the day before March 1 is February 29, and the result is January 29 23:59:59.999999999, before the value | the last instant of the month, January 31 23:59:59.999999999 | high (not executed) | DateTimes.CeilMonthOverflows | DateTimes.CeilMonthLastDay |
| datetime.go:530-538 | `Replace` sets the month while the old day is still in place, so that step can carry before the day is set | January 31 2020 with `Replace(2020, 2, 1, 0, 0, 0, 0)`: the month step gives March 2, and the result is March 1 | February 1 2020 00:00, all fields as given | high (not executed) | DateTimes.ReplaceCarriesPastMonth | DateTimes.ReplaceFields |
