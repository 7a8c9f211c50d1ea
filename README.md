# work: time expressions, the event log and its tally, in Dafny

`work` is a personal time-tracking command-line tool. It appends
"started work" and "stopped work" events to a log file
(`timestamp,Start|Stop,project,description`, one line per event). It
answers questions such as "how much did I work since 9:15?" by doing three
things:

- resolving a loose time expression (`9`, `9:15`, `31 20:20`, `31-12 20:20`,
  `2h`, `45m`, `today`, `yesterday`, or `A - B`) into an interval;
- keeping the log records that fall inside that interval;
- pairing the kept Start and Stop records into sessions and summing the
  seconds per project and description.

This project models that core and proves properties of it:

| file | module | models |
|---|---|---|
| `wrappers.dfy` | `Wrappers` | Rust's `Option` |
| `errors.dfy` | `Errors` | `ErrorKind`; `Result`, extended with `Abort` for a panic (`unwrap` on a failed parse, an index out of bounds, a date chrono cannot build) |
| `strings.dfy` | `Strings` | the `str` operations the core relies on: `trim`, `split`, `find`, `parse::<i64>`, decimal formatting |
| `calendar.dfy` | `Calendar` | chrono's proleptic Gregorian `NaiveDate`: validity, `from_ymd`, the day before and after, date order, a day count from 1970-01-01 |
| `durations.dfy` | `Durations` | `approximate_minutes`, `get_human_readable_form`, `format_human_readable` |
| `time_patterns.dfy` | `TimePatterns` | the seven anchored regular expressions of `parse_time_input`, as whole-string recognisers |
| `time_pattern_examples.dfy` | `TimePatternExamples` | the strings the regular-expression unit tests accept and reject, for every pattern except `D-M H:M` |
| `time.dfy` | `Time` | `get_ambiguous_date/month/year`, `last/this/next_month`, `parse_time_input`, `Interval::new`, `Interval::try_parse` |
| `log_file.dfy` | `LogFile` | `Event` and its labels, the line encoder of `append_event`, the decoder `Event::from`, `filter_events`, `get_latest_event`, `tally_time` |
| `project_map.dfy` | `ProjectMaps` | the `ProjectMap` class: `add_event`, `add_events`, `add_clean_event`, `as_csv` |
| `subcommands.dfy` | `Subcommands` | `is_working`, `working_or_free`, and the `WorkLog` class with `start`, `stop`, `since`, `until`, `between`, `of` |
| `arguments.dfy` | `Arguments` | `TimeFormat` and `TimeFormat::from_str` |

"Now" is a `Clock` value with three fields:

- the local date;
- the local second of the day;
- the Unix time.

A parsed moment is a naive timestamp: the local wall-clock date and time
read as if they were UTC, which is what `NaiveDateTime::timestamp` gives.
`Interval::new` fills a missing end with the Unix time, as `now()` does.

The log file is a sequence of lines. Appending an event appends its
encoded line. The main invariant is `Alternating`: the lines alternate
between Start and Stop lines, beginning with a Start. `start`, `stop`,
`since`, `until` and `between` preserve it, as long as the labels contain no
comma and no line break. When the records the interval keeps alternate, the
tally never panics, and its total equals the time the records say was worked
inside the interval. In particular this holds for an alternating log lying
wholly inside the interval. An interval that cuts an alternating log whose
timestamps are out of order can keep records that do not alternate, and
then the tally may panic.

The model follows the code in these places, which are easy to misread:

- Tally entries are keyed on the defaulted labels ("Unnamed project",
  "No description"), not on the raw optional values. So a missing project
  and the project "Unnamed project" share an entry.
- In `Interval::try_parse`, when a range piece fails, the result is that
  piece's own error (the `?` operator), not the error for the whole input.
- A day that does not exist in the month it resolves to (day 31 in a
  30-day month, for example) makes chrono's `from_ymd` panic. The model
  gives `Abort` there; it does not clamp or roll over.
- An unrecognised log line decodes to `Stop(None, None)`, as the code
  does.

`get_ambiguous_year` behaves differently from what it evidently intends
(see "## Findings"). `parse_time_input` uses the corrected version.

## Model

| member | source | states |
|---|---|---|
| `Strings.Trim` | src/log_file.rs:68 | a slice of the input with only whitespace cut from either end, itself without surrounding whitespace; an already trimmed string is unchanged |
| `Strings.Split` | src/log_file.rs:68 | the pieces joined with the separator give back the input, no piece contains the separator, and with more than one piece the first ends at the first occurrence |
| `Strings.SplitLeftmost` | src/log_file.rs:68 | every piece but the last ends at the leftmost occurrence of the separator in the rest of the input |
| `Strings.Find` | src/log_file.rs:296 | the index of the first occurrence of the separator, `None` exactly when there is none |
| `Strings.ParseI64` | src/log_file.rs:300 | a parsed value is within the i64 range, and only a non-empty string of ASCII digits, optionally after one `+` or `-`, parses |
| `Strings.ParseI64Digits` | src/log_file.rs:300 | bare digits read as their value, exactly when it lies in the i64 range |
| `Strings.ParseI64Plus` | src/log_file.rs:300 | `+` and digits read as the digits' value, exactly when it lies in the i64 range |
| `Strings.ParseI64Minus` | src/log_file.rs:300 | `-` and digits read as the negated value, exactly when it lies in the i64 range |
| `Strings.IntToString` | src/log_file.rs:123 | decimal text (digits and an optional leading minus) that `parse::<i64>` reads back to the same value within the i64 range |
| `Calendar.FromYmd` | src/time.rs:183 | a date exists exactly when the month is 1-12 and the day exists in that month; otherwise chrono panics |
| `Calendar.NextDay` | src/time.rs:164-166 | `tomorrow()`: a valid date whose day number is one more, and which comes after the input |
| `Calendar.PrevDay` | src/time.rs:159-161 | `yesterday()`: a valid date whose day number is one less, and whose next day is the input |
| `Calendar.DateBeforeIsDayNumberOrder` | src/time.rs:227 | chrono's date comparison agrees with the order of day numbers, and equal day numbers mean equal dates |
| `Durations.ApproximateMinutes` | src/time.rs:69-78 | the result is a multiple of 15; for a non-negative duration it is the least one that is at least the whole-minute count |
| `Durations.ApproximateMinutesExamples` | src/time.rs:63-67 | 16 min gives 30, 15 gives 15, 31 gives 45 and 14 gives 15 |
| `Durations.HoursAndMinutes` | src/time.rs:131-135 | whole hours plus leftover minutes (0-59) account for a non-negative duration to the minute |
| `Durations.UnitFormat` | src/time.rs:84-95 | empty for zero units; otherwise the number, a space, and the unit name, singular (final `s` dropped) exactly when the number is 1 |
| `Durations.FormatHumanReadable` | src/time.rs:83-112 | "Less than a minute" exactly when both are zero; otherwise the "N hour(s)" phrase, the "N minute(s)" phrase, or both joined by " and ", leaving out a zero part |
| `Durations.HumanReadable` | src/time.rs:131-136 | "Less than a minute" exactly for durations strictly between -60 and 60 seconds |
| `Durations.HumanReadableMinuteExamples` | src/time.rs:121-123 | 15 s and 30 s give "Less than a minute", 60 s gives "1 minute" |
| `Durations.HumanReadableTwoMinutes` | src/time.rs:124 | 120 s gives "2 minutes" |
| `Durations.HumanReadableHourExamples` | src/time.rs:125-126 | "1 hour" and "2 hours" |
| `Durations.HumanReadableHourMinuteExample` | src/time.rs:127 | 3660 s gives "1 hour and 1 minute" |
| `Durations.HumanReadableHourMinutesExample` | src/time.rs:128 | 3720 s gives "1 hour and 2 minutes" |
| `Durations.HumanReadableHoursMinutesExample` | src/time.rs:129 | 7320 s gives "2 hours and 2 minutes" |
| `TimePatterns.HourField` | src/time.rs:272 | the hour alternative accepts exactly one or two digits with value 0-23 |
| `TimePatterns.MinuteField` | src/time.rs:274 | the minute alternative accepts exactly one or two digits with value 0-59 |
| `TimePatterns.DayField` | src/time.rs:277 | the day alternative accepts exactly one or two digits with value 1-31 |
| `TimePatterns.MonthField` | src/time.rs:280 | the month alternative accepts exactly one or two digits with value 1-12 |
| `TimePatterns.HourCountField` | src/time.rs:283 | the hour-count alternative accepts exactly one or two digits with value 1-23 |
| `TimePatterns.MinuteCountField` | src/time.rs:285 | the minute-count alternative accepts exactly one or two digits with value 1-59 |
| `TimePatterns.MatchAtHour` | src/time.rs:272 | `H` matches exactly an hour field and yields its value |
| `TimePatterns.MatchHourMinutes` | src/time.rs:274 | `H:M` matches exactly an hour, a colon and a minute, and yields both values |
| `TimePatterns.MatchDayHourMinutes` | src/time.rs:276-277 | `D\sH:M` matches exactly a day, one whitespace character and `H:M`, and yields the three values |
| `TimePatterns.MatchMonthHourMinutes` | src/time.rs:279-280 | the `M\sH:M` tail matches exactly a month, one whitespace character and `H:M` |
| `TimePatterns.MatchDayMonthHourMinutes` | src/time.rs:279-281 | `D-M\sH:M` matches exactly a day, a dash and the `M\sH:M` tail |
| `TimePatterns.MatchDayMonthHourMinutesValues` | src/time.rs:279-281 | the numbers read are the day before the dash and the month, hour and minute of the tail |
| `TimePatterns.MatchHoursAgo` | src/time.rs:283 | `Nh` matches exactly a count 1-23 followed by `h`, and yields the count |
| `TimePatterns.MatchMinutesAgo` | src/time.rs:285 | `Nm` matches exactly a count 1-59 followed by `m`, and yields the count |
| `TimePatterns.MatchHoursMinutesAgo` | src/time.rs:288-289 | `H:Mh` matches exactly `H:M` followed by `h` |
| `TimePatternExamples.AtHourExamples` | src/time.rs:451-469 | "9", "12", "04" and "23" match; "24", "30" and "100" do not |
| `TimePatternExamples.HourMinutesExamples` | src/time.rs:472-489 | "9:15", "09:01" and "9:1" match, with their values |
| `TimePatternExamples.MoreHourMinutesExamples` | src/time.rs:472-489 | "21:21", "3:21" and "19:59" match, with their values |
| `TimePatternExamples.HourMinutesRejections` | src/time.rs:480-493 | "24:00", "19:60" and "30:15" do not match |
| `TimePatternExamples.DayHourMinutesWithTab` | src/time.rs:499 | a tab separates day and time: "19\t19:29" matches |
| `TimePatternExamples.DayHourMinutesSingleDigit` | src/time.rs:498 | "9 15:15" matches with day 9, hour 15 and minute 15 |
| `TimePatternExamples.DayHourMinutesLastDay` | src/time.rs:500 | "31 20:20" matches with day 31, hour 20 and minute 20 |
| `TimePatternExamples.DayHourMinutesLeadingZero` | src/time.rs:501 | "03 23:59" matches with day 3, hour 23 and minute 59 |
| `TimePatternExamples.DayHourMinutesRejections` | src/time.rs:503-520 | "013 23:59", "32 15:15" and "0 13:15" do not match |
| `TimePatternExamples.DayFiftyOneRejected` | src/time.rs:507 | "51 23:59" does not match: 51 is no day |
| `TimePatternExamples.SignedDayExampleRejected` | src/time.rs:504 | "-19\t19:29" does not match: a day cannot carry a minus sign |
| `TimePatternExamples.MissingSeparatorRejected` | src/time.rs:505 | "3120:20" does not match: no whitespace separates a day from the time |
| `TimePatternExamples.HoursAgoExamples` | src/time.rs:547-569 | "13h", "23h", "1h" and "05h" match; "99h", "24h", "-5h", "13" and "0h" do not |
| `TimePatternExamples.MinutesAgoExamples` | src/time.rs:572-594 | "01m", "9m", "19m", "59m" and "35m" match; "0m", "00m", "19" and "60m" do not |
| `TimePatternExamples.HoursMinutesAgoAccepted` | src/time.rs:597-613 | "19:59h" and "1:1h" match |
| `TimePatternExamples.LatestHoursMinutesAgoAccepted` | src/time.rs:599 | "23:59h" matches |
| `TimePatternExamples.PaddedHoursMinutesAgoAccepted` | src/time.rs:601 | "05:09h" matches |
| `TimePatternExamples.HoursMinutesAgoRejected` | src/time.rs:597-613 | "19:59" and "24:59h" do not match |
| `Time.AmbiguousDate` | src/time.rs:206-220 | the chosen date puts the time of day in the last 24 hours up to now (Backward) or in the next 24 hours after now (Forward) |
| `Time.LastMonth` | src/time.rs:169-178 | the given day in the month before today's (across a year boundary too); none exactly when that month lacks the day, where chrono panics |
| `Time.ThisMonth` | src/time.rs:181-184 | the given day in today's month; none exactly when this month lacks the day, where chrono panics |
| `Time.NextMonth` | src/time.rs:187-196 | the given day in the month after today's (across a year boundary too); none exactly when that month lacks the day, where chrono panics |
| `Time.AmbiguousMonth` | src/time.rs:225-241 | the given day in the month before (Backward, day later than today's), after (Forward, day earlier than today's) or in today's month; never after today (Backward) or before it (Forward); none exactly when that month lacks the day |
| `Time.AmbiguousYearAsWritten` | src/time.rs:246-267 | `from_ymd` of today's day in the given month, a year back (Backward) or ahead (Forward) for a later month, the current year otherwise whatever the direction; none exactly where chrono panics |
| `Time.AmbiguousYearAsWrittenGoesBack` | src/time.rs:263-265 | on 2026-10-14, a forward search for March gives 2026-03-14, which is before today |
| `Time.AmbiguousYearAsWrittenSkipsAhead` | src/time.rs:253-255 | on 2026-03-14, a forward search for December gives 2027-12-14, though 2026-12-14 is still ahead |
| `Time.AmbiguousYear` | src/time.rs:246-267 | corrected: `from_ymd` of today's day in the given month, in the latest year not after today (Backward) or the earliest year not before today (Forward); one year further would overshoot; none exactly where chrono panics |
| `Time.AmbiguousYearAgrees` | src/time.rs:250-262 | the corrected and the as-written versions agree for every backward search and for today's month |
| `Time.AtTimeOfDay` | src/time.rs:304-311 | `H` and `H:M`: the given time of day (whole days from it), within the last day up to now (Backward) or the next day after now (Forward) |
| `Time.OnResolvedDate` | src/time.rs:324-326 | at the given time of day; a resolved date other than today is used as is; today falls back to the `H:M` resolution; the result is not after now (Backward) or after now (Forward) |
| `Time.DayHourMinutes` | src/time.rs:312-327 | `D H:M` is H:M on day D of the month `get_ambiguous_month` picks, or the `H:M` resolution when D is today's day; in the searched direction; panics exactly when this month or the month picked lacks the day; never an error |
| `Time.DayMonthHourMinutes` | src/time.rs:328-337 | `D-M H:M` is H:M on today's day of month M in the corrected year, or the `H:M` resolution for today's month; in the searched direction; panics exactly when that date does not exist |
| `Time.FromNow` | src/time.rs:342-345 | now minus the duration (Backward) or now plus it (Forward) |
| `Time.HoursMinutesAgo` | src/time.rs:354-368 | the `H:Mh` branch as written never returns an error |
| `Time.HoursMinutesAgoAborts` | src/time.rs:356-358 | for every input the `H:Mh` recogniser accepts, the minutes piece still ends in `h`, so the branch panics |
| `Time.ParseTimeInput` | src/time.rs:303-381 | the only error is `User("Invalid time specifier: <unit>")`; every successful rule except the two day names is not after now (Backward) or strictly after now (Forward) |
| `Time.ParseTimeInputRejects` | src/time.rs:376-381 | the error is returned exactly when no recogniser matches and the input is neither "today" nor "yesterday" |
| `Time.ParseTimeInputAborts` | src/time.rs:312-368 | with `\d` read as ASCII digits, panics come only from `D H:M`, `D-M H:M` and `H:Mh` |
| `Time.ParseAtHour` | src/time.rs:303-306 | `H` resolves to hour H (0-23) on the date `get_ambiguous_date` picks |
| `Time.ParseHourMinutes` | src/time.rs:307-310 | `H:M` resolves to H:M on the date `get_ambiguous_date` picks, `H` not matching |
| `Time.ParseDayHourMinutes` | src/time.rs:312-327 | `D H:M` is resolved by the `D H:M` rule with its day, hour and minute in range, the earlier rules not matching |
| `Time.ParseDayMonthHourMinutes` | src/time.rs:328-337 | `D-M H:M` is resolved by the `D-M H:M` rule with its month, hour and minute in range, the earlier rules not matching |
| `Time.ParseHoursAgo` | src/time.rs:338-345 | `Nh` has N in 1-23 and resolves to now ∓ N hours |
| `Time.ParseMinutesAgo` | src/time.rs:346-353 | `Nm` has N in 1-59 and resolves to now ∓ N minutes |
| `Time.ParseHoursMinutesAgo` | src/time.rs:354-368 | every `H:Mh` input panics |
| `Time.ParseToday` | src/time.rs:369-370 | "today" is midnight of today in either direction |
| `Time.ParseYesterday` | src/time.rs:371-375 | "yesterday" is midnight of the day before in either direction |
| `Time.NewInterval` | src/time.rs:405-415 | start ≤ end, and {start, end} equals {start, end or now} as a multiset: bounds are swapped, not refused |
| `Time.RangePieces` | src/time.rs:428-430 | two pieces exactly when splitting on " - " gives two; then the input cut at its first " - ", and neither piece contains the separator |
| `Time.TryParse` | src/time.rs:420-442 | a whole-input moment gives [moment, now], normalised. Otherwise a two-piece range gives both moments, normalised, or the first failing piece's error, and it panics exactly when the first piece panics or the first parses and the second panics. Any other piece count gives the whole input's error. start ≤ end always |
| `LogFile.ToProject` | src/log_file.rs:26-33 | the project name, or "Unnamed project" when there is none |
| `LogFile.ToDescription` | src/log_file.rs:35-42 | the description, or "No description" when there is none |
| `LogFile.ToString` | src/log_file.rs:46-63 | the label is the defaulted project, then " - " and the description only when there is one |
| `LogFile.Encode` | src/log_file.rs:120-144 | every written line is timestamp, kind, project and description, comma-separated, with a missing label written as the empty string |
| `LogFile.Fields` | src/log_file.rs:68 | one trimmed field per comma-separated piece |
| `LogFile.Decode` | src/log_file.rs:66-83 | with exactly four fields and a second field of Start or Stop: the kind follows that field, the project is absent only when both labels are empty, the description is absent exactly when empty. Every other line gives `Stop(None, None)` |
| `LogFile.DecodeEncode` | src/log_file.rs:120-144 | with non-empty, comma-free, trimmed labels, decoding the written line gives the event back, except that a description without a project comes back with project "" |
| `LogFile.EncodeKeepsKind` | src/log_file.rs:70-79 | with comma-free labels, a written Start reads back as a Start and a Stop as a Stop |
| `LogFile.CommaInLabelIsLost` | src/log_file.rs:68-80 | a comma in a label makes the line read back as `Stop(None, None)` |
| `LogFile.DecodedCommaFree` | src/log_file.rs:68 | decoded labels never contain a comma |
| `LogFile.ParseLineEncode` | src/log_file.rs:296-300 | a written line reads back with the timestamp it was written at |
| `LogFile.Timestamps` | src/log_file.rs:296-300 | every line's leading field parses, in order, or the read fails |
| `LogFile.ParseLog` | src/log_file.rs:291-301 | all lines are parsed in order; the read fails exactly when some line has no integer timestamp |
| `LogFile.ParseLogEvents` | src/log_file.rs:300 | each parsed record carries the event its line decodes to |
| `LogFile.Keep` | src/log_file.rs:302 | kept records are exactly the records inside the interval, bounds included |
| `LogFile.KeepAppend` | src/log_file.rs:291-303 | filtering distributes over concatenation, so the log order is kept |
| `LogFile.KeepAll` | src/log_file.rs:302 | a log wholly inside the interval is kept whole |
| `LogFile.KeepIdempotent` | src/log_file.rs:302 | filtering twice is filtering once |
| `LogFile.FilterEvents` | src/log_file.rs:287-304 | never an error; a panic exactly when some line has no timestamp; otherwise exactly the parsed records inside the interval |
| `LogFile.LatestEvent` | src/log_file.rs:154-166 | the last line's event, and `Stop(None, None)` for an empty log |
| `LogFile.LatestAfterAppend` | src/log_file.rs:158-160 | after a write, the latest event is the written one read back, of the same kind for comma-free labels |
| `LogFile.CreditEntries` | src/log_file.rs:197-210 | `Credit` is insert-or-add: the entry for the defaulted labels grows by the time or is created with it; no other entry changes or appears |
| `LogFile.CreditMergesUnnamed` | src/log_file.rs:197-209 | a missing project and "Unnamed project" credit the same entry, and so do Start and Stop events |
| `LogFile.TotalCredit` | src/log_file.rs:197-210 | crediting adds exactly the time to the tally's total |
| `LogFile.CreditChunks` | src/log_file.rs:213-216 | the pairing loop credits pair by pair, and fails exactly when an odd last chunk would index past its end |
| `LogFile.ChunksCreditKeys` | src/log_file.rs:213-216 | `ChunksCredit` only adds projects: every project already in the tally stays, and every pair's first record puts its project in |
| `LogFile.TallyRecords` | src/log_file.rs:218-280 | the in-place build gives the shape-by-shape tally of the filtered records |
| `LogFile.TallyTime` | src/log_file.rs:189-281 | filter then tally; a line without a timestamp panics |
| `LogFile.TallyOf` | src/log_file.rs:218-220 | no tally exactly for an empty selection, and never an error (its totals are stated by `LogFile.TallyTotal`) |
| `LogFile.TallySingle` | src/log_file.rs:222-240 | a lone Stop is credited from the interval's start, a lone Start up to its end |
| `LogFile.ChunksTotal` | src/log_file.rs:242-245 | pairing an alternating run that opens with a Start adds the time from each Start to its Stop |
| `LogFile.TallyTotal` | src/log_file.rs:241-279 | for alternating records the tally never panics in any of the four multi-record shapes, and its total is the time worked in the interval, boundary sessions included |
| `LogFile.DoubleStartAborts` | src/log_file.rs:213-216 | an example: the selection Start, Start, Stop leaves an odd run, and the tally panics (not every Start-Start selection does: Start, Start, Stop, Stop pairs up) |
| `LogFile.TallyScenario` | src/log_file.rs:218-245 | with a session 100-200 and a Start at 300, [50, 250] keeps the session and credits it 100 s; [0, 50] keeps nothing |
| `ProjectMaps.CleanInsert` | src/project_map.rs:56-62 | the project now has the single description with the time; other projects are untouched |
| `ProjectMaps.CleanInsertIsCredit` | src/project_map.rs:55-62 | on a project not yet present, the blind insert equals insert-or-add |
| `ProjectMaps.CleanInsertDiscards` | src/project_map.rs:56-62 | on a present project, its other descriptions are lost and the total changes by the difference |
| `ProjectMaps.AppendProjectRows` | src/project_map.rs:68-75 | the inner loop adds one CSV line per description of the project |
| `ProjectMaps.ProjectMap.AddEvent` | src/project_map.rs:32-44 | the map becomes the insert-or-add credit of the old one (whose total grows by exactly the time, by `LogFile.TotalCredit`) |
| `ProjectMaps.ProjectMap.AddEvents` | src/project_map.rs:48-53 | pairs are credited in order; an odd tail is reported as the panic, after every full pair has been credited |
| `ProjectMaps.ProjectMap.AddCleanEvent` | src/project_map.rs:56-62 | the map becomes the blind insert of the old one |
| `ProjectMaps.ProjectMap.AsCsv` | src/project_map.rs:65-78 | the header, then exactly one "p,d,formatted" line per entry, in some order that lists every entry once |
| `Subcommands.IsWorking` | src/subcommands.rs:14-19 | work is in progress exactly when the event's written kind field is "Start" |
| `Subcommands.WorkingOrFree` | src/subcommands.rs:99-111 | exit code 0 exactly when (the latest event is a Start) equals the question asked, 1 otherwise |
| `Subcommands.WorkingOrFreeOpposite` | src/subcommands.rs:99-111 | `working` and `free` always give opposite answers |
| `Subcommands.EmptyLogIsFree` | src/log_file.rs:161 | a log with no lines counts as free |
| `Subcommands.AlternatingWorking` | src/subcommands.rs:14-19 | on an alternating log, work is in progress exactly when the number of lines is odd |
| `Subcommands.AlternatingAppend` | src/subcommands.rs:35-40 | appending an event of the kind the parity asks for keeps the log alternating |
| `Subcommands.CommaLabelHidesWork` | src/subcommands.rs:35 | a Start whose project has a comma reads back as a Stop, so the log still counts as free |
| `Subcommands.StopKeepsAlternation` | src/subcommands.rs:52-74 | closing the latest Start keeps the log alternating and leaves no work in progress |
| `Subcommands.RegisterKeepsAlternation` | src/subcommands.rs:236-249 | writing a Start then a Stop on a free alternating log keeps it alternating, working in between and free after |
| `Subcommands.AlternatingLogTally` | src/log_file.rs:189-281 | on an alternating log wholly inside the interval, the tally exists and totals the time worked |
| `Subcommands.TwoLineTally` | src/subcommands.rs:243-248 | a Start line and a later Stop line inside the interval tally to exactly the time between them |
| `Subcommands.OfYesterday` | src/subcommands.rs:143-147 | `of yesterday` covers exactly yesterday's midnight to today's midnight |
| `Subcommands.OfInterval` | src/subcommands.rs:143-147 | any input other than `yesterday` is parsed looking backwards; `yesterday` always parses, and its interval ends at today's midnight and starts at yesterday's midnight or now |
| `Subcommands.OfToday` | src/subcommands.rs:143 | `of today` runs from today's midnight to now |
| `Subcommands.WorkLog.Start` | src/subcommands.rs:29-42 | refused with the user error iff working; otherwise exactly one Start is appended and 0 returned; keeps the log alternating |
| `Subcommands.WorkLog.Stop` | src/subcommands.rs:52-74 | refused iff free; otherwise exactly one Stop with the latest Start's labels is appended; keeps the log alternating and leaves it free |
| `Subcommands.WorkLog.Since` | src/subcommands.rs:176-199 | refused when working; else a Start at the interval's start and, unless continuing, a Stop at now; parse errors append nothing |
| `Subcommands.WorkLog.Until` | src/subcommands.rs:206-223 | refused when working; else, parsing forwards, a Start at now and a Stop at the interval's end |
| `Subcommands.WorkLog.Between` | src/subcommands.rs:230-250 | refused when working; else a Start at the interval's start and a Stop at its end |
| `Subcommands.WorkLog.Of` | src/subcommands.rs:136-169 | exit code 1 exactly when nothing lies in the interval; 0 when the tally succeeds; a panic on a bad line or an unpairable run |
| `Arguments.Spellings` | src/arguments.rs:105-113 | each format has exactly two distinct spellings |
| `Arguments.FromStr` | src/arguments.rs:104-119 | an accepted string is a spelling of its format; anything else gives the fixed "Valid values are [...]" user error; never a panic |
| `Arguments.FromStrSpellings` | src/arguments.rs:105-113 | a string parses to a format exactly when it is one of that format's two spellings |
| `Arguments.FromStrAccepts` | src/arguments.rs:44 | exactly the eight declared possible values are accepted |
| `Arguments.PossibleValuesAreSpellings` | src/arguments.rs:44 | the declared values are the four formats' spellings, two by two |
| `Arguments.HoursSpellings` | src/arguments.rs:108-109 | "h" and "hours" both mean the approximate hours |
| `Arguments.CaseMatters` | src/arguments.rs:114-117 | a different case is refused with the fixed message |
| `Arguments.DefaultParses` | src/arguments.rs:44 | the default "human-readable" is a possible value and parses to the human-readable format |

## Findings

| source | as written | input that shows it | evidently intended | confidence | as-written member | corrected member |
|---|---|---|---|---|---|---|
| src/time.rs:260-265 | a forward search for a month earlier than the current one keeps the current year. The guarded arm and the catch-all arm build the same date | on 2026-10-14, `get_ambiguous_year` with month 3 and a forward search gives 2026-03-14, which is in the past | the next year, as `get_ambiguous_month` moves to the next month for an earlier day | medium, not executed | `Time.AmbiguousYearAsWrittenGoesBack` | `Time.AmbiguousYear` |
| src/time.rs:253-255 | a forward search for a month later than the current one moves to the next year | on 2026-03-14, `get_ambiguous_year` with month 12 and a forward search gives 2027-12-14, though 2026-12-14 is still ahead | the current year, the earliest one that is not before today, as `get_ambiguous_month` keeps this month for a later day | medium, not executed | `Time.AmbiguousYearAsWrittenSkipsAhead` | `Time.AmbiguousYear` |

## Left out

- File I/O is not modelled: `LogFile::new`, `log_file_path`, `create_path`, `write`, `read_to_string` and the data directory lookup. The log is the sequence of its lines, and an append never fails. Splitting the file text into lines is not modelled either.
- `r#while` is not modelled: it spawns a shell process.
- `status` is not modelled: it only prints.
- The `structopt` declarations, `main`, `run_app` and the `From<io::Error>` conversion are not modelled. `ErrorKind` is a three-constructor datatype.
- `approximate_hours` is not modelled: it computes a floating-point value.
- `as_json` is not modelled: it relies on `serde_json`.
- `format_time` is not part of this model. `as_csv` takes the formatter as a function parameter. The printing in `of` is not modelled.
- The clock is not read: "now" is a `Clock` parameter. Parsed moments are naive timestamps computed by calendar arithmetic, as `NaiveDateTime::timestamp` does. The model claims nothing about time zones.
- The `D-M H:M` rule takes the month from its recogniser instead of chrono's year-less `%d-%m` parse. The day is not used, because `get_ambiguous_year` keeps today's day.
- `Time.DayMonthHourMinutes`: uses the corrected `get_ambiguous_year` (see "## Findings"), not the one the code calls. It also skips `NaiveDate::parse_from_str(units[0], "%d-%m").unwrap()` (src/time.rs:330): a `%d-%m` string gives chrono no year, so that parse is likely refused, and then the program panics on every `D-M H:M` input. The model resolves the date as the surrounding code intends.
- `Time.ParseTimeInput`: its `D-M H:M` rule goes through `Time.DayMonthHourMinutes`, with the same two departures: the corrected year, and no panic from the year-less parse at src/time.rs:330.
- `Time.TryParse`: a `D-M H:M` moment or range piece is resolved with the corrected year, as in `Time.ParseTimeInput`.
- `Subcommands.WorkLog.Until`: a `D-M H:M` end is resolved with the corrected year, as in `Time.ParseTimeInput`.
- `Time.ParseTimeInput`: reads `\d` as an ASCII digit. The regex crate's `\d` is Unicode (`\p{Nd}`), so the program also matches inputs such as "٣" or "1٣h". It then panics in `parse_from_str(...).unwrap()` or `from_str_radix(...).unwrap()` (src/time.rs:305, 340). The model gives the user error for these inputs.
- `Time.ParseTimeInputAborts`: states the panics for `\d` read as ASCII, so it leaves out the panics on other decimal digits described above.
- `TimePatterns.MatchAtHour`: reads `\d` as an ASCII digit; the program also accepts other Unicode decimal digits (`\p{Nd}`), such as "٣".
- `TimePatterns.MatchHourMinutes`: reads `\d` as an ASCII digit; the program also accepts other Unicode decimal digits.
- `TimePatterns.MatchDayHourMinutes`: reads `\d` as an ASCII digit; the program also accepts other Unicode decimal digits.
- `TimePatterns.MatchMonthHourMinutes`: reads `\d` as an ASCII digit; the program also accepts other Unicode decimal digits.
- `TimePatterns.MatchDayMonthHourMinutes`: reads `\d` as an ASCII digit; the program also accepts other Unicode decimal digits.
- `TimePatterns.MatchHoursAgo`: reads `\d` as an ASCII digit; the program also accepts other Unicode decimal digits, such as "1٣h".
- `TimePatterns.MatchMinutesAgo`: reads `\d` as an ASCII digit; the program also accepts other Unicode decimal digits.
- `TimePatterns.MatchHoursMinutesAgo`: reads `\d` as an ASCII digit; the program also accepts other Unicode decimal digits.
- `TimePatterns.HourField`: reads `\d` as an ASCII digit; the regex alternative also accepts other Unicode decimal digits.
- `TimePatterns.MinuteField`: reads `\d` as an ASCII digit; the regex alternative also accepts other Unicode decimal digits.
- `TimePatterns.DayField`: reads `\d` as an ASCII digit; the regex alternative also accepts other Unicode decimal digits.
- `TimePatterns.HourCountField`: reads `\d` as an ASCII digit; the regex alternative also accepts other Unicode decimal digits.
- `TimePatterns.MinuteCountField`: reads `\d` as an ASCII digit; the regex alternative also accepts other Unicode decimal digits.
- Labels holding a line break are not modelled. The log is a sequence of lines, and an append adds exactly one. In the file, such a label would split the written line in two. The alternation results assume labels without one.
- The `H:Mh` branch slices the minutes piece with its trailing `h` still on, so `from_str_radix(...).unwrap()` always panics. The model keeps that behaviour (`Time.ParseHoursMinutesAgo`) and gives the branch no "now ∓ duration" contract.
- `Time.FromNow`: does not model the `checked_add_signed`/`checked_sub_signed` overflow panic; the result is assumed to be in range.
- Timestamps are unbounded integers. The i64 range matters only where the timestamp text is parsed (`Strings.ParseI64`).
- `TimePatternExamples`: does not prove the `D-M H:M` unit-test strings (src/time.rs:524-544). Over ASCII digits, the recognisers' languages are fully specified.
