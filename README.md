# IrregularScheduler shorthand interpreter, in Dafny

IrregularScheduler is an Android app that turns a line of shorthand such as
`m8-4 t9am-5pm w10-6 f10pm-6am` into dated work shifts. The interpreter lives in
`ScheduleViewModel`. This project models that interpreter and proves what it does:

- **Time codes** (`time_codes.dfy`, module `TimeCodes`). The cleaner deletes whitespace, `:` and
  `.`. `breakdownTimeCode` then reads one to four digits as an hour and a minute. For example,
  `8:30` cleans to `830`, which is 8 h 30 min.
- **Shift interpretation** (`shifts.dfy`, module `Shifts`). `matchToShift` turns one match into a
  weekday with a start and an end time of day, or rejects it. It maps the day code, decodes the time
  codes, and supplies a default end `defaultDuration` hours after the start. It checks the hours
  (0..24), the minutes (0..59) and that no hour above 12 carries `am`/`pm`. Then it builds the
  clock times, applies `pm`, and applies the optional daytime heuristic. It reports the match's
  range to the flagger once, as valid exactly when a shift results.
  - The function `Interpret` is the specification. The method `MatchToShift` follows the source,
    reassigning the start and end times in place, and is proved equal to it.
  - Times of day are minutes since midnight (0..1439). `LocalTime.plusHours(12)` wraps past
    midnight, so `12pm` is 00:00 and `12am` is 12:00, as in the source.
  - Kotlin's 32-bit `Int` addition and its truncating `%` appear explicitly in the default end.
- **Schedule building** (`schedules.dfy`, module `Schedules`). `shiftsToSchedule` places each shift
  on the first date strictly after a rolling anchor that has the shift's weekday. An end time
  before the start time rolls the end to the next day.
  - Dates are epoch days; 1970-01-01 was a Thursday.
  - `BuildSchedule` is the specification and `ShiftsToSchedule` is the source's loop.
- **View model state** (`view_model.dfy`, module `ViewModel`). The class `ScheduleViewModel` has the
  fields `schedule` and `foundErrors`, and the methods `Clear` and `ParseText`.
  - Blank text clears the state.
  - Otherwise the schedule holds the understood shifts in match order, placed from `dayOffset` days
    after `today`.
  - An error is recorded when the whole text does not fit the schedule pattern or when some match
    is not understood. `Parse` is the specification of the state `ParseText` leaves.
  - The regular-expression engine is not modelled. Its results come in as parameters: the list of
    matches, each with its named groups and range, and one boolean for whether the whole text fits
    the schedule pattern.
  - The flagger callback is modelled as the returned sequence of `Flag`s, the calls in order.
- `wrappers.dfy` (module `Wrappers`) holds `Option` and `Result`.

An entry may end exactly when it starts (`m8-8`): lines 112-113 of `ScheduleViewModel.kt` treat
`endTime >= startTime` as same-day, and `Schedules.EntryEnd` states the equality case.

## Model

| member | source | states |
|---|---|---|
| TimeCodes.Clean | app/src/main/java/org/mf/irregularscheduler/ScheduleViewModel.kt:61 | The cleaned code is no longer than the input and holds no whitespace, `:` or `.` |
| TimeCodes.CleanAppend | app/src/main/java/org/mf/irregularscheduler/ScheduleViewModel.kt:61 | Cleaning a concatenation is concatenating the cleaned parts |
| TimeCodes.CleanIdentity | app/src/main/java/org/mf/irregularscheduler/ScheduleViewModel.kt:61 | A code with nothing to clean is returned unchanged |
| TimeCodes.CleanIdempotent | app/src/main/java/org/mf/irregularscheduler/ScheduleViewModel.kt:61 | Cleaning twice is the same as cleaning once |
| TimeCodes.BreakdownTimeCode | app/src/main/java/org/mf/irregularscheduler/ScheduleViewModel.kt:124-141 | A code decodes exactly when it has one to four characters, all digits. One or two digits are whole hours with minute 0. Three or four digits give minutes below 100 and hours such that `100 * hours + minutes` is the code's value |
| TimeCodes.BreakdownFourDigitCode | app/src/main/java/org/mf/irregularscheduler/ScheduleViewModel.kt:135-138 | Writing an hour and a minute as `hhmm` and breaking the code down gives them back |
| TimeCodes.BreakdownOneDigit | app/src/main/java/org/mf/irregularscheduler/ScheduleViewModel.kt:126-129 | A single digit survives cleaning and is that many hours, minute 0 |
| TimeCodes.BreakdownTwoDigits | app/src/main/java/org/mf/irregularscheduler/ScheduleViewModel.kt:126-129 | Two digits survive cleaning and are read as a two-digit number of hours, minute 0 |
| TimeCodes.BreakdownHoursThenMinutes | app/src/main/java/org/mf/irregularscheduler/ScheduleViewModel.kt:130-139 | One or two digits of hours followed by two digits of minutes break down into exactly that hour and minute |
| TimeCodes.CleanDropsSeparator | app/src/main/java/org/mf/irregularscheduler/ScheduleViewModel.kt:61 | Cleaning `hh:mm` or `hh.mm` deletes the separator and nothing else |
| TimeCodes.SeparatedTimeCodeDecodes | app/src/main/java/org/mf/irregularscheduler/ScheduleViewModel.kt:53-54 | A code of the `\d{1,2}[:.]\d{2}` form decodes to the hours before the separator and the minutes after it |
| TimeCodes.DigitTimeCodeDecodes | app/src/main/java/org/mf/irregularscheduler/ScheduleViewModel.kt:53-54 | A code of the `\d{1,4}` form is left as it is by cleaning and always decodes |
| TimeCodes.SeparatedTokenDecodes | app/src/main/java/org/mf/irregularscheduler/ScheduleViewModel.kt:53-54 | Any time code the pattern admits that has a separator decodes to the digits before the separator as hours and the last two as minutes |
| TimeCodes.TimeCodeTokenDecodes | app/src/main/java/org/mf/irregularscheduler/ScheduleViewModel.kt:150-154 | Every time code the pattern admits breaks down after cleaning, so a matched time code never fails to decode |
| Shifts.PlusHours12 | app/src/main/java/org/mf/irregularscheduler/ScheduleViewModel.kt:194-195 | Adding 12 hours gives a time exactly 12 hours later or 12 hours earlier, wrapping at midnight |
| Shifts.DayCode | app/src/main/java/org/mf/irregularscheduler/ScheduleViewModel.kt:159-168 | A recognised day code, lower-cased, is that weekday's code |
| Shifts.DayCodeNamesWeekday | app/src/main/java/org/mf/irregularscheduler/ScheduleViewModel.kt:159-168 | A day string names a weekday exactly when, lower-cased, it is that weekday's code (`m t w r f sa su`) |
| Shifts.LongSIsNoDayCode | app/src/main/java/org/mf/irregularscheduler/ScheduleViewModel.kt:159-168 | A two-letter code starting with `ſ`, which case-insensitive matching takes for `s`, stays `ſ` when lower-cased and names no weekday, so `ſa` and `ſu` are rejected |
| Shifts.AddInt32 | app/src/main/java/org/mf/irregularscheduler/ScheduleViewModel.kt:172 | Kotlin `Int` addition: the exact sum when it fits in 32 bits, otherwise the sum shifted by 2^32 |
| Shifts.Rem24 | app/src/main/java/org/mf/irregularscheduler/ScheduleViewModel.kt:172 | Kotlin `% 24`: the remainder differs from the dividend by a multiple of 24, lies strictly between -24 and 24, and takes the dividend's sign |
| Shifts.DefaultEnd | app/src/main/java/org/mf/irregularscheduler/ScheduleViewModel.kt:171-172 | The default end keeps the start minute. Its hour lies strictly between -24 and 24, and is `(startHour + defaultDuration) % 24` when the sum is non-negative and fits in an Int. Whenever the sum fits in an Int, negative or not, the hour is Kotlin's truncating `% 24` of it (`Rem24`) |
| Shifts.DefaultEndNegativeDuration | app/src/main/java/org/mf/irregularscheduler/ScheduleViewModel.kt:171-172 | A negative sum of start hour and duration gives an end hour from -23 to 0: the sum with whole days of 24 hours removed toward zero. The hour is 0, which the range check accepts, exactly when the sum is a multiple of 24 (from 8 o'clock, -32 hours gives 0 and -10 hours gives -2) |
| Shifts.CheckedTimes | app/src/main/java/org/mf/irregularscheduler/ScheduleViewModel.kt:177-206 | The checks accept exactly when both hours are in 0..24, both minutes in 0..59, and no hour above 12 carries a marker |
| Shifts.Interpret | app/src/main/java/org/mf/irregularscheduler/ScheduleViewModel.kt:144-209 | A match gives a shift exactly when its day code is recognised, its time codes decode and every range and meridiem check passes; the shift's weekday is the day code's |
| Shifts.MatchToShift | app/src/main/java/org/mf/irregularscheduler/ScheduleViewModel.kt:144-216 | The step-by-step method returns what `Interpret` specifies, and reports the match's range once, as valid exactly when a shift is returned |
| Shifts.ClockTimes | app/src/main/java/org/mf/irregularscheduler/ScheduleViewModel.kt:177-206 | The checks followed by in-place `pm` and heuristic adjustments give exactly the checked clock times of `CheckedTimes` |
| Shifts.NonPmMarkerIsNeutral | app/src/main/java/org/mf/irregularscheduler/ScheduleViewModel.kt:194 | With the heuristic off, a start marker other than `pm` on an hour of at most 12 changes nothing: `9am` reads as `9` |
| Shifts.PmAddsTwelveHours | app/src/main/java/org/mf/irregularscheduler/ScheduleViewModel.kt:194 | With the heuristic off, a `pm` marker in any letter case moves the start exactly 12 hours later, wrapping at midnight, and changes nothing else |
| Shifts.TwelvePmIsMidnight | app/src/main/java/org/mf/irregularscheduler/ScheduleViewModel.kt:191-194 | An accepted start of `12pm` is 00:00, whatever the settings |
| Shifts.TwelveAmIsNoon | app/src/main/java/org/mf/irregularscheduler/ScheduleViewModel.kt:191-194 | An accepted start of `12am`, or `12` with any other marker, is 12:00 |
| Shifts.Hour24Start | app/src/main/java/org/mf/irregularscheduler/ScheduleViewModel.kt:191-201 | An accepted unmarked start hour of 24 is 00:00, or 12:00 when the daytime heuristic is on |
| Shifts.AcceptedStart | app/src/main/java/org/mf/irregularscheduler/ScheduleViewModel.kt:170-201 | The start time of an accepted match whose start code is two digits (`00` to `24`) is that hour modulo 24, with `pm` or the heuristic applied |
| Shifts.DecodeWithDefaultEnd | app/src/main/java/org/mf/irregularscheduler/ScheduleViewModel.kt:170-173 | With no end code, when the start hour plus the duration is non-negative and fits in an Int, the decoded end is `(startHour + defaultDuration) % 24` at the start minute |
| Shifts.PlainTimes | app/src/main/java/org/mf/irregularscheduler/ScheduleViewModel.kt:191-195 | With the heuristic off, an accepted match's times are its decoded hours modulo 24 with their minutes, then `pm` applied |
| Shifts.DefaultEndTimes | app/src/main/java/org/mf/irregularscheduler/ScheduleViewModel.kt:170-192 | With no end code, no markers and the heuristic off, and when the start hour plus the duration is non-negative and fits in an Int, the shift starts at the decoded start and ends `defaultDuration` hours later by the clock, at the same minute |
| Shifts.DefaultDurationEnd | app/src/main/java/org/mf/irregularscheduler/ScheduleViewModel.kt:171-173 | In that case the end time is the start time plus `defaultDuration` hours, modulo a day |
| Shifts.DaytimeHeuristic | app/src/main/java/org/mf/irregularscheduler/ScheduleViewModel.kt:197-206 | Turning the heuristic on changes no verdict, error or weekday, and leaves marked starts alone. An unmarked start ends at 07:00 or later, moved by 0 or 12 hours. The end moves only when unmarked, by exactly 12 hours, and only to land after an adjusted start it was before. An end already at or after the start is never moved. Conversely, an unmarked start at or after 07:00 is left alone, and an unmarked end before noon that is before the adjusted start, and would be after it 12 hours later, does gain 12 hours |
| Shifts.AssumeDaytimeMoves | app/src/main/java/org/mf/irregularscheduler/ScheduleViewModel.kt:197-206 | The heuristic on its own, both directions: an unmarked start before 07:00 gains 12 hours and one at or after 07:00 stays; a marked start stays. An end moves only when unmarked, by 12 hours, to land after the adjusted start; an unmarked end before noon, before the adjusted start and after it once 12 hours later, always moves |
| Shifts.ExampleDayCodes | app/src/main/java/org/mf/irregularscheduler/ScheduleViewModel.kt:159-164 | `m`, `w` and `f` name Monday, Wednesday and Friday |
| Shifts.ExampleClockTimes | app/src/main/java/org/mf/irregularscheduler/ScheduleViewModel.kt:177-206 | With the heuristic on, `8-4` and `8-16` read as 08:00 to 16:00 and `10-6` as 10:00 to 18:00; `10pm-6am` reads as 22:00 to 06:00 either way |
| Shifts.MondayEightToFour | app/src/main/java/org/mf/irregularscheduler/ScheduleViewModel.kt:144-209 | `m8-4` with the heuristic on is Monday 08:00 to 16:00 |
| Shifts.WednesdayTenToSix | app/src/main/java/org/mf/irregularscheduler/ScheduleViewModel.kt:197-206 | `w10-6` with the heuristic on is Wednesday 10:00 to 18:00, not an overnight shift ending at 06:00 |
| Shifts.FridayNightShift | app/src/main/java/org/mf/irregularscheduler/ScheduleViewModel.kt:194-206 | `f10pm-6am` is Friday 22:00 to 06:00 with or without the heuristic |
| Shifts.MondayEightDefault | app/src/main/java/org/mf/irregularscheduler/ScheduleViewModel.kt:171-173 | `m8` with an eight-hour default duration is Monday 08:00 to 16:00 |
| Shifts.HourTwentyFiveRejected | app/src/main/java/org/mf/irregularscheduler/ScheduleViewModel.kt:177-178 | `m25-4` is rejected because its start hour is out of range |
| Schedules.SameWeekday | app/src/main/java/org/mf/irregularscheduler/ScheduleViewModel.kt:109 | Two dates share a weekday exactly when they are a whole number of weeks apart |
| Schedules.NextWeekday | app/src/main/java/org/mf/irregularscheduler/ScheduleViewModel.kt:109 | `TemporalAdjusters.next`: the result is one to seven days later and has the requested weekday, and no date in between does |
| Schedules.EntryOn | app/src/main/java/org/mf/irregularscheduler/ScheduleViewModel.kt:111-114 | An entry starts on its work date at the start time and ends at the end time. It lasts exactly the clock difference from start to end, modulo a day |
| Schedules.EntryEnd | app/src/main/java/org/mf/irregularscheduler/ScheduleViewModel.kt:111-114 | The end is on the work date exactly when the end time is not before the start time, otherwise on the next date. The entry never ends before it starts and lasts less than a day. Its end equals its start exactly when the two times are equal |
| Schedules.ShiftOfEntryOn | app/src/main/java/org/mf/irregularscheduler/ScheduleViewModel.kt:111-118 | An entry placed on a date with its shift's weekday gives back that shift: weekday, start and end time |
| Schedules.AnchorAfter | app/src/main/java/org/mf/irregularscheduler/ScheduleViewModel.kt:104-109 | After `n` shifts the anchor is between `n` and `7n` days past the starting date |
| Schedules.BuildSchedule | app/src/main/java/org/mf/irregularscheduler/ScheduleViewModel.kt:103-122 | The schedule has one entry per shift |
| Schedules.BuildScheduleOne | app/src/main/java/org/mf/irregularscheduler/ScheduleViewModel.kt:103-122 | A single shift lands on the first date after the starting date that has its weekday |
| Schedules.BuildScheduleAt | app/src/main/java/org/mf/irregularscheduler/ScheduleViewModel.kt:108-118 | Entry `i` is shift `i` placed on its work date: order is kept |
| Schedules.WorkDateStep | app/src/main/java/org/mf/irregularscheduler/ScheduleViewModel.kt:109 | Each work date is one to seven days after the previous anchor. It has the shift's weekday, and it is the first date after the anchor that does |
| Schedules.WorkDateWeekday | app/src/main/java/org/mf/irregularscheduler/ScheduleViewModel.kt:109 | Every shift is placed on a date with its weekday |
| Schedules.WorkDatesIncrease | app/src/main/java/org/mf/irregularscheduler/ScheduleViewModel.kt:104-109 | The anchor is never reset: the work dates strictly increase, by at least a day per shift |
| Schedules.SameWeekdayAWeekApart | app/src/main/java/org/mf/irregularscheduler/ScheduleViewModel.kt:109 | Two shifts on the same weekday land at least seven days apart, the later shift later |
| Schedules.ScheduleStartsIncrease | app/src/main/java/org/mf/irregularscheduler/ScheduleViewModel.kt:108-118 | The entries' start instants strictly increase along the schedule |
| Schedules.ShiftsToSchedule | app/src/main/java/org/mf/irregularscheduler/ScheduleViewModel.kt:103-122 | The loop with its rolling work day builds exactly `BuildSchedule` |
| ViewModel.Outcomes | app/src/main/java/org/mf/irregularscheduler/ScheduleViewModel.kt:91 | One outcome per match |
| ViewModel.KeepPresent | app/src/main/java/org/mf/irregularscheduler/ScheduleViewModel.kt:91 | `mapNotNull` keeps at most as many values as outcomes. It keeps as many exactly when every outcome has a value, and then value `i` is outcome `i`'s; `KeepPresentKeepsEach` and `KeepPresentFrom` cover dropped outcomes, one kept value per present outcome |
| ViewModel.KeepPresentKeepsEach | app/src/main/java/org/mf/irregularscheduler/ScheduleViewModel.kt:91 | Every outcome with a value is kept, even when other outcomes are dropped: it sits at the index equal to the number of values kept before it |
| ViewModel.KeepPresentPrefixGrows | app/src/main/java/org/mf/irregularscheduler/ScheduleViewModel.kt:91 | A longer prefix of the outcomes never keeps fewer values |
| ViewModel.KeepPresentFrom | app/src/main/java/org/mf/irregularscheduler/ScheduleViewModel.kt:91 | Every kept value is the value of the one outcome that has exactly as many values kept before it as the value's index, so no value is kept twice or invented |
| ViewModel.OutcomeAt | app/src/main/java/org/mf/irregularscheduler/ScheduleViewModel.kt:91 | Outcome `i` is what `matchToShift` gives for match `i` |
| ViewModel.OutcomesPrefix | app/src/main/java/org/mf/irregularscheduler/ScheduleViewModel.kt:91 | Interpreting a prefix of the matches gives the same prefix of the outcomes |
| ViewModel.OutcomesUnderstood | app/src/main/java/org/mf/irregularscheduler/ScheduleViewModel.kt:91 | Match `i` has an outcome exactly when it is understood, and then the outcome is its shift |
| ViewModel.InterpretedShifts | app/src/main/java/org/mf/irregularscheduler/ScheduleViewModel.kt:91 | No more shifts than matches. Exactly as many exactly when every match is understood, and then shift `i` is match `i`'s. Kept shift `k` is the shift of the understood match whose `EntryIndex` is `k`; `InterpretedKeepsEach` says every understood match's shift is kept, in match order |
| ViewModel.InterpretedKeepsEach | app/src/main/java/org/mf/irregularscheduler/ScheduleViewModel.kt:91 | The shift of understood match `i` is kept, at the index counting the shifts kept from the matches before it; that index grows strictly with `i`, so understood shifts keep the matches' order |
| ViewModel.InterpretedOne | app/src/main/java/org/mf/irregularscheduler/ScheduleViewModel.kt:91 | A single match leaves exactly its own shift when it is understood, and nothing when it is not |
| ViewModel.InterpretAll | app/src/main/java/org/mf/irregularscheduler/ScheduleViewModel.kt:90-91 | The loop keeps exactly the shifts `mapNotNull` keeps. It reports one flag per match, in order, with that match's range, valid exactly when the match is understood |
| ViewModel.Parse | app/src/main/java/org/mf/irregularscheduler/ScheduleViewModel.kt:86-101 | Blank text gives the cleared state; the schedule never has more entries than there are matches |
| ViewModel.ParseFindsErrors | app/src/main/java/org/mf/irregularscheduler/ScheduleViewModel.kt:99 | For text that is not blank, errors are found exactly when the whole text does not fit the schedule pattern or some match is not understood |
| ViewModel.ErrorFreeKeepsEveryShift | app/src/main/java/org/mf/irregularscheduler/ScheduleViewModel.kt:91-99 | Without errors the schedule has one entry per match, and entry `i` gives back match `i`'s shift |
| ViewModel.ParseKeepsEachUnderstood | app/src/main/java/org/mf/irregularscheduler/ScheduleViewModel.kt:91-96 | For text that is not blank, every understood match has an entry, even when other matches are rejected, and that entry gives back the match's shift |
| ViewModel.ParseKeepsMatchOrder | app/src/main/java/org/mf/irregularscheduler/ScheduleViewModel.kt:91-96 | For text that is not blank, the entries of two understood matches come in match order, and the earlier match's entry starts strictly earlier |
| ViewModel.EntriesComeFromMatches | app/src/main/java/org/mf/irregularscheduler/ScheduleViewModel.kt:91-96 | Whether or not there are errors, entry `k` gives back the shift of the understood match whose `EntryIndex` is `k`. With `ParseKeepsEachUnderstood` and `ParseKeepsMatchOrder`, entries and understood matches correspond one to one, in order |
| ViewModel.BlankTextClears | app/src/main/java/org/mf/irregularscheduler/ScheduleViewModel.kt:87-88 | Empty text and text of spaces clear the state, whatever the matches and settings |
| ViewModel.ParseOneUnderstood | app/src/main/java/org/mf/irregularscheduler/ScheduleViewModel.kt:89-100 | Text that is one understood match gives one entry, on the first date after the start with its weekday, and no errors |
| ViewModel.ParseOneRejected | app/src/main/java/org/mf/irregularscheduler/ScheduleViewModel.kt:89-100 | Text that is one rejected match gives an empty schedule with errors |
| ViewModel.ParseMatches | app/src/main/java/org/mf/irregularscheduler/ScheduleViewModel.kt:89-100 | The non-blank branch computes exactly the state `Parse` specifies, and reports each match as `ReportsEachMatch` says |
| ViewModel.ScheduleViewModel.constructor | app/src/main/java/org/mf/irregularscheduler/ScheduleViewModel.kt:62-63 | A new view model holds the empty schedule and no errors |
| ViewModel.ScheduleViewModel.Clear | app/src/main/java/org/mf/irregularscheduler/ScheduleViewModel.kt:77-80 | `clear` leaves the empty schedule and no errors |
| ViewModel.ScheduleViewModel.ParseText | app/src/main/java/org/mf/irregularscheduler/ScheduleViewModel.kt:86-101 | The new state is `Parse` of the arguments, with the start `dayOffset` days after `today`, whatever the old state. Blank text reports no flags. Otherwise every match is reported once, in order, valid exactly when understood |
| ViewModel.ReparseIsIdempotent | app/src/main/java/org/mf/irregularscheduler/ScheduleViewModel.kt:86-101 | Parsing the same arguments twice leaves the same state and reports the same flags both times |

## Left out

- The Java regular-expression engine (`shiftRegex.findAll`, `scheduleRegex.matches`, lines 53-60, 90 and 99) is not modelled. The matches with their groups and ranges, and the whole-text verdict, are parameters. Because of that, a case-insensitive `AM`/`PM` or day code is handled, but which texts produce which matches is not proved.
- `SharedPreferences` (lines 39-41) is not modelled: `assumeDaytime` and `defaultDuration` are fields of the `Config` parameter. Reading a non-numeric `defaultDuration` as 8 is not modelled.
- `LocalDate.now()` (line 94) is not modelled: `today` is a parameter of `ParseText`. Date range limits of `LocalDate` are not modelled, since dates are unbounded epoch days.
- Time zones and `getStartAsDate`/`getEndAsDate` (lines 46-47) are not modelled: entries keep local date-times.
- `generatePreview` (lines 218-238) is not modelled. It is locale-dependent formatting and HTML rendering. Its overnight marker compares day-of-month (line 223), which `Schedules.EntryEnd` covers through the end date.
- `printStackTrace` and the commented-out logging are left out as output only.
- `TimeCodes.ToInt`: only strings of ASCII digits are read. The time-code pattern admits no sign. On Android, though, the regular-expression engine reads `\d` as any Unicode decimal digit, and Kotlin's `toInt` reads those digits too. So a time code such as `٨` (Arabic-Indic eight) is accepted by the app as 8 but rejected by the model, which then flags the match and records an error.
- `Shifts.DayCode`: lower-casing is modelled on ASCII letters only. The case-insensitive day-code pattern admits one non-ASCII letter: `ſ` (long s, whose upper case is `S`), in `ſa` and `ſu`. `lowercase()` keeps `ſ`, so the app and the model both reject such a code, as `Shifts.LongSIsNoDayCode` states.
- `Shifts.DefaultDurationEnd`: stated for an unmarked start with the heuristic off, a non-negative duration, and a start hour plus duration that fits in an Int. For negative durations, `Shifts.DefaultEnd` and `Shifts.DefaultEndNegativeDuration` give the end hour. For sums that overflow, `Shifts.DefaultEnd` gives only the bound, and `Shifts.AddInt32` states the wrap-around. With markers or the heuristic, the end is first computed this way and then adjusted as `Shifts.PlainTimes` and `Shifts.DaytimeHeuristic` state.
- Concurrency is not modelled. `SubmitFragment.kt` (lines 81-113) reads `schedule` and calls `clear` from a background thread while `parseText` runs on the UI thread; interleavings of `clear` with `parseText` are not modelled, and each method is taken as one atomic step.
