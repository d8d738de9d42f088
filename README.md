# Gym booking bot: the decision core in Dafny

This project models the decision logic of `gym_booking_bot.py`. The bot
books gym classes and swim lanes on a member portal. It runs from a
schedule CSV with one row per recurring booking (`user`, `instructor`,
`day_of_week`, `time`). On each run it works out which rows are due. A row
is due when the date eight days ahead falls on the row's weekday and the
row's time passed less than fifteen minutes ago. Each due row is then
booked in a browser.

The model covers the parts of that work that are logic rather than
browser automation:

- `schedule.dfy` (module `Schedule`): `_parse_schedule_content`, which
  turns the CSV text into validated entries and logs a reason for every
  row it skips. It is an imperative method (`ParseScheduleContent`) with
  its two loops, proved equal to a functional specification
  (`ParseSchedule`). Lemmas about that specification say which rows are
  kept, in what order, and when the whole parse gives up.
- `eligibility.dfy` (module `Eligibility`): `_is_booking_time`, the
  eight-days-ahead, fifteen-minute booking window. `DueAt` is an
  independent reference rule on an absolute minute axis, and the window's
  edges and its once-a-week property are proved.
- `swim.dfy` (module `Swim`): `_parse_swim_instructor`, which reads an
  instructor field such as `Swim(30)` as a swim booking. It also holds the
  lane loop of `book_swim_lane`, which tries lanes 2, 3, 4, 1 and takes
  the first button that shows the wanted time.
- `period.dfy` (module `Period`): `_infer_time_period`, which maps a time
  to morning, afternoon or evening.
- `scheduler.dfy` (module `Scheduler`): the decision loop of
  `run_scheduled_bookings`, up to the point where a browser is started.
  This covers the due check, the duplicate-slot filter and its
  swim-conflict message, and the choice between a swim and a class
  booking.
- `text.dfy` (module `Text`) and `wrappers.dfy` (module `Wrappers`): the
  Python built-ins these rely on. `str.strip`, `str.lower`, `str.split`,
  `str.startswith` and `int()` are written out with the edge cases the
  parser meets, for example `int(" 08 ") == 8`, `int("1_0") == 10` and
  `int("")` raising.

The built-ins and the CSV reader are modelled as CPython 3.11 and later
behave. Two details depend on that version:

- `int()` refuses a decimal text of more than 4300 digits. This is the
  default of `sys.get_int_max_str_digits()`, and leading zeros count
  towards it (`Text.MaxStrDigits`).
- The CSV reader accepts NUL characters.

`int()` skips less whitespace than `str.strip()` removes. It skips ASCII
tab, line feed, vertical tab, form feed, carriage return and space, and
every non-ASCII whitespace character, but not the ASCII separators U+001C
to U+001F (`Text.IsIntSpace`). So a time field `8:\x1c15` survives the
field's `strip()` and is then refused as an invalid time
(`Schedule.ParseClockSeparator`).

The clock is a parameter. `Instant` is a local time whose day number `d`
has weekday `d % 7`, with Monday as 0. Browser pages show up only as data:
a swim page is the time text of each lane's booking buttons.

Some behaviours of the code are wider or narrower than its messages and
comments suggest. The model follows the code in each case:

- A `csv.Error` from the CSV reader is caught by the outer handler
  (gym_booking_bot.py:1090-1092), not by the per-row one at :1086-1088.
  So it throws away every entry collected so far and returns `[]`. The
  model has this as the `ParseError` path (`Schedule.ParseScheduleAborts`).
  Without quoting, and on CPython 3.11 and later, the reader raises in two
  cases: a carriage return inside a line, or a field longer than 131072
  characters.
- The time message at :1075 asks for `HH:MM`, but the check does not need
  leading zeros: `8:5` is accepted as five past eight
  (`Schedule.ParseClockUnpadded`).
- The swim warning at :1163 names `Swim(15)` and `Swim(30)` as the format.
  The code, however, uses an unanchored `re.search` on the lower-cased
  field. So it takes the leftmost `swim(<digits>)` anywhere in the field,
  leading zeros included: `Swim(030)` books a 30-minute swim
  (`Swim.SwimFromLeftmost`, `Swim.LeadingZeroExample`). A spec such as
  `Swim(` followed by 4301 digits and `)` makes `int()` raise at :1159.
  That exception leaves the parser, so the whole entry is skipped by the
  handler at :1265-1267 (`Scheduler.OverlongSwimSkipped`).
- The parser requires a time to have exactly two `:`-separated parts. The
  eligibility check reads only the first two parts, so it accepts
  `"8:00:99"` (`Eligibility.EntryClockExtraPart`). Parsed entries never
  have such a time, so on a parsed schedule the two readings agree
  (`Eligibility.EntryClockAgrees`).
- The duplicate message tests `startswith('Swim(')` with a capital S. The
  swim parser ignores case. So a slot shared under `swim(30)` is booked as
  a swim but reported as a class conflict
  (`Scheduler.SwimConflictCaseSensitive`). This only changes the text of a
  log message.

## Model

| member | source | states |
|---|---|---|
| Schedule.ParseScheduleContent | gym_booking_bot.py:1010-1095 | the method's result and log are exactly `ParseSchedule(content)`; text with no kept lines gives no entries and the empty-schedule message |
| Schedule.CollectLines | gym_booking_bot.py:1027-1031 | the first loop returns exactly the stripped lines that are neither blank nor start with `#`, in order |
| Schedule.ReadRows | gym_booking_bot.py:1038-1089 | the row loop's entries, log and abort flag are those of the fold `Fold` over the rows' outcomes |
| Schedule.ParseClock | gym_booking_bot.py:1064-1070 | an accepted time has exactly two `:` parts, an hour in 0..23 and a minute in 0..59 |
| Schedule.CleanedRow | gym_booking_bot.py:1042-1045 | the four fields by `row.get(key, '')`, each stripped, with user and day lower-cased; `None` when a short row leaves one of them `None`, so that `.strip()` raises (definition, no contract of its own) |
| Schedule.ClassifyRow | gym_booking_bot.py:1040-1088 | the body of the per-row `try`: a short row is a row error, otherwise the checks on the cleaned fields (definition; see `ClassifyRowSound`, `ClassifyRowComplete`, `ClassifyRowSkipped`) |
| Schedule.ClassifyEntry | gym_booking_bot.py:1047-1084 | the checks in the source's order (empty field, user, day, time) and the quarter-hour warning (definition) |
| Schedule.CsvError | gym_booking_bot.py:1038-1039 | the lines on which the CSV reader raises: a carriage return inside the line, or a field over the size limit (definition) |
| Schedule.Step | gym_booking_bot.py:1039-1092 | one turn of the row loop: append or skip with its message; after the reader raises, nothing more happens and the entries are dropped (definition) |
| Schedule.FieldOf | gym_booking_bot.py:1042-1045 | `row.get(key, '')` gives `''` when the header lacks the key, and `None` exactly when the header has the key but the row is too short to reach its last column |
| Schedule.LastIndexOf | gym_booking_bot.py:1038 | a duplicated header key takes the value of its last column, as `csv.DictReader` builds its dictionary |
| Schedule.ClassifyRowSound | gym_booking_bot.py:1042-1084 | an accepted row's entry is its own cleaned fields under its row number, and it is valid: known user and day, non-empty stripped instructor, stripped in-range time |
| Schedule.ClassifyRowComplete | gym_booking_bot.py:1047-1076 | conversely, a complete row whose cleaned fields are valid is accepted, so the checks are the only ways to skip a row; since validity says nothing about quarter hours, an off-quarter minute never causes a skip |
| Schedule.EntryChecksPass | gym_booking_bot.py:1047-1076 | a valid entry passes every check of the row body |
| Schedule.ClassifyRowWarning | gym_booking_bot.py:1071-1073 | an accepted row is flagged off-quarter exactly when its minute is not 0, 15, 30 or 45 |
| Schedule.ClassifyRowSkipped | gym_booking_bot.py:1047-1088 | a skipped row is reported under its own row number with one of the five reasons, and as a row error exactly when a field is missing from a short row |
| Schedule.AbortSticks | gym_booking_bot.py:1090-1092 | once the CSV reader has raised, later rows change nothing |
| Schedule.FoldSound | gym_booking_bot.py:1039-1084 | every kept entry is the accepted outcome of the row its row number names, and an aborted loop keeps nothing |
| Schedule.FoldOrdered | gym_booking_bot.py:1039 | kept entries come in strictly increasing row number |
| Schedule.FoldValid | gym_booking_bot.py:1078-1084 | the loop keeps only entries that some row accepted |
| Schedule.FoldAborted | gym_booking_bot.py:1039-1092 | the loop aborts exactly when some row is unreadable, and exactly then logs a CSV error |
| Schedule.FoldComplete | gym_booking_bot.py:1039-1089 | without an abort, every accepted row's entry is kept, every off-quarter row logs a warning and every skipped row logs its reason; a bad row never stops later rows |
| Schedule.OutcomesNumbered | gym_booking_bot.py:1039 | the k-th data row is numbered k + 2, the header being row 1 |
| Schedule.OutcomesValid | gym_booking_bot.py:1047-1084 | every accepted outcome holds a valid entry |
| Schedule.OutcomesNoParseError | gym_booking_bot.py:1086-1088 | no per-row skip reason is the whole-parse CSV error |
| Schedule.KeepLinesSpec | gym_booking_bot.py:1027-1031 | the kept lines are stripped, non-blank and not comments, and they are exactly the strips of the raw lines that qualify |
| Schedule.CleanLinesSpec | gym_booking_bot.py:1027-1031 | the same, stated for the text split on `\n` |
| Schedule.ParseScheduleValid | gym_booking_bot.py:1010-1095 | every returned entry is valid |
| Schedule.LinesValid | gym_booking_bot.py:1037-1095 | every entry parsed from the kept lines is valid |
| Schedule.RowsOrigin | gym_booking_bot.py:1039-1084 | each entry of the row loop is what the kept line its row number names classifies as |
| Schedule.ParseScheduleOrigin | gym_booking_bot.py:1010-1095 | every returned entry comes from the kept line its row number names, under the header's columns |
| Schedule.LinesOrigin | gym_booking_bot.py:1037-1095 | the same, on the kept lines |
| Schedule.ParseScheduleOrdered | gym_booking_bot.py:1039-1084 | returned entries are in input order |
| Schedule.LinesOrdered | gym_booking_bot.py:1039-1084 | the same, on the kept lines |
| Schedule.RowsOrdered | gym_booking_bot.py:1039-1084 | the row loop's entries are in increasing row number |
| Schedule.ParseScheduleComplete | gym_booking_bot.py:1039-1089 | when every kept line is readable CSV, each accepted row's entry is returned, each off-quarter row is warned about and each skipped row's reason is logged |
| Schedule.LinesComplete | gym_booking_bot.py:1039-1089 | the same, on the kept lines |
| Schedule.RowsReadable | gym_booking_bot.py:1039-1092 | readable rows never abort the row loop |
| Schedule.ParseScheduleAborts | gym_booking_bot.py:1090-1092 | the log holds the CSV error exactly when some kept line is unreadable, and then no entry is returned |
| Schedule.LinesAbort | gym_booking_bot.py:1090-1092 | the same, on the kept lines |
| Schedule.RowsAbort | gym_booking_bot.py:1039-1092 | under a readable header, the row loop aborts exactly when a kept line is unreadable, and exactly then logs the CSV error |
| Schedule.UnreadableRows | gym_booking_bot.py:1038-1039 | a row's outcome is unreadable exactly when the CSV reader raises on its line |
| Schedule.ParseClockExample | gym_booking_bot.py:1064-1070 | `"08:15"` reads as (8, 15) |
| Schedule.ParseClockUnpadded | gym_booking_bot.py:1064-1070 | `"8:5"` reads as (8, 5): no leading zeros are needed |
| Schedule.ParseClockSeparator | gym_booking_bot.py:1068-1075 | the time `8:\x1c15` is refused as an invalid time, because `int()` does not skip the separator |
| Schedule.ParseClockThreeParts | gym_booking_bot.py:1065-1067 | `"8:00:99"` is refused for having three parts |
| Schedule.ClockOfDigits | gym_booking_bot.py:1064-1070 | two digit runs around a `:`, in range, read as hour and minute |
| Schedule.CleanedFourFields | gym_booking_bot.py:1038-1045 | under the header `user,instructor,day_of_week,time`, a row of four trimmed fields with lower-case user and day is taken over as it stands |
| Schedule.ExampleRowAccepted | gym_booking_bot.py:1040-1084 | `peter,Mari,saturday,08:15`, as row 2, is accepted with no warning |
| Schedule.TwoKeptLines | gym_booking_bot.py:1027-1031 | a trimmed, non-comment header line and row, joined by a newline, are the two kept lines |
| Schedule.OneRowParse | gym_booking_bot.py:1037-1095 | a readable header over one row accepted without a warning gives that entry and the count 1 |
| Schedule.ParseExample | gym_booking_bot.py:1010-1095 | the two-line schedule `user,instructor,day_of_week,time` / `peter,Mari,saturday,08:15` gives the entry `(peter, Mari, saturday, 08:15, row 2)` and the count 1 |
| Schedule.UnreadableAfterHeader | gym_booking_bot.py:1038-1039 | under a readable header, an unreadable kept line is a data row |
| Eligibility.EntryClockExtraPart | gym_booking_bot.py:1119-1125 | `"8:00:99"` reads as 08:00 in the check although the parser refuses it |
| Eligibility.DueExample | gym_booking_bot.py:1108-1132 | `peter,Mari,saturday,08:15` at 08:16, eight days before a Saturday, is due for that Saturday |
| Eligibility.NotDueExamples | gym_booking_bot.py:1127-1138 | the same entry at 08:14 is one minute early, and at 08:30 its window has closed |
| Eligibility.EntryClock | gym_booking_bot.py:1119-1125 | the check reads a time only when it has at least two `:` parts |
| Eligibility.IsBookingTime | gym_booking_bot.py:1097-1139 | the target is the day eight days ahead; the check raises exactly when the weekday matches and the time cannot be read |
| Eligibility.ClockState | gym_booking_bot.py:1119-1138 | on a matching weekday, the time decides the answer exactly when it can be read |
| Eligibility.Compare | gym_booking_bot.py:1128-1138 | due exactly when 0 <= now - scheduled < 15 minutes, and not yet exactly when now is before the scheduled time |
| Eligibility.EntryClockAgrees | gym_booking_bot.py:1119-1121 | the check reads a parsed time as the parser did |
| Eligibility.ValidEntryCheckable | gym_booking_bot.py:1115-1125 | the check never raises on a valid entry |
| Eligibility.ParsedEntriesCheckable | gym_booking_bot.py:1115-1125 | the check never raises on any entry of a parsed schedule |
| Eligibility.DueRule | gym_booking_bot.py:1108-1132 | an entry is due exactly when the reference rule `DueAt` holds: the weekday eight days on matches and 0 to 14 minutes have passed since its time today |
| Eligibility.MatchingDay | gym_booking_bot.py:1115-1139 | on a matching weekday the answer is the comparison of the current minute with the entry's |
| Eligibility.WindowEdges | gym_booking_bot.py:1127-1132 | at the slot's minute T and at T + 14 the entry is due; at T - 1 and T + 15 it is not |
| Eligibility.WrongWeekdayNeverDue | gym_booking_bot.py:1111-1116 | any other weekday gives "not due" with the target date, and never raises |
| Eligibility.SecondsIgnored | gym_booking_bot.py:1124 | seconds and microseconds of the current time play no part |
| Eligibility.Weekly | gym_booking_bot.py:1108-1116 | the answer repeats every seven days, the target moving on with it |
| Eligibility.OneWindowPerWeek | gym_booking_bot.py:1108-1132 | two due instants are a whole number of weeks apart, and on one day less than 15 minutes apart |
| Swim.ParseSwimInstructor | gym_booking_bot.py:1141-1164 | a swim always has a duration of 15 or 30; "not a swim" exactly when the lower-cased field does not start with `swim`; the outcome "raises" is separate from the warning |
| Swim.Search | gym_booking_bot.py:1157 | `re.search` for `swim\((\d+)\)`: position by position, the first match and its digit count (definition; see `SearchSpec`) |
| Swim.SpecDigits | gym_booking_bot.py:1153-1161 | `swim(<digits>)` in any case reads its digits as the duration, leading zeros included, and is a swim exactly when they read as 15 or 30 |
| Swim.LeadingZeroExample | gym_booking_bot.py:1157-1161 | `Swim(030)` books a 30-minute swim |
| Swim.TooManyDigitsSpec | gym_booking_bot.py:1159 | a duration of more than 4300 digits makes `int()`, and so the parser, raise |
| Swim.DigitRunSpec | gym_booking_bot.py:1157 | the digit run at a position is all digits and ends at a non-digit or the end |
| Swim.DigitRunExact | gym_booking_bot.py:1157 | a run of digits ended by a non-digit is the whole run |
| Swim.MatchLengthSpec | gym_booking_bot.py:1157 | the match length at a position is a match, and there is none exactly when no length matches there |
| Swim.SearchSpec | gym_booking_bot.py:1157 | the search returns the leftmost match, or none when the pattern occurs nowhere |
| Swim.MatchUnique | gym_booking_bot.py:1157 | a match at a position has only one length |
| Swim.SearchFindsLeftmost | gym_booking_bot.py:1157 | the search from the start finds the leftmost match |
| Swim.SwimFromLeftmost | gym_booking_bot.py:1153-1164 | the result is decided by the leftmost match alone: the parser raises when it has more digits than `int()` reads, is a swim when its digits read as 15 or 30, and otherwise warns |
| Swim.SwimWithoutMatch | gym_booking_bot.py:1153-1164 | a swim-prefixed field with no match draws the warning |
| Swim.SwimHasMatch | gym_booking_bot.py:1157-1161 | a swim result comes from the leftmost match, whose digits read as its duration |
| Swim.CaseInsensitive | gym_booking_bot.py:1153-1157 | fields equal up to case give the same result |
| Swim.CanonicalSpec | gym_booking_bot.py:1153-1161 | `Swim(15)` or `Swim(30)`, with the word in any case, books a swim of that length |
| Swim.NoParenNoMatch | gym_booking_bot.py:1157 | without a `(` the pattern cannot occur |
| Swim.ClassNameExample | gym_booking_bot.py:1153-1154 | `Mari` is not a swim and draws no warning |
| Swim.SwimThirtyExample | gym_booking_bot.py:1153-1161 | `Swim(30)` gives `(True, 30)` |
| Swim.SwimFifteenUpperExample | gym_booking_bot.py:1153-1161 | `SWIM(15)` gives `(True, 15)` |
| Swim.SwimFortyFiveExample | gym_booking_bot.py:1158-1164 | `Swim(45)` is refused with a warning |
| Swim.SwimmingExample | gym_booking_bot.py:1153-1164 | `Swimming` is refused with a warning |
| Swim.FirstSlot | gym_booking_bot.py:830-848 | the first button of a lane showing the time: it shows the time and no earlier button does |
| Swim.SelectLaneSlot | gym_booking_bot.py:801-863 | the lane loop clicks exactly what the reference choice `LaneChoice` names, or nothing; a button whose time could not be read or whose click raised counts as not matching |
| Swim.LaneChoiceSpec | gym_booking_bot.py:801-863 | nothing is chosen exactly when no lane in the order offers the time; otherwise the lane is the first in the order that does, and the button is the first at that time in it |
| Swim.LaneTwoFirst | gym_booking_bot.py:802 | lane 2 wins whenever it offers the time |
| Swim.MissingLanesSkipped | gym_booking_bot.py:815-817 | a lane beyond the lanes on the page is never chosen |
| Swim.LaneOneLast | gym_booking_bot.py:802 | when lane 1 offers the time something is chosen, and it is lane 1 exactly when lanes 2, 3 and 4 do not offer it |
| Period.InferTimePeriod | gym_booking_bot.py:495-517 | an hour `int()` cannot read falls back to the morning |
| Period.PeriodOfValidTime | gym_booking_bot.py:507-514 | for a parsed time: morning exactly for hours 0 to 11, afternoon for 12 to 16, evening for 17 to 23 |
| Period.PeriodMonotone | gym_booking_bot.py:509-514 | a later hour never falls in an earlier period |
| Period.PeriodIgnoresMinutes | gym_booking_bot.py:507 | times with the same hour share a period |
| Scheduler.Duplicates | gym_booking_bot.py:1196-1199 | the duplicates are exactly the schedule's entries with the same instructor, time and day, and there are no more of them than entries |
| Scheduler.SelfDuplicate | gym_booking_bot.py:1196-1199 | an entry is among its own duplicates, so there is always at least one |
| Scheduler.PairGivesTwo | gym_booking_bot.py:1196-1201 | two positions holding the slot make at least two duplicates |
| Scheduler.TwoGivesPair | gym_booking_bot.py:1196-1201 | at least two duplicates come from two positions holding the slot |
| Scheduler.TwoDuplicates | gym_booking_bot.py:1196-1201 | at least two duplicates exactly when two positions hold the slot |
| Scheduler.ConflictIff | gym_booking_bot.py:1196-1201 | the conflict test holds for the entry at a position exactly when another position holds the same slot |
| Scheduler.SwimConflictCaseSensitive | gym_booking_bot.py:1203 | `swim(30)` is booked as a 30-minute swim yet not reported as a swim conflict |
| Scheduler.IsSwimConflict | gym_booking_bot.py:1203 | the case-sensitive `startswith('Swim(')` test (definition; see `SwimConflictCaseSensitive`) |
| Scheduler.SharingOf | gym_booking_bot.py:1196-1213 | which conflict message a due entry draws: none when its slot has one entry, the swim one or the class one otherwise (definition; see `ConflictIff`, `SharedSlotMarked`) |
| Scheduler.BookingFor | gym_booking_bot.py:1215-1256 | a swim spec gives a swim booking of its length; any other field that does not raise (a plain name, or a refused swim spec) gives a class booking under the field as written (definition; see `BookingShape`) |
| Scheduler.OverlongSwimSkipped | gym_booking_bot.py:1216 | a due entry whose swim duration has more than 4300 digits never reaches the browser: the parser raises and the handler at :1265-1267 skips it |
| Scheduler.BookingExample | gym_booking_bot.py:1185-1256 | the schedule `user,instructor,day_of_week,time` / `peter,Mari,saturday,08:15`, run at 08:16 eight days before a Saturday, gives exactly one attempt: Peter in Mari's 08:15 class that Saturday, with nobody sharing the slot |
| Scheduler.PlanBookings | gym_booking_bot.py:1186-1223 | the loop's attempts are exactly `Plan(schedule, schedule, now)`, in schedule order |
| Scheduler.DueCheck | gym_booking_bot.py:1187-1190 | the entry is due exactly when `_is_booking_time` says to book, and the target is eight days ahead; a check that raises counts as not due, since the handler at :1265-1267 skips the entry |
| Scheduler.CheckEntry | gym_booking_bot.py:1187-1191 | an entry yields an attempt exactly when it is due and its swim spec does not raise; one on which the check or the swim parser raises is skipped |
| Scheduler.DueAttempt | gym_booking_bot.py:1196-1223 | a due entry's attempt carries its sharing status and its swim or class booking, or there is none when the swim parser raises |
| Scheduler.PlanExact | gym_booking_bot.py:1185-1223 | every due entry whose swim spec does not raise gets an attempt, and every attempt belongs to such an entry |
| Scheduler.PlanLength | gym_booking_bot.py:1185-1223 | there are never more attempts than entries |
| Scheduler.BookingShape | gym_booking_bot.py:1216-1254 | every booking targets the day eight days ahead; a swim books 15 or 30 minutes under a field that parses as that swim; a class keeps the instructor field, which is not a usable swim spec |
| Scheduler.SharedSlotMarked | gym_booking_bot.py:1196-1201 | two positions holding the same slot mark each other as shared |
| Scheduler.TimedPlan | gym_booking_bot.py:1185-1223 | on a schedule of readable times, the due entries are exactly those of the reference rule, and each of them whose swim spec does not raise is attempted |
| Scheduler.ParsedPlan | gym_booking_bot.py:1177-1223 | on a parsed schedule, an entry is due exactly when the reference rule holds |
| Text.Strip | gym_booking_bot.py:1029 | `str.strip()`: the leading and trailing `isspace` characters removed (definition; see `StripSpec`, `StripPadded`) |
| Text.Lower | gym_booking_bot.py:1042 | `str.lower()` on ASCII: same length, no upper-case letter left, every non-upper-case character kept |
| Text.LowerConcat | gym_booking_bot.py:1042 | lower-casing distributes over concatenation, `(a + b).lower() == a.lower() + b.lower()` |
| Text.SplitOn | gym_booking_bot.py:1028 | `str.split(sep)`: never an empty list (see `SplitPieces`, `JoinSplit`, `SplitJoin`) |
| Text.PyInt | gym_booking_bot.py:1068 | `int()`: surrounding `int()` whitespace (not U+001C to U+001F), one sign, digit groups with single underscores, at most 4300 digits; anything else raises (definition; see `PyIntDigits`, `PyIntTooLong`, `SeparatorSurvives`, `IntStripAgrees`) |
| Text.IntStripAgrees | gym_booking_bot.py:1068 | on text without U+001C to U+001F, `int()` skips exactly the whitespace `str.strip()` removes |
| Text.SeparatorSurvives | gym_booking_bot.py:1068 | a separator U+001C to U+001F anywhere in the text is still there after `int()` skips its whitespace, so `int()` raises |
| Text.SeparatorNotSkipped | gym_booking_bot.py:1068 | `"\x1c15".strip() == "15"`, but `int("\x1c15")` raises |
| Text.PyIntTooLong | gym_booking_bot.py:1068 | more than 4300 digits raise, whatever the value, so leading zeros count |
| Text.StripSpec | gym_booking_bot.py:1029 | the result of `strip()` has no whitespace at either end |
| Text.StripPadded | gym_booking_bot.py:1042-1045 | `strip()` removes exactly the surrounding whitespace: padding a trimmed text on either side strips back to it |
| Text.StripIdempotent | gym_booking_bot.py:1029 | stripping twice is stripping once |
| Text.LowerIdempotent | gym_booking_bot.py:1042 | lower-casing twice is lower-casing once |
| Text.SplitPieces | gym_booking_bot.py:1065 | no piece of a split holds the separator |
| Text.JoinSplit | gym_booking_bot.py:1028 | joining the pieces of a split gives back the text |
| Text.SplitJoin | gym_booking_bot.py:1065 | splitting a join of separator-free pieces gives back the pieces |
| Text.PyIntDigits | gym_booking_bot.py:1068 | `int()` reads a run of at most 4300 decimal digits as its value, leading zeros included |
| Text.PyIntDecimal | gym_booking_bot.py:1159 | `int(str(n)) == n` for every `n` whose decimal text `str()` writes at all (4300 digits or fewer) |

## Left out

- Browser automation is left out: Playwright, login, navigation, selectors, clicking, `book_class` and the rest of `book_swim_lane`. It depends on one website's markup. The lane loop sees the page only as each button's time text.
- The regular expression `\b(\d{1,2}:\d{2})\b` that pulls a time out of a button's text is left out. A lane's buttons arrive already reduced to that text, or `None` where none was found, reading the button raised, or clicking it raised. The `except` at gym_booking_bot.py:849-851 catches a failed click like any other error, so the loop moves on to the next button.
- Fetching the schedule from S3, environment variables and credentials are left out. They are I/O; the parser takes the text as a parameter.
- `datetime.now` with the `Europe/London` zone is left out. The current time is a parameter, so daylight-saving changes are not modelled.
- Email notifications, `cron_booking.py` and the test scripts are left out. They are not part of the decision logic.
- The text of printed messages is left out. The log records which message is printed and its row number, not its wording. The Terry-specific conflict note and `users_for_this_slot` are also left out, because they only feed message text.
- The count `bookings_made` and the outcome of each browser booking are left out. They depend on the portal.
- CSV quoting is left out. Fields are split at every comma, and the only CSV errors modelled are a carriage return inside a line and an over-long field.
- Interpreters older than CPython 3.11 are left out. On 3.10 and earlier the CSV reader also raises `csv.Error: line contains NUL`, which would abort the whole parse. Before 3.10.7 and 3.9.14, `int()` has no digit limit. The model follows one version rather than branching on it.
- A changed digit limit (`PYTHONINTMAXSTRDIGITS`, `sys.set_int_max_str_digits`) is left out. The model fixes the default of 4300.
- Non-ASCII digits and case are left out: `int()`, the regular expression's `\d` and `str.lower()` are all modelled on ASCII only. `Swim.Search` and `Swim.DigitRun` take `\d` as `0-9`, so an instructor such as `Swim(٣٠)` (Arabic-Indic digits) reads as `InvalidSwim` and becomes a class booking here. In the program, `\d` and `int()` accept any Unicode decimal digit, so it books a 30-minute swim.

## Findings

None. Each behaviour above that the messages do not suggest is modelled as the code behaves.
