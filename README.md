# sf-rec-scheduler, modelled in Dafny

The scheduler books a soccer field on the San Francisco Recreation & Parks
booking site. This project models the decision logic around that booking.
It does not model the browser automation.

- **Recurrence date.** `get_next_occurrence` finds the date of the next
  (k-th) occurrence of a weekday at a time of day. `calculate_request_date`
  calls it with the settings. Both are modelled with the clock reading `now`
  passed in.
- **String formats.** The 24-hour and 12-hour time converters, and both
  calendar labels: `%-d` in `date_utils.py` and `%d` in `utils.py`.
- **Field resolver.** `find_available_fields` picks the first field, in
  input order, that is free at the primary time. If none is, it tries each
  alternate time in order. An optional name prefix filters the fields first.
- **The booking script's use of the resolver.** It builds one `FieldInfo`
  per resource of the availability response, pairing details with slot
  labels by `zip`. It exits when no field is found. Otherwise it forms the
  accessible-name pattern of the slot to click.
- **Customer id.** `get_customer_id` loops over the nodes of the page's
  login state looking for the customer id.
- **Configuration.** The weekday/frequency validator, with the settings
  built on it. Environment variables are a map from names to values. The
  alternate times split on commas. The `HEADLESS` switch. The `Weekday`
  enumeration, its number table and the declared setting defaults.

Modules follow the source files:

| module | source file |
|---|---|
| `Env` | `src/_utils/env.py` |
| `Config` | `src/_utils/config.py` |
| `FieldUtils` | `src/_utils/field_utils.py` |
| `DateUtils` | `src/_utils/date_utils.py` |
| `Utils` | `src/_utils/utils.py` |
| `Booking` | `main.py`, lines 130-160 |

Three support modules:

- `Calendar`: the proleptic Gregorian calendar of Python's `datetime`.
  Dates are day numbers, with day 0 = 0001-01-01, and only years 1-9999 can
  be represented.
- `Strings`: split and join, prefixes, lower-casing, and `int()` of a
  string.
- `Wrappers`: `Option` and `Result`.

Errors the source raises are modelled as values:

- `DateError`: `ValueError` or `OverflowError`.
- `LookupError` for the customer-id search: the `ValueError` raised when no
  node matches, or the `IndexError` / `KeyError` / `TypeError` that
  subscripting raises.
- `Selection` in the booking script: no field (the script exits), an
  unparsable time (`strptime` raises), or a pattern.

Code that works step by step becomes a Dafny method:

- the two loops, with their loop invariants: `FieldUtils.TryAlternates`,
  the alternate loop inside `FieldUtils.FindAvailableFields`, and
  `Utils.GetCustomerId`;
- the sequence of reassignments in `get_next_occurrence`, which has no loop:
  `DateUtils.GetNextOccurrence` and `DateUtils.TargetFromClock`.

Each method is proved equal to a reference function: `Resolve`,
`NextOccurrence` / `OccurrenceDay` and `CustomerIdOf`. Lemmas then state
what those functions mean, in terms of the input order, the weekday, the
window of days and the error cases.

Where the docstrings and the code disagree, the model follows the code:

- The docstring of `get_next_occurrence` shows the time `"20:00"`. The code
  unpacks exactly three colon-separated pieces, so `"20:00"` raises
  `ValueError`. The model follows the code: see
  `DateUtils.TwoPieceTimeRefused`, `DateUtils.TargetTimeFormat` and
  `DateUtils.OccurrenceExamples`. The settings default `"20:00:00"` is
  accepted (`DateUtils.DefaultSettingsUsable`).
- `get_desired_date_time` defaults `DESIRED_TIME` to `"20:00"`, in the same
  two-piece form. That value is only returned, never parsed, so the model
  passes it on as it is.
- Some setting defaults differ between `env.py` (`Settings`) and
  `config.py`. For example, the alternate times default to `["19:00:00"]` in
  one and `"19:00:00,21:00:00"` in the other. The booking script reads
  `config.py`, and so does the model's `Booking` module. The recurrence
  reads `settings.occurrences_ahead` from `env.py`. Both sets of defaults
  are modelled, each where the source uses it.

## Model

| member | source | states |
|---|---|---|
| Env.WeekdayIndex | src/_utils/env.py:22-30 | the weekday number of every member lies in 0..6 |
| Env.WeekdayIndexInOrder | src/_utils/env.py:11-30 | the table numbers the seven members in declaration order, Monday = 0 … Sunday = 6, and every member is listed |
| Env.WeekdayFromIndex | src/_utils/env.py:22-30 | every number 0..6 names a weekday whose table entry is that number |
| Env.WeekdayIndexBijective | src/_utils/env.py:22-30 | the table is injective and `WeekdayFromIndex` inverts it |
| Env.FromValue | src/_utils/env.py:11-18 | `Weekday(s)` finds a member only for a string equal to its value |
| Env.ValueRoundTrip | src/_utils/env.py:11-18 | every member's value converts back to that member |
| Config.GetEnv | src/_utils/config.py:54 | `os.getenv` gives the set value when the name is present and the default otherwise |
| Config.ValidWeekdaysAreValues | src/_utils/config.py:33-41 | the validator's weekday list is exactly the values of the `Weekday` members, compared case-sensitively |
| Config.ValidatorKeepsOrDefaults | src/_utils/config.py:44-49 | a weekday is kept exactly when it is one of the seven names and is replaced by the default otherwise; the same holds for the frequency with WEEKLY/DAILY |
| Config.ValidatorIndependent | src/_utils/config.py:44-49 | each output depends only on its own input and its own default |
| Config.ValidatorIdempotent | src/_utils/config.py:16-49 | with valid defaults both outputs are valid, and validating them again changes nothing |
| Config.ValidatorExamples | src/_utils/config.py:44-47 | lower-case "monday" is replaced; FRIDAY/DAILY are kept; invalid defaults are not checked and come through unchanged |
| Config.GetDesiredDateTime | src/_utils/config.py:52-70 | the weekday and frequency returned are always valid, and the time is the environment's DESIRED_TIME (default "20:00") unchecked |
| Config.ValidateScheduleSettings | src/_utils/config.py:73-87 | the schedule weekday and frequency are always valid, and the time is SCHEDULE_TIME (default "09:00") unchecked |
| Config.SettingsDefaults | src/_utils/config.py:54-56 | an empty environment gives WEDNESDAY/"20:00"/WEEKLY and MONDAY/"09:00"/WEEKLY; a set time is passed on; an invalid set weekday falls back to the default and a valid one is kept |
| Config.ValidateWeekdayAndFrequency | src/_utils/config.py:16-49 | each output is its input or its default, and it is valid whenever its default is |
| Config.DesiredTimeMilitary | src/_utils/config.py:94 | the primary time is the set `DESIRED_TIME_MILITARY`, or "20:00:00" when unset |
| Config.DesiredFieldStartsWith | src/_utils/config.py:100 | the field prefix is the set `DESIRED_FIELD_STARTS_WITH`, or "FIELD - Main" when unset |
| Config.Headless | src/_utils/config.py:109 | HEADLESS can only be on for a value of four characters |
| Config.AltDesiredTimesMilitary | src/_utils/config.py:95-97 | the comma split yields at least one alternate |
| Config.AltTimesSplit | src/_utils/config.py:95-97 | joining the alternates with commas gives the value back; there is one more alternate than there are commas; no alternate holds a comma; an empty value gives `[""]` |
| Config.PreferenceDefaults | src/_utils/config.py:94-100 | with nothing set: primary time 20:00:00, alternates 19:00:00 then 21:00:00, field prefix "FIELD - Main" |
| Config.HeadlessIff | src/_utils/config.py:109 | HEADLESS is on exactly when the value is four characters that lower-case to "true", and on when unset |
| Config.HeadlessExamples | src/_utils/config.py:109 | "TRUE" and "True" turn it on; "1" and "false" turn it off |
| FieldUtils.FilterByPrefix | src/_utils/field_utils.py:39-42 | every field kept is from the input and passes the prefix test; with no prefix, or an empty one, the list is unchanged |
| FieldUtils.AvailableAt | src/_utils/field_utils.py:45-52 | every field kept is from the input and has an unbooked detail at the time, and there are no more than in the input |
| FieldUtils.Resolve | src/_utils/field_utils.py:39-71 | a returned field is from the input, passes the prefix test and is free at the returned time; the time is the primary time or one of the alternates, and the primary time when no field is found |
| FieldUtils.FirstFreeTime | src/_utils/field_utils.py:45-69 | a time it returns is one of the times tried and has a free candidate |
| FieldUtils.TryAlternates | src/_utils/field_utils.py:57-69 | the loop stops at the first alternate with a free candidate and returns the candidates free then; when no alternate has one, it returns none |
| FieldUtils.FindAvailableFields | src/_utils/field_utils.py:20-71 | the step-by-step resolver (filter, primary time, alternate loop, first element) equals the reference `Resolve` |
| FieldUtils.ResolveSelectsFirstFree | src/_utils/field_utils.py:39-71 | a returned field is the first eligible field of the input, in input order, with an unbooked detail at the returned time; it is an element of the input, and its name starts with a non-empty prefix |
| FieldUtils.ResolvePrimaryWins | src/_utils/field_utils.py:45-57 | when some eligible field is free at the primary time, that time is selected, a field is returned, and the alternates play no part |
| FieldUtils.ResolveFirstAlternate | src/_utils/field_utils.py:57-69 | otherwise the selected time is the first alternate, in list order, at which some eligible field is free |
| FieldUtils.ResolveNoMatch | src/_utils/field_utils.py:54-71 | no field is returned exactly when no eligible field is free at the primary time or at any alternate; the time is then the primary time |
| FieldUtils.AvailableHead | src/_utils/field_utils.py:39-52 | the filtered availability list is non-empty exactly when some eligible field is free, and its head is the first such field |
| FieldUtils.FirstFreeTimeIsFirst | src/_utils/field_utils.py:57-69 | the search returns the first time, in preference order, at which some eligible field is free |
| FieldUtils.FirstFreeTimeNone | src/_utils/field_utils.py:57-71 | the search finds nothing exactly when no eligible field is free at any time tried |
| FieldUtils.Restamp | src/_utils/field_utils.py:16 | replacing every field's `time_slots` keeps the fields in order and changes only that list |
| FieldUtils.ResolveIgnoresTimeSlots | src/_utils/field_utils.py:45-71 | the resolver never reads `time_slots`: replacing them does not change the selected time or whether a field is found |
| FieldUtils.PrefixMatchingNothing | src/_utils/field_utils.py:39-42 | a non-empty prefix that no name starts with yields no field and the primary time |
| FieldUtils.ResolveExamples | src/_utils/field_utils.py:20-71 | a field booked at 20:00 but free at 19:00 is found at the alternate 19:00; of two fields free at the primary time, the first listed wins |
| DateUtils.DaysToNext | src/_utils/date_utils.py:26-28 | the days to the target weekday lie between 1 and 7, and land on that weekday |
| DateUtils.DaysToNextBySteps | src/_utils/date_utils.py:26-28 | `days_ahead = target - today`, plus 7 when it is not positive, equals that count |
| DateUtils.ParseTargetTime | src/_utils/date_utils.py:20 | a failed parse of the time is always a `ValueError` |
| DateUtils.ParseTargetTimePieces | src/_utils/date_utils.py:20 | the time parses exactly when it has three colon-separated pieces that are all integers, and gives the first two |
| DateUtils.ParseTargetTimeOf | src/_utils/date_utils.py:20 | `a:b:c` parses to (int(a), int(b)) when all three pieces are integers and raises `ValueError` otherwise |
| DateUtils.TwoPieceTimeRefused | src/_utils/date_utils.py:20 | a time with only two pieces, such as "20:00", raises `ValueError` |
| DateUtils.TargetTimeFormat | src/_utils/date_utils.py:11-20 | the docstring's "20:00" is refused; the default setting is "20:00:00" |
| DateUtils.DefaultSettingsUsable | src/_utils/env.py:39-43 | the default settings have `occurrences_ahead` >= 1 and a time that parses to 20:00 |
| DateUtils.OccurrenceDay | src/_utils/date_utils.py:23-44 | a successful target is a day `datetime` can represent; the errors are `OverflowError` for a day past year 9999 or an hour or minute beyond a C `int`, and `ValueError` for an hour or minute that fits a C `int` but is out of range |
| DateUtils.NextOccurrence | src/_utils/date_utils.py:20-44 | a successful target, from the time as text, is a day `datetime` can represent; a malformed time is `ValueError`, and the clock errors are those of `OccurrenceDay`, `OverflowError` included for an hour or minute beyond a C `int` |
| DateUtils.OccurrenceGuardIdle | src/_utils/date_utils.py:32-44 | for k >= 1 the past-time guard never fires; the call succeeds exactly when the clock is valid and the date fits, and the target is today + days-to-weekday + 7(k-1) |
| DateUtils.OccurrenceWindow | src/_utils/date_utils.py:26-44 | for k >= 1 the target falls on the requested weekday, 7(k-1)+1 to 7k days after today, and never today |
| DateUtils.OccurrenceUnique | src/_utils/date_utils.py:26-44 | the target is the only day of that weekday in that window |
| DateUtils.OccurrenceStep | src/_utils/date_utils.py:32 | one more occurrence ahead moves the target exactly one week later |
| DateUtils.OccurrenceZeroAhead | src/_utils/date_utils.py:32-44 | with k = 0 the guard keeps the target date-time from lying in the past: it is the requested weekday 0..7 days ahead, 7 only when that day's time has already passed |
| DateUtils.GetNextOccurrence | src/_utils/date_utils.py:5-46 | the step-by-step calculation, with `now` and `occurrences_ahead` given, equals the rendering of the reference target day, errors included: `ValueError` for a malformed time or an out-of-range clock, `OverflowError` for a day past year 9999 or an hour or minute beyond a C `int` |
| DateUtils.TargetFromClock | src/_utils/date_utils.py:23-46 | after the time is parsed, the steps equal the rendering of `OccurrenceDay`: `OverflowError` past year 9999 or for an hour or minute beyond a C `int`, `ValueError` for one that fits a C `int` but is out of range |
| DateUtils.ClockErrorKinds | src/_utils/date_utils.py:35-40 | once the target day fits, an hour or minute beyond a C `int` gives `OverflowError`, and `ValueError` is returned exactly for one that fits a C `int` but is not a valid clock |
| DateUtils.CalculateRequestDate | src/_utils/date_utils.py:49-56 | the request date is the next occurrence of the settings' weekday and time with their `occurrences_ahead` |
| DateUtils.FormatIso | src/_utils/date_utils.py:46 | `%Y-%m-%d` is ten characters with dashes at positions 4 and 7 |
| DateUtils.ParseIsoDate | src/_utils/date_utils.py:74 | a successful parse is a date `datetime` can hold; every failure is a `ValueError` |
| DateUtils.IsoRoundTrip | src/_utils/date_utils.py:46-74 | parsing the `%Y-%m-%d` rendering of a date gives the date back |
| DateUtils.OccurrenceReadsBack | src/_utils/date_utils.py:46 | every successful request date reads back, through the label's parse, as the civil date of the target day |
| DateUtils.OccurrenceExamples | src/_utils/date_utils.py:5-46 | from Monday 2024-01-01 10:00: the next Wednesday at 20:00:00 is 2024-01-03, two ahead is 2024-01-10, and "20:00" is refused |
| DateUtils.ParseMilitary | src/_utils/date_utils.py:62 | a parsed `%H:%M:%S` time has hour 0..23, minute 0..59 and second 0..59 |
| DateUtils.ParseAmerican | src/_utils/date_utils.py:68 | a parsed `%I:%M %p` time gives a valid 24-hour hour and minute |
| DateUtils.MilitaryToAmerican | src/_utils/date_utils.py:60-63 | the conversion succeeds exactly when the `%H:%M:%S` parse does, and otherwise raises `ValueError` |
| DateUtils.AmericanToMilitary | src/_utils/date_utils.py:66-69 | the conversion succeeds exactly when the `%I:%M %p` parse does, and otherwise raises `ValueError`; the result always has the form `HH:MM:00` |
| DateUtils.SkipSpacesSuffix | src/_utils/date_utils.py:68 | the blank in `%I:%M %p` consumes a run of blanks at the front, leaving a suffix that is empty or starts with a non-blank |
| DateUtils.FormatDateForCalendar | src/_utils/date_utils.py:72-75 | the label exists exactly when the `%Y-%m-%d` parse succeeds, and otherwise raises `ValueError`; it is a three-letter month, a blank, the day, `, ` and the year |
| DateUtils.Hour12Face | src/_utils/date_utils.py:63 | the clock-face hour: hour 0 shows as 12, 1..12 as themselves, 13..23 as h-12; with AM/PM it converts back |
| DateUtils.MilitaryToAmericanCanonical | src/_utils/date_utils.py:60-63 | HH:MM:SS becomes the clock-face hour without a leading zero, the same minutes, AM below hour 12 and PM from it; the seconds are dropped |
| DateUtils.AmericanToMilitaryCanonical | src/_utils/date_utils.py:66-69 | 12 AM is hour 0, 12 PM is 12, k PM is k+12, k AM is k; the seconds are always 00 |
| DateUtils.MilitaryRoundTrip | src/_utils/utils.py:7-16 | 24-hour to 12-hour and back gives the time back with its seconds set to 00 |
| DateUtils.AmericanRoundTrip | src/_utils/utils.py:7-16 | 12-hour to 24-hour and back gives a canonical 12-hour time back |
| DateUtils.TimeExamples | src/_utils/date_utils.py:60-69 | "20:00:00" is "8:00 PM" and back |
| DateUtils.TimeRejections | src/_utils/date_utils.py:62 | hour 24, second 60 and a time without seconds raise `ValueError` |
| DateUtils.CalendarLabelOfIso | src/_utils/date_utils.py:72-75 | the `%b %-d, %Y` label of a date has its month abbreviation, its day without a leading zero and its four-digit year (11 characters before the 10th) |
| DateUtils.CalendarLabelExample | src/_utils/date_utils.py:72-75 | "2024-01-03" is labelled "Jan 3, 2024"; "2024-02-30" raises `ValueError` |
| Utils.FormatDateForCalendarPadded | src/_utils/utils.py:19-22 | the label exists exactly when the `%Y-%m-%d` parse succeeds, and otherwise raises `ValueError`; it always has 12 characters, with the month, a blank, the two-digit day and `, ` |
| Utils.ProbeNode | src/_utils/utils.py:44-45 | a node ends the search only when it has an entry; a successful end is a customer node giving its `entry[1]`; a failing one is a subscript error, never not-found |
| Utils.CustomerIdOf | src/_utils/utils.py:43-47 | any outcome other than not-found is the outcome of some node's probe |
| Utils.LabelsDifferInPadding | src/_utils/utils.py:19-22 | the two labelers accept the same strings and differ only in the day: they agree from the 10th on; before it, `%d` inserts a `0` after the month |
| Utils.PaddedLabelOfIso | src/_utils/utils.py:19-22 | the `%b %d, %Y` label of a date is month, two-digit day and four-digit year, always 12 characters |
| Utils.PaddedLabelExample | src/_utils/utils.py:19-22 | "2024-01-03" is "Jan 03, 2024" here and "Jan 3, 2024" in the other copy |
| Utils.Item | src/_utils/utils.py:44-45 | subscripting either gives a value or raises one of the subscript errors, never the not-found error |
| Utils.GetCustomerId | src/_utils/utils.py:43-47 | the loop over the nodes equals the reference search: the outcome of the first node that does not skip, or the not-found `ValueError` |
| Utils.ProbeCases | src/_utils/utils.py:44 | a node is skipped exactly when it has no entry or its entry's first element is not "customerid"; a matching node yields `entry[1]` |
| Utils.FirstHitWins | src/_utils/utils.py:43-45 | the search returns the outcome of the first node that is not skipped, whatever the nodes after it are |
| Utils.FirstCustomerNodeWins | src/_utils/utils.py:43-45 | an earlier customer node wins over a later one, and its `entry[1]` is returned |
| Utils.NotFoundIffAllSkipped | src/_utils/utils.py:43-47 | the `ValueError` is raised exactly when every node is skipped |
| Utils.FoundComesFromCustomerNode | src/_utils/utils.py:43-45 | a successful search returns the `entry[1]` of some node whose entry starts with "customerid" |
| Utils.CustomerIdExample | src/_utils/utils.py:43-47 | the first of two customer nodes wins; no customer node gives not-found; a one-element entry raises `IndexError` |
| Booking.ZipDetails | main.py:135-138 | the zip pairs details and slot labels position by position, as long as the shorter list, keeping each detail's booked flag |
| Booking.BuildFieldsShape | main.py:130-141 | one field per resource, in order, with its id and name and the shared slot labels; its details are the zip of the resource's details with the labels |
| Booking.BuiltFieldFreeAt | main.py:130-141 | a built field is free at `t` exactly when, at a position covered by both lists, the label is `t` and the status is false |
| Booking.BuildFields | main.py:130-141 | one field per resource, keeping its id and name, each with the response's shared `time_slots` |
| Booking.SelectTimeslot | main.py:144-160 | the script stops with no field exactly when the resolver finds none; an unparsable time is a `ValueError`; a pattern always starts with `^` and the prefix |
| Booking.SelectFromResponse | main.py:144-160 | with the environment's preferences, an unparsable time is a `ValueError` and a pattern starts with `^` and the configured prefix |
| Booking.NoFieldIffNothingFree | main.py:151-155 | the script exits exactly when no eligible field is free at the primary time or at any alternate |
| Booking.SelectorOfResolved | main.py:158-160 | for a field found at HH:MM:SS, the pattern is `^` + the field's name + a blank + the 12-hour time, and the field is the first eligible one free then |
| Booking.BadTimeIffUnparsable | main.py:158-160 | the script raises exactly when a field is found but its time is not `%H:%M:%S` |
| Booking.SelectFromDefaults | main.py:144-149 | with nothing set, the script resolves with 20:00:00, the alternates 19:00:00 and 21:00:00, and prefix "FIELD - Main" |
| Booking.SelectionExample | main.py:130-160 | one main field open at 19:00 and taken at 20:00 gives the pattern "^FIELD - Main 1 7:00 PM" |
| Calendar.CivilFromDayNumber | src/_utils/date_utils.py:35 | converting a date to its day number and back gives the date back |
| Calendar.InRangeIff | src/_utils/date_utils.py:35 | the day numbers `datetime` can hold are exactly 0..3652058, years 1..9999 |
| Calendar.CalendarLandmarks | src/_utils/date_utils.py:26 | 0001-01-01 is day 0, 9999-12-31 is the last day, and 2024-01-01 is a Monday, as `date.weekday()` counts |

## Left out

- Browser automation is left out. This covers the Playwright page, logging
  in, filling in forms, clicking, and the retries of `main.py` outside lines
  130-160. It is I/O against a live site.
- The HTTP request for the availability data is left out. The model takes
  its `resources` and `time_slots` lists as input.
- `get_customer_id`, lines 39-41 of `utils.py`: the `page.evaluate` call and
  the navigation to the `nodes` list are left out, because they read the
  live page. The model takes the nodes as input, each as a JSON object. A
  node that is not an object (for which `in` means something else) is not
  modelled.
- `adjust_quantity` in `utils.py` drives the page only, so it is left out.
- `scheduler.py`, `logger.py`, `test_utils.py` and `constants.py` are not
  part of this model.
- `load_dotenv` and pydantic's settings loading are left out. The
  environment is a map, and `Settings` holds its declared defaults.
- The time zone (`ZoneInfo`) is not read by the modelled code, so it is
  left out.
- The required CVV is left out, and so are some settings: the integer
  settings `FACILITY_GROUP_ID`, `QUANTITY`, `MAX_RETRIES` and `RETRY_DELAY`,
  and the string settings `SPORT` and `RESERVATION_NAME`. None of them takes
  part in the decisions modelled.
- The group-size step of the booking page is left out. It reads
  `config.GROUP_QUANTITY` (main.py:167), and src/_utils/config.py defines no such
  setting; the stored value is `group_quantity` (src/_utils/env.py:52).
- `DateUtils.GetNextOccurrence`: `datetime.now()` becomes the parameter
  `now`, a day number plus the microsecond of the day.
  `settings.occurrences_ahead` becomes the parameter `k`.
- `DateUtils.ParseMilitary`: `strptime` and `strftime` are modelled for the
  C (English) locale with ASCII digits and blanks only. `%-I` and `%-d` are
  the glibc forms.
- `DateUtils.FormatIso`, `DateUtils.FormatDateForCalendar` and
  `Utils.FormatDateForCalendarPadded`: a year below 1000 is written as four
  digits with leading zeros. The real `%Y` rendering of such years depends
  on the platform: glibc writes `"Jan 3, 999"` where the model writes
  `"Jan 3, 0999"`.
- `Strings.ParseInt`: `int()` is modelled for ASCII digits, an optional
  sign, surrounding ASCII blanks and single underscores between digits.
  Unicode digits and blanks are not modelled. The limit on the length of
  integer strings is not modelled either: since Python 3.11, `int()` raises
  `ValueError` for more than 4300 digits. In the model such a string
  parses, so, for example, `ParseTargetTime` accepts an hour of 4301 zeros.
- `Booking.SelectTimeslot`: the pattern is kept as the string handed to
  `re.compile`. Like the source, the model does not escape it. Compiling it
  is not modelled. A resource name that is not a valid regular expression,
  such as `"Field (North"` or `"Court [A"`, makes `re.compile` raise
  `re.error` and stop the script. The model returns a `Selector` for it all
  the same. How a regex engine would match the pattern against the page is
  not modelled either.
- `Booking.ZipDetails`: a raw detail is modelled as exactly a boolean
  `status` key. The constructor call `TimeSlotDetail(**detail, time=time)`
  fails in three cases the model cannot express:
  - a detail that already has a `time` key raises `TypeError` (multiple
    values for `time`) before pydantic runs;
  - an `is_booked` key is read as the field itself, because the model
    config sets `populate_by_name` (`field_utils.py` line 7);
  - a detail without `status` raises pydantic's `ValidationError`.
