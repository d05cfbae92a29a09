/** The recurrence date calculator and the time and date string formats:
    the date of the k-th coming occurrence of a weekday at a time of day,
    the `YYYY-MM-DD` rendering of it, the calendar label built from it,
    and the 24-hour / 12-hour time conversions (C locale). */
module DateUtils {
  import opened Wrappers
  import opened Strings
  import opened Calendar
  import opened Env

  /** The exceptions the source raises: `ValueError` for text that does
      not parse or a field out of range, `OverflowError` for a date outside
      years 1 .. 9999. */
  datatype DateError = ValueError | OverflowError

  const MicrosPerDay: int := 86_400_000_000

  /** A `datetime`: a day number and the microsecond of that day. */
  datatype Moment = Moment(day: int, micro: int)

  predicate ValidMoment(m: Moment) {
    0 <= m.day <= MaxDay && 0 <= m.micro < MicrosPerDay
  }

  /** `a < b` on `datetime` values. */
  predicate Earlier(a: Moment, b: Moment) {
    a.day < b.day || (a.day == b.day && a.micro < b.micro)
  }

  /** `hour:minute:00.000000` as a microsecond of the day. */
  function ClockMicro(hour: int, minute: int): int {
    (hour * 60 + minute) * 60 * 1_000_000
  }

  predicate ValidClock(hour: int, minute: int) {
    0 <= hour < 24 && 0 <= minute < 60
  }

  /** `datetime.replace` reads `hour` and `minute` as C `int`s: a value
      outside -2^31 .. 2^31-1 raises `OverflowError` before any range check. */
  predicate FitsCInt(x: int) {
    -0x8000_0000 <= x < 0x8000_0000
  }

  // ---------------------------------------------------------------------
  // Recurrence
  // ---------------------------------------------------------------------

  /** `hour, minute, _ = map(int, time.split(":"))`: exactly three pieces,
      each an integer; the third is parsed and dropped. */
  function ParseTargetTime(time: string): (r: Result<(int, int), DateError>)
    ensures r.Err? ==> r.error == ValueError
  {
    ParseClockPieces(Split(time, ':'))
  }

  function ParseClockPieces(parts: seq<string>): (r: Result<(int, int), DateError>)
    ensures r.Err? ==> r.error == ValueError
  {
    if |parts| != 3 then Err(ValueError)
    else
      var h := ParseInt(parts[0]);
      var m := ParseInt(parts[1]);
      var sec := ParseInt(parts[2]);
      if h.Some? && m.Some? && sec.Some? then Ok((h.value, m.value)) else Err(ValueError)
  }

  /** The first day strictly after `today` that falls on weekday `w`:
      between 1 and 7 days ahead, 7 when today is that weekday. */
  function DaysToNext(w: Weekday, today: int): (n: int)
    ensures 1 <= n <= 7
    ensures WeekdayOf(today + n) == WeekdayIndex(w)
  {
    (WeekdayIndex(w) - WeekdayOf(today) + 6) % 7 + 1
  }

  /** `days_ahead = target - today; if days_ahead <= 0: days_ahead += 7`
      computes the same number. */
  lemma DaysToNextBySteps(w: Weekday, today: int)
    ensures var d := WeekdayIndex(w) - WeekdayOf(today);
      DaysToNext(w, today) == if d <= 0 then d + 7 else d
  {
    var d := WeekdayIndex(w) - WeekdayOf(today);
    assert -6 <= d <= 6;
    if d <= 0 {
      assert (d + 6) % 7 == d + 6;
    } else {
      assert (d + 6) % 7 == d - 1;
    }
  }

  /** The reference definition of the target day of `get_next_occurrence`
      with `occurrences_ahead = k`, evaluated at `now`, once the time has
      been read as `hour` and `minute`. */
  function OccurrenceDay(w: Weekday, hour: int, minute: int, k: int, now: Moment)
    : (r: Result<int, DateError>)
    requires ValidMoment(now)
    ensures r.Ok? ==> 0 <= r.value <= MaxDay
  {
    var day := now.day + DaysToNext(w, now.day) + 7 * (k - 1);
    if !(0 <= day <= MaxDay) then Err(OverflowError)
    else if !(FitsCInt(hour) && FitsCInt(minute)) then Err(OverflowError)
    else if !ValidClock(hour, minute) then Err(ValueError)
    else if !Earlier(Moment(day, ClockMicro(hour, minute)), now) then Ok(day)
    else if day + 7 <= MaxDay then Ok(day + 7)
    else Err(OverflowError)
  }

  /** The target day for a time given as text. */
  function NextOccurrence(w: Weekday, time: string, k: int, now: Moment)
    : (r: Result<int, DateError>)
    requires ValidMoment(now)
    ensures r.Ok? ==> 0 <= r.value <= MaxDay
  {
    match ParseTargetTime(time)
    case Err(e) => Err(e)
    case Ok((hour, minute)) => OccurrenceDay(w, hour, minute, k, now)
  }

  /** `target_date.strftime("%Y-%m-%d")`. */
  function FormatIso(d: Date): (s: string)
    requires InRange(d)
    ensures |s| == 10 && s[4] == '-' && s[7] == '-'
  {
    FixedDigits(d.year, 4) + "-" + FixedDigits(d.month, 2) + "-" + FixedDigits(d.day, 2)
  }

  function IsoOfDay(n: int): string
    requires 0 <= n <= MaxDay
  {
    InRangeIff(n);
    FormatIso(CivilFromDay(n))
  }

  function IsoResult(r: Result<int, DateError>): Result<string, DateError>
    requires r.Ok? ==> 0 <= r.value <= MaxDay
  {
    match r
    case Ok(n) => Ok(IsoOfDay(n))
    case Err(e) => Err(e)
  }

  /** `get_next_occurrence(weekday, time)` with `settings.occurrences_ahead`
      given as `k` and the clock reading given as `now`, step by step as
      the source computes it. */
  method GetNextOccurrence(weekday: Weekday, time: string, k: int, now: Moment)
    returns (r: Result<string, DateError>)
    requires ValidMoment(now)
    ensures r == IsoResult(NextOccurrence(weekday, time, k, now))
  {
    var parsed := ParseTargetTime(time);
    if parsed.Err? {
      return Err(ValueError);
    }
    var (targetHour, targetMinute) := parsed.value;
    r := TargetFromClock(weekday, targetHour, targetMinute, k, now);
  }

  /** The part of `get_next_occurrence` after the time has been read: the
      days to the weekday, the weeks ahead, the time of day and the
      past-time guard. */
  method TargetFromClock(weekday: Weekday, targetHour: int, targetMinute: int, k: int, now: Moment)
    returns (r: Result<string, DateError>)
    requires ValidMoment(now)
    ensures r == IsoResult(OccurrenceDay(weekday, targetHour, targetMinute, k, now))
  {
    var targetWeekday := WeekdayIndex(weekday);
    var daysAhead := targetWeekday - WeekdayOf(now.day);
    if daysAhead <= 0 {
      daysAhead := daysAhead + 7;
    }
    DaysToNextBySteps(weekday, now.day);
    ghost var expected := OccurrenceDay(weekday, targetHour, targetMinute, k, now);
    daysAhead := daysAhead + 7 * (k - 1);
    assert now.day + daysAhead == now.day + DaysToNext(weekday, now.day) + 7 * (k - 1);
    if !(0 <= now.day + daysAhead <= MaxDay) {
      assert expected == Err(OverflowError);
      return Err(OverflowError);
    }
    if !(FitsCInt(targetHour) && FitsCInt(targetMinute)) {
      assert expected == Err(OverflowError);
      return Err(OverflowError);
    }
    if !ValidClock(targetHour, targetMinute) {
      assert expected == Err(ValueError);
      return Err(ValueError);
    }
    var target := Moment(now.day + daysAhead, ClockMicro(targetHour, targetMinute));
    if Earlier(target, now) {
      if target.day + 7 > MaxDay {
        assert expected == Err(OverflowError);
        return Err(OverflowError);
      }
      target := Moment(target.day + 7, target.micro);
    }
    assert expected == Ok(target.day);
    r := Ok(IsoOfDay(target.day));
  }

  /** `calculate_request_date()`: the desired weekday and time of the
      settings, with their `occurrences_ahead`. */
  method CalculateRequestDate(settings: Settings, now: Moment) returns (r: Result<string, DateError>)
    requires ValidMoment(now)
    ensures r == IsoResult(NextOccurrence(settings.desiredWeekday, settings.desiredTimeMilitary,
                                          settings.occurrencesAhead, now))
  {
    r := GetNextOccurrence(settings.desiredWeekday, settings.desiredTimeMilitary,
                           settings.occurrencesAhead, now);
  }

  /** Whole weeks do not change the weekday. */
  lemma WeekShift(n: int, j: int)
    ensures WeekdayOf(n + 7 * j) == WeekdayOf(n)
  {
  }

  /** For k >= 1 the composed date-time is after `now`, so the past-time
      guard never moves it: the call succeeds exactly when the hour and
      minute are valid and the target day is representable, and the
      target is then today plus the days to the weekday plus k-1 weeks. */
  lemma OccurrenceGuardIdle(w: Weekday, hour: int, minute: int, k: int, now: Moment)
    requires ValidMoment(now) && k >= 1
    ensures var day := now.day + DaysToNext(w, now.day) + 7 * (k - 1);
      && (OccurrenceDay(w, hour, minute, k, now).Ok? <==> ValidClock(hour, minute) && day <= MaxDay)
      && (OccurrenceDay(w, hour, minute, k, now).Ok? ==> OccurrenceDay(w, hour, minute, k, now).value == day)
  {
    var day := now.day + DaysToNext(w, now.day) + 7 * (k - 1);
    assert day > now.day;
    assert !Earlier(Moment(day, ClockMicro(hour, minute)), now);
  }

  /** Once the target day is representable, an hour or minute beyond a C
      `int` gives `OverflowError`, and `ValueError` comes exactly from one
      that fits a C `int` but is out of range. */
  lemma ClockErrorKinds(w: Weekday, hour: int, minute: int, k: int, now: Moment)
    requires ValidMoment(now)
    requires 0 <= now.day + DaysToNext(w, now.day) + 7 * (k - 1) <= MaxDay
    ensures !(FitsCInt(hour) && FitsCInt(minute)) ==>
      OccurrenceDay(w, hour, minute, k, now) == Err(OverflowError)
    ensures OccurrenceDay(w, hour, minute, k, now) == Err(ValueError) <==>
      FitsCInt(hour) && FitsCInt(minute) && !ValidClock(hour, minute)
  {
  }

  /** For k >= 1 the target is on the requested weekday, lies between
      7(k-1)+1 and 7k days after today, and so is never today. */
  lemma OccurrenceWindow(w: Weekday, hour: int, minute: int, k: int, now: Moment)
    requires ValidMoment(now) && k >= 1 && OccurrenceDay(w, hour, minute, k, now).Ok?
    ensures var d := OccurrenceDay(w, hour, minute, k, now).value;
      && WeekdayOf(d) == WeekdayIndex(w)
      && 7 * (k - 1) + 1 <= d - now.day <= 7 * k
      && d != now.day
  {
    OccurrenceGuardIdle(w, hour, minute, k, now);
    WeekShift(now.day + DaysToNext(w, now.day), k - 1);
  }

  /** The window holds just one day of the requested weekday, so the
      target is determined by it. */
  lemma OccurrenceUnique(w: Weekday, hour: int, minute: int, k: int, now: Moment, x: int)
    requires ValidMoment(now) && k >= 1 && OccurrenceDay(w, hour, minute, k, now).Ok?
    requires WeekdayOf(x) == WeekdayIndex(w) && 7 * (k - 1) + 1 <= x - now.day <= 7 * k
    ensures x == OccurrenceDay(w, hour, minute, k, now).value
  {
    OccurrenceWindow(w, hour, minute, k, now);
    var d := OccurrenceDay(w, hour, minute, k, now).value;
    assert -6 <= x - d <= 6;
    assert (x - d) % 7 == 0;
  }

  /** One more occurrence ahead moves the date exactly one week later. */
  lemma OccurrenceStep(w: Weekday, hour: int, minute: int, k: int, now: Moment)
    requires ValidMoment(now) && k >= 1 && OccurrenceDay(w, hour, minute, k + 1, now).Ok?
    ensures OccurrenceDay(w, hour, minute, k, now).Ok?
    ensures OccurrenceDay(w, hour, minute, k + 1, now).value == OccurrenceDay(w, hour, minute, k, now).value + 7
  {
    OccurrenceGuardIdle(w, hour, minute, k, now);
    OccurrenceGuardIdle(w, hour, minute, k + 1, now);
  }

  /** With k = 0 the guard is what keeps the date from the past: the result
      is the next day of that weekday from today on, today itself when the
      time is still ahead, and a week from today when today is that weekday
      and the time has passed. */
  lemma OccurrenceZeroAhead(w: Weekday, hour: int, minute: int, now: Moment)
    requires ValidMoment(now) && OccurrenceDay(w, hour, minute, 0, now).Ok?
    ensures var d := OccurrenceDay(w, hour, minute, 0, now).value;
      && WeekdayOf(d) == WeekdayIndex(w)
      && 0 <= d - now.day <= 7
      && !Earlier(Moment(d, ClockMicro(hour, minute)), now)
      && (d - now.day == 7 ==> Earlier(Moment(now.day, ClockMicro(hour, minute)), now))
  {
    var first := now.day + DaysToNext(w, now.day);
    var day := first + 7 * (0 - 1);
    assert day == first - 7;
    WeekShift(first, -1);
  }

  /** The parse of a time depends only on its colon-separated pieces:
      exactly three of them, each an integer. */
  lemma ParseTargetTimePieces(parts: seq<string>)
    requires |parts| >= 1 && forall i :: 0 <= i < |parts| ==> ':' !in parts[i]
    ensures ParseTargetTime(Join(parts, ':')) ==
      if |parts| != 3 then Err(ValueError)
      else if ParseInt(parts[0]).Some? && ParseInt(parts[1]).Some? && ParseInt(parts[2]).Some?
      then Ok((ParseInt(parts[0]).value, ParseInt(parts[1]).value))
      else Err(ValueError)
  {
    SplitJoin(parts, ':');
  }

  /** The pieces of a time written as three colon-separated pieces. */
  lemma SplitClock(a: string, b: string, c: string)
    requires ':' !in a && ':' !in b && ':' !in c
    ensures Split(a + ":" + b + ":" + c, ':') == [a, b, c]
  {
    SplitNoSep(c, ':');
    SplitAppend(b, c, ':');
    SplitAppend(a, b + [':'] + c, ':');
    assert a + ":" + b + ":" + c == a + [':'] + (b + [':'] + c);
  }

  /** A time `a:b:c` parses when its three pieces are integers, and gives
      the first two. */
  lemma ParseTargetTimeOf(a: string, b: string, c: string)
    requires ':' !in a && ':' !in b && ':' !in c
    ensures ParseTargetTime(a + ":" + b + ":" + c) ==
      if ParseInt(a).Some? && ParseInt(b).Some? && ParseInt(c).Some?
      then Ok((ParseInt(a).value, ParseInt(b).value))
      else Err(ValueError)
  {
    SplitClock(a, b, c);
    var p := [a, b, c];
    assert p[0] == a && p[1] == b && p[2] == c;
  }

  /** A time of only two pieces, such as "20:00", is refused. */
  lemma TwoPieceTimeRefused(a: string, b: string)
    requires ':' !in a && ':' !in b
    ensures ParseTargetTime(a + ":" + b) == Err(ValueError)
  {
    ParseTargetTimePieces([a, b]);
    assert Join([a, b], ':') == a + ":" + b;
  }

  /** Three pieces of decimal digits read as the hour and the minute; the
      seconds piece only has to be an integer. */
  lemma ParseTargetTimeDigits(a: string, b: string, c: string)
    requires AllDigits(a) && a != [] && AllDigits(b) && b != [] && AllDigits(c) && c != []
    ensures ParseTargetTime(a + ":" + b + ":" + c) == Ok((DigitsValue(a), DigitsValue(b)))
  {
    assert !IsDigit(':');
    ParseTargetTimeOf(a, b, c);
  }

  lemma TargetTimeFormat()
    ensures ParseTargetTime("20:00") == Err(ValueError)
    ensures DefaultSettings.desiredTimeMilitary == "20" + ":" + "00" + ":" + "00"
    ensures DigitsValue("20") == 20 && DigitsValue("00") == 0
  {
    TwoPieceTimeRefused("20", "00");
    assert "20" + ":" + "00" == "20:00";
    assert "20"[..1] == "2" && "00"[..1] == "0";
  }

  /** The default settings satisfy the calculation's requirements: one or
      more occurrences ahead and a three-part time, 20:00. */
  lemma DefaultSettingsUsable()
    ensures DefaultSettings.occurrencesAhead >= 1
    ensures ParseTargetTime(DefaultSettings.desiredTimeMilitary) == Ok((20, 0))
  {
    TargetTimeFormat();
    ParseTargetTimeDigits("20", "00", "00");
  }

  // ---------------------------------------------------------------------
  // YYYY-MM-DD
  // ---------------------------------------------------------------------

  /** `%m`: `1[0-2]|0[1-9]|[1-9]`, as (value, characters used). */
  function MonthField(r: string): Option<(int, int)> {
    if |r| >= 2 && r[0] == '1' && '0' <= r[1] <= '2' then Some((10 + DigitValue(r[1]), 2))
    else if |r| >= 2 && r[0] == '0' && '1' <= r[1] <= '9' then Some((DigitValue(r[1]), 2))
    else if |r| >= 1 && '1' <= r[0] <= '9' then Some((DigitValue(r[0]), 1))
    else None
  }

  /** `%d`: `3[01]|[12]\d|0[1-9]|[1-9]| [1-9]`, as (value, characters used). */
  function DayField(r: string): Option<(int, int)> {
    if |r| >= 2 && r[0] == '3' && '0' <= r[1] <= '1' then Some((30 + DigitValue(r[1]), 2))
    else if |r| >= 2 && '1' <= r[0] <= '2' && IsDigit(r[1]) then Some((10 * DigitValue(r[0]) + DigitValue(r[1]), 2))
    else if |r| >= 2 && r[0] == '0' && '1' <= r[1] <= '9' then Some((DigitValue(r[1]), 2))
    else if |r| >= 1 && '1' <= r[0] <= '9' then Some((DigitValue(r[0]), 1))
    else if |r| >= 2 && r[0] == ' ' && '1' <= r[1] <= '9' then Some((DigitValue(r[1]), 2))
    else None
  }

  /** `datetime.strptime(s, "%Y-%m-%d")`: four digits, `-`, the month, `-`,
      the day and nothing after; then the date must exist. */
  function ParseIsoDate(s: string): (r: Result<Date, DateError>)
    ensures r.Ok? ==> InRange(r.value)
    ensures r.Err? ==> r.error == ValueError
  {
    if |s| < 5 || !AllDigits(s[..4]) || s[4] != '-' then Err(ValueError)
    else
      var year := DigitsValue(s[..4]);
      assert year < 10000 by { DigitsBound(s[..4]); }
      var rest := s[5..];
      match MonthField(rest)
      case None => Err(ValueError)
      case Some((month, ml)) =>
        if |rest| <= ml || rest[ml] != '-' then Err(ValueError)
        else
          var tail := rest[ml + 1..];
          match DayField(tail)
          case None => Err(ValueError)
          case Some((day, dl)) =>
            if |tail| != dl then Err(ValueError)
            else if !ValidDate(Date(year, month, day)) then Err(ValueError)
            else Ok(Date(year, month, day))
  }

  lemma {:induction false} DigitsBound(s: string)
    requires AllDigits(s)
    ensures DigitsValue(s) < Pow10(|s|)
  {
    if s != [] {
      DigitsBound(s[..|s| - 1]);
    }
  }

  lemma TwoDigits(n: int)
    requires 0 <= n < 100
    ensures FixedDigits(n, 2) == [DigitChar(n / 10), DigitChar(n % 10)]
  {
    var t := n / 10;
    assert t < 10 && t / 10 == 0 && t % 10 == t;
    assert FixedDigits(t, 1) == FixedDigits(t / 10, 0) + [DigitChar(t % 10)];
    assert FixedDigits(n, 2) == FixedDigits(t, 1) + [DigitChar(n % 10)];
  }

  /** Parsing the `YYYY-MM-DD` rendering of a date gives the date back. */
  lemma IsoRoundTrip(d: Date)
    requires InRange(d)
    ensures ParseIsoDate(FormatIso(d)) == Ok(d)
  {
    var s := FormatIso(d);
    var y := FixedDigits(d.year, 4);
    assert s[..4] == y;
    FixedDigitsValue(d.year, 4);
    var rest := s[5..];
    TwoDigits(d.month);
    TwoDigits(d.day);
    assert rest == FixedDigits(d.month, 2) + "-" + FixedDigits(d.day, 2);
    assert MonthField(rest) == Some((d.month, 2));
    assert rest[3..] == FixedDigits(d.day, 2);
    assert DayField(rest[3..]) == Some((d.day, 2));
  }

  /** Every success of the calculator reads back, through the parse the
      calendar label uses, as the civil date of the target day. */
  lemma OccurrenceReadsBack(w: Weekday, time: string, k: int, now: Moment)
    requires ValidMoment(now) && NextOccurrence(w, time, k, now).Ok?
    ensures var n := NextOccurrence(w, time, k, now).value;
      ParseIsoDate(IsoResult(NextOccurrence(w, time, k, now)).value) == Ok(CivilFromDay(n))
  {
    var n := NextOccurrence(w, time, k, now).value;
    InRangeIff(n);
    IsoRoundTrip(CivilFromDay(n));
  }

  /** The rendering of a day number is the rendering of its civil date. */
  lemma IsoOfDayNumber(d: Date)
    requires InRange(d)
    ensures 0 <= DayNumber(d) <= MaxDay && IsoOfDay(DayNumber(d)) == FormatIso(d)
  {
    CivilFromDayNumber(d);
    InRangeIff(DayNumber(d));
  }

  lemma IsoExamples()
    ensures FormatIso(Date(2024, 1, 3)) == "2024-01-03"
    ensures FormatIso(Date(2024, 1, 10)) == "2024-01-10"
  {
    IsoExample(Date(2024, 1, 3));
    IsoExample(Date(2024, 1, 10));
  }

  lemma IsoExample(d: Date)
    requires d == Date(2024, 1, 3) || d == Date(2024, 1, 10)
    ensures d.day == 3 ==> FormatIso(d) == "2024-01-03"
    ensures d.day == 10 ==> FormatIso(d) == "2024-01-10"
  {
    assert FixedDigits(2024, 4) == "2024";
    TwoDigits(d.month);
    TwoDigits(d.day);
  }

  /** Monday 2024-01-01, 10:00, as day number and microsecond. */
  function ExampleNow(): (m: Moment)
    ensures ValidMoment(m) && WeekdayOf(m.day) == 0
  {
    Moment(DayNumber(Date(2024, 1, 1)), ClockMicro(10, 0))
  }

  lemma OccurrenceExampleDays()
    ensures OccurrenceDay(Wednesday, 20, 0, 1, ExampleNow()) == Ok(DayNumber(Date(2024, 1, 3)))
    ensures OccurrenceDay(Wednesday, 20, 0, 2, ExampleNow()) == Ok(DayNumber(Date(2024, 1, 10)))
  {
  }

  lemma OccurrenceExampleParsed()
    ensures var time := DefaultSettings.desiredTimeMilitary;
      && NextOccurrence(Wednesday, time, 1, ExampleNow()) == Ok(DayNumber(Date(2024, 1, 3)))
      && NextOccurrence(Wednesday, time, 2, ExampleNow()) == Ok(DayNumber(Date(2024, 1, 10)))
      && NextOccurrence(Wednesday, "20:00", 1, ExampleNow()) == Err(ValueError)
  {
    DefaultSettingsUsable();
    TargetTimeFormat();
    OccurrenceExampleDays();
  }

  lemma IsoExampleDays()
    ensures IsoResult(Ok(DayNumber(Date(2024, 1, 3)))) == Ok("2024-01-03")
    ensures IsoResult(Ok(DayNumber(Date(2024, 1, 10)))) == Ok("2024-01-10")
  {
    IsoOfDayNumber(Date(2024, 1, 3));
    IsoOfDayNumber(Date(2024, 1, 10));
    IsoExamples();
  }

  /** Monday 2024-01-01, 10:00: the next Wednesday at the default 20:00:00
      is 2024-01-03, one more occurrence ahead (the default) is 2024-01-10,
      and a time written "20:00" is refused. */
  lemma OccurrenceExamples()
    ensures var time := DefaultSettings.desiredTimeMilitary;
      && IsoResult(NextOccurrence(Wednesday, time, 1, ExampleNow())) == Ok("2024-01-03")
      && IsoResult(NextOccurrence(Wednesday, time, 2, ExampleNow())) == Ok("2024-01-10")
      && NextOccurrence(Wednesday, "20:00", 1, ExampleNow()) == Err(ValueError)
  {
    OccurrenceExampleParsed();
    IsoExampleDays();
  }

  // ---------------------------------------------------------------------
  // 24-hour and 12-hour times
  // ---------------------------------------------------------------------

  /** `%H`: `2[0-3]|[0-1]\d|\d` */
  function HourField(r: string): Option<(int, int)> {
    if |r| >= 2 && r[0] == '2' && '0' <= r[1] <= '3' then Some((20 + DigitValue(r[1]), 2))
    else if |r| >= 2 && '0' <= r[0] <= '1' && IsDigit(r[1]) then Some((10 * DigitValue(r[0]) + DigitValue(r[1]), 2))
    else if |r| >= 1 && IsDigit(r[0]) then Some((DigitValue(r[0]), 1))
    else None
  }

  /** `%M`: `[0-5]\d|\d` */
  function MinuteField(r: string): Option<(int, int)> {
    if |r| >= 2 && '0' <= r[0] <= '5' && IsDigit(r[1]) then Some((10 * DigitValue(r[0]) + DigitValue(r[1]), 2))
    else if |r| >= 1 && IsDigit(r[0]) then Some((DigitValue(r[0]), 1))
    else None
  }

  /** `%S`: `6[0-1]|[0-5]\d|\d` */
  function SecondField(r: string): Option<(int, int)> {
    if |r| >= 2 && r[0] == '6' && '0' <= r[1] <= '1' then Some((60 + DigitValue(r[1]), 2))
    else if |r| >= 2 && '0' <= r[0] <= '5' && IsDigit(r[1]) then Some((10 * DigitValue(r[0]) + DigitValue(r[1]), 2))
    else if |r| >= 1 && IsDigit(r[0]) then Some((DigitValue(r[0]), 1))
    else None
  }

  /** `%I`: `1[0-2]|0[1-9]|[1-9]` */
  function Hour12Field(r: string): Option<(int, int)> {
    if |r| >= 2 && r[0] == '1' && '0' <= r[1] <= '2' then Some((10 + DigitValue(r[1]), 2))
    else if |r| >= 2 && r[0] == '0' && '1' <= r[1] <= '9' then Some((DigitValue(r[1]), 2))
    else if |r| >= 1 && '1' <= r[0] <= '9' then Some((DigitValue(r[0]), 1))
    else None
  }

  /** `strptime(s, "%H:%M:%S")`: hour, minute and second; a second of 60
      or 61 passes the pattern and is then refused by `datetime`. */
  function ParseMilitary(s: string): (r: Result<(int, int, int), DateError>)
    ensures r.Ok? ==> ValidClock(r.value.0, r.value.1) && 0 <= r.value.2 < 60
  {
    match HourField(s)
    case None => Err(ValueError)
    case Some((h, hl)) =>
      if |s| <= hl || s[hl] != ':' then Err(ValueError)
      else
        var r1 := s[hl + 1..];
        match MinuteField(r1)
        case None => Err(ValueError)
        case Some((m, ml)) =>
          if |r1| <= ml || r1[ml] != ':' then Err(ValueError)
          else
            var r2 := r1[ml + 1..];
            match SecondField(r2)
            case None => Err(ValueError)
            case Some((sec, sl)) =>
              if |r2| != sl || sec >= 60 then Err(ValueError)
              else Ok((h, m, sec))
  }

  /** The hour on a 12-hour clock face. */
  function Hour12(h: int): int {
    if h % 12 == 0 then 12 else h % 12
  }

  /** `military_to_american`: `strftime("%-I:%M %p")` of the parsed time. */
  function MilitaryToAmerican(s: string): (r: Result<string, DateError>)
    ensures r.Ok? <==> ParseMilitary(s).Ok?
    ensures r.Err? ==> r.error == ValueError
  {
    match ParseMilitary(s)
    case Err(e) => Err(e)
    case Ok((h, m, _)) =>
      Ok(NatToString(Hour12(h)) + ":" + FixedDigits(m, 2) + " " + (if h < 12 then "AM" else "PM"))
  }

  /** Skips the `\s+` that a blank in a `strptime` format stands for. */
  function SkipSpaces(r: string): (t: string)
    ensures |t| <= |r|
  {
    if r != [] && IsSpace(r[0]) then SkipSpaces(r[1..]) else r
  }

  /** What is skipped is a run of blanks at the front: the rest is a suffix
      of the input that is empty or starts with a non-blank. */
  lemma {:induction false} SkipSpacesSuffix(r: string)
    ensures var t := SkipSpaces(r);
      && r[|r| - |t|..] == t
      && (forall i :: 0 <= i < |r| - |t| ==> IsSpace(r[i]))
      && (t == [] || !IsSpace(t[0]))
  {
    if r != [] && IsSpace(r[0]) {
      SkipSpacesSuffix(r[1..]);
      var t := SkipSpaces(r);
      assert forall i :: 1 <= i < |r| - |t| ==> r[i] == r[1..][i - 1];
      assert r[1..][|r[1..]| - |t|..] == r[|r| - |t|..];
    }
  }

  /** `%p` in the C locale, matched without regard to case. */
  function AmPmField(r: string): Option<bool> {
    if |r| == 2 && LowerChar(r[1]) == 'm' && LowerChar(r[0]) == 'a' then Some(false)
    else if |r| == 2 && LowerChar(r[1]) == 'm' && LowerChar(r[0]) == 'p' then Some(true)
    else None
  }

  /** `strptime(s, "%I:%M %p")`, giving the 24-hour hour and the minute. */
  function ParseAmerican(s: string): (r: Result<(int, int), DateError>)
    ensures r.Ok? ==> ValidClock(r.value.0, r.value.1)
  {
    match Hour12Field(s)
    case None => Err(ValueError)
    case Some((i, il)) =>
      if |s| <= il || s[il] != ':' then Err(ValueError)
      else
        var r1 := s[il + 1..];
        match MinuteField(r1)
        case None => Err(ValueError)
        case Some((m, ml)) =>
          var r2 := r1[ml..];
          if r2 == [] || !IsSpace(r2[0]) then Err(ValueError)
          else
            match AmPmField(SkipSpaces(r2))
            case None => Err(ValueError)
            case Some(pm) =>
              Ok((Hour24(i, pm), m))
  }

  /** `american_to_military`: `strftime("%H:%M:%S")` of the parsed time, so
      the seconds are always `00`. */
  function AmericanToMilitary(s: string): (r: Result<string, DateError>)
    ensures r.Ok? <==> ParseAmerican(s).Ok?
    ensures r.Err? ==> r.error == ValueError
    ensures r.Ok? ==> |r.value| == 8 && r.value[2] == ':' && r.value[5] == ':' && r.value[6..] == "00"
  {
    match ParseAmerican(s)
    case Err(e) => Err(e)
    case Ok((h, m)) => Ok(FixedDigits(h, 2) + ":" + FixedDigits(m, 2) + ":00")
  }

  /** The canonical 24-hour string `HH:MM:SS`. */
  function Military(h: int, m: int, sec: int): string
    requires ValidClock(h, m) && 0 <= sec < 60
  {
    FixedDigits(h, 2) + ":" + FixedDigits(m, 2) + ":" + FixedDigits(sec, 2)
  }

  /** The canonical 12-hour string `H:MM AM` / `H:MM PM`: hour 1 .. 12
      without a leading zero, two-digit minutes, one blank, upper case. */
  function American(h12: int, m: int, pm: bool): string
    requires 1 <= h12 <= 12 && 0 <= m < 60
  {
    NatToString(h12) + ":" + FixedDigits(m, 2) + " " + (if pm then "PM" else "AM")
  }

  /** `%H` reads a two-digit hour followed by a non-digit. */
  lemma HourFieldOf(h: int, rest: string)
    requires 0 <= h < 24 && rest != [] && !IsDigit(rest[0])
    ensures HourField(FixedDigits(h, 2) + rest) == Some((h, 2))
  {
    TwoDigits(h);
  }

  /** `%M` reads a two-digit minute followed by a non-digit. */
  lemma MinuteFieldOf(m: int, rest: string)
    requires 0 <= m < 60 && rest != [] && !IsDigit(rest[0])
    ensures MinuteField(FixedDigits(m, 2) + rest) == Some((m, 2))
  {
    TwoDigits(m);
  }

  /** `%S` reads a two-digit second. */
  lemma SecondFieldOf(sec: int)
    requires 0 <= sec < 60
    ensures SecondField(FixedDigits(sec, 2)) == Some((sec, 2))
  {
    TwoDigits(sec);
  }

  /** `%I` reads an hour 1 .. 12 written without a leading zero, followed
      by a non-digit. */
  lemma Hour12FieldOf(h12: int, rest: string)
    requires 1 <= h12 <= 12 && rest != [] && !IsDigit(rest[0])
    ensures Hour12Field(NatToString(h12) + rest) == Some((h12, |NatToString(h12)|))
  {
    NatToStringSmall(h12);
    if h12 < 10 {
      assert FixedDigits(h12, 1) == FixedDigits(h12 / 10, 0) + [DigitChar(h12 % 10)];
    } else {
      TwoDigits(h12);
    }
  }

  /** A blank and then `AM` or `PM` reads as the half of the day. */
  lemma AmPmFieldOf(pm: bool)
    ensures AmPmField(SkipSpaces(" " + if pm then "PM" else "AM")) == Some(pm)
  {
    var suffix := if pm then "PM" else "AM";
    assert (" " + suffix)[1..] == suffix;
    assert IsSpace(' ') && !IsSpace(suffix[0]);
    assert SkipSpaces(" " + suffix) == suffix;
    assert LowerChar('M') == 'm' && LowerChar('P') == 'p' && LowerChar('A') == 'a';
  }

  lemma ParseMilitaryCanonical(h: int, m: int, sec: int)
    requires ValidClock(h, m) && 0 <= sec < 60
    ensures ParseMilitary(Military(h, m, sec)) == Ok((h, m, sec))
  {
    var hh, mm, ss := FixedDigits(h, 2), FixedDigits(m, 2), FixedDigits(sec, 2);
    var s := Military(h, m, sec);
    assert s == hh + (":" + mm + ":" + ss);
    HourFieldOf(h, ":" + mm + ":" + ss);
    assert s[2] == ':';
    var r1 := s[3..];
    assert r1 == mm + (":" + ss);
    MinuteFieldOf(m, ":" + ss);
    assert r1[2] == ':';
    assert r1[3..] == ss;
    SecondFieldOf(sec);
  }

  /** The 24-hour hour of a 12-hour reading. */
  function Hour24(h12: int, pm: bool): int {
    if pm then (if h12 == 12 then 12 else h12 + 12) else (if h12 == 12 then 0 else h12)
  }

  /** The steps of a successful `%I:%M %p` parse. */
  lemma ParseAmericanSteps(s: string, h12: int, il: int, m: int, ml: int, pm: bool)
    requires Hour12Field(s) == Some((h12, il)) && 0 <= il < |s| && s[il] == ':'
    requires MinuteField(s[il + 1..]) == Some((m, ml)) && 0 <= ml <= |s[il + 1..]|
    requires var r2 := s[il + 1..][ml..]; r2 != [] && IsSpace(r2[0]) && AmPmField(SkipSpaces(r2)) == Some(pm)
    ensures ParseAmerican(s) == Ok((Hour24(h12, pm), m))
  {
  }

  lemma ParseAmericanCanonical(h12: int, m: int, pm: bool)
    requires 1 <= h12 <= 12 && 0 <= m < 60
    ensures ParseAmerican(American(h12, m, pm)) == Ok((Hour24(h12, pm), m))
  {
    var hs, mm := NatToString(h12), FixedDigits(m, 2);
    var suffix := if pm then "PM" else "AM";
    var s := American(h12, m, pm);
    var il := |hs|;
    var r1 := mm + (" " + suffix);
    var r2 := " " + suffix;
    assert s == hs + ([':'] + r1);
    Hour12FieldOf(h12, [':'] + r1);
    assert s[il] == ':' && s[il + 1..] == r1;
    MinuteFieldOf(m, r2);
    assert r1[2..] == r2 && IsSpace(r2[0]);
    AmPmFieldOf(pm);
    ParseAmericanSteps(s, h12, il, m, 2, pm);
  }

  /** The clock face of the 24-hour hours: 0 is 12, 1 .. 12 are
      themselves, 13 .. 23 are h-12; the morning is the hours below 12. */
  lemma Hour12Face(h: int)
    requires 0 <= h < 24
    ensures 1 <= Hour12(h) <= 12
    ensures h == 0 ==> Hour12(h) == 12
    ensures 1 <= h <= 12 ==> Hour12(h) == h
    ensures 13 <= h ==> Hour12(h) == h - 12
    ensures Hour24(Hour12(h), h >= 12) == h
  {
  }

  /** The 24-hour to 12-hour conversion of a canonical time: the clock-face
      hour without a leading zero, the minutes kept, AM below hour 12 and
      PM from it; the seconds play no part. */
  lemma MilitaryToAmericanCanonical(h: int, m: int, sec: int)
    requires ValidClock(h, m) && 0 <= sec < 60
    ensures 1 <= Hour12(h) <= 12
    ensures MilitaryToAmerican(Military(h, m, sec)) == Ok(American(Hour12(h), m, h >= 12))
  {
    Hour12Face(h);
    ParseMilitaryCanonical(h, m, sec);
  }

  /** The 12-hour to 24-hour conversion of a canonical time: 12 AM is hour
      0, 12 PM is 12, k PM is k+12 for k in 1 .. 11, k AM is k; the result
      always has seconds `00`. */
  lemma AmericanToMilitaryCanonical(h12: int, m: int, pm: bool)
    requires 1 <= h12 <= 12 && 0 <= m < 60
    ensures ValidClock(Hour24(h12, pm), m)
    ensures AmericanToMilitary(American(h12, m, pm)) == Ok(Military(Hour24(h12, pm), m, 0))
    ensures h12 == 12 && !pm ==> Hour24(h12, pm) == 0
    ensures h12 == 12 && pm ==> Hour24(h12, pm) == 12
    ensures h12 < 12 && pm ==> Hour24(h12, pm) == h12 + 12
    ensures h12 < 12 && !pm ==> Hour24(h12, pm) == h12
  {
    ParseAmericanCanonical(h12, m, pm);
    TwoDigits(0);
    var hour := Hour24(h12, pm);
    assert FixedDigits(hour, 2) + ":" + FixedDigits(m, 2) + ":00"
        == FixedDigits(hour, 2) + ":" + FixedDigits(m, 2) + ":" + FixedDigits(0, 2);
  }

  /** 24-hour to 12-hour and back gives the time back with seconds `00`. */
  lemma MilitaryRoundTrip(h: int, m: int, sec: int)
    requires ValidClock(h, m) && 0 <= sec < 60
    ensures MilitaryToAmerican(Military(h, m, sec)).Ok?
    ensures AmericanToMilitary(MilitaryToAmerican(Military(h, m, sec)).value) == Ok(Military(h, m, 0))
  {
    MilitaryToAmericanCanonical(h, m, sec);
    Hour12Face(h);
    AmericanToMilitaryCanonical(Hour12(h), m, h >= 12);
  }

  /** 12-hour to 24-hour and back gives a canonical 12-hour time back. */
  lemma AmericanRoundTrip(h12: int, m: int, pm: bool)
    requires 1 <= h12 <= 12 && 0 <= m < 60
    ensures AmericanToMilitary(American(h12, m, pm)).Ok?
    ensures MilitaryToAmerican(AmericanToMilitary(American(h12, m, pm)).value) == Ok(American(h12, m, pm))
  {
    AmericanToMilitaryCanonical(h12, m, pm);
    var hour := Hour24(h12, pm);
    MilitaryToAmericanCanonical(hour, m, 0);
    Hour24Face(h12, pm);
  }

  /** Every 12-hour reading is the clock face of its 24-hour hour. */
  lemma Hour24Face(h12: int, pm: bool)
    requires 1 <= h12 <= 12
    ensures 0 <= Hour24(h12, pm) < 24
    ensures Hour12(Hour24(h12, pm)) == h12 && (Hour24(h12, pm) >= 12) == pm
  {
  }

  lemma TimeTexts()
    ensures Military(20, 0, 0) == "20:00:00"
    ensures American(8, 0, true) == "8:00 PM"
  {
    TwoDigits(20);
    TwoDigits(0);
    assert NatToString(8) == "8";
  }

  /** 20:00:00 is 8:00 PM and back. */
  lemma TimeExamples()
    ensures MilitaryToAmerican("20:00:00") == Ok("8:00 PM")
    ensures AmericanToMilitary("8:00 PM") == Ok("20:00:00")
  {
    TimeTexts();
    MilitaryToAmericanCanonical(20, 0, 0);
    AmericanToMilitaryCanonical(8, 0, true);
  }

  /** An hour 24, a second 60 and a time without seconds are refused. */
  lemma TimeRejections()
    ensures MilitaryToAmerican("24:00:00") == Err(ValueError)
    ensures MilitaryToAmerican("20:00:60") == Err(ValueError)
    ensures MilitaryToAmerican("20:00") == Err(ValueError)
  {
    assert HourField("24:00:00") == Some((2, 1));
    assert HourField("20:00:60") == Some((20, 2));
    assert "20:00:60"[3..] == "00:60" && MinuteField("00:60") == Some((0, 2));
    assert "00:60"[3..] == "60" && SecondField("60") == Some((60, 2));
    assert HourField("20:00") == Some((20, 2));
    assert "20:00"[3..] == "00" && MinuteField("00") == Some((0, 2));
  }

  // ---------------------------------------------------------------------
  // Calendar labels
  // ---------------------------------------------------------------------

  /** `%b` in the C locale. */
  function MonthAbbrev(m: int): (s: string)
    requires 1 <= m <= 12
    ensures |s| == 3
  {
    ["Jan", "Feb", "Mar", "Apr", "May", "Jun", "Jul", "Aug", "Sep", "Oct", "Nov", "Dec"][m - 1]
  }

  /** `format_date_for_calendar` of this file: `strftime("%b %-d, %Y")`,
      the day without a leading zero. */
  function FormatDateForCalendar(s: string): (r: Result<string, DateError>)
    ensures r.Ok? <==> ParseIsoDate(s).Ok?
    ensures r.Err? ==> r.error == ValueError
    ensures r.Ok? ==> 11 <= |r.value| && r.value[3] == ' ' && r.value[|r.value| - 6..|r.value| - 4] == ", "
  {
    match ParseIsoDate(s)
    case Err(e) => Err(e)
    case Ok(d) => Ok(MonthAbbrev(d.month) + " " + NatToString(d.day) + ", " + FixedDigits(d.year, 4))
  }

  /** The label of a `YYYY-MM-DD` date names its month, its day without a
      leading zero and its four-digit year. */
  lemma CalendarLabelOfIso(d: Date)
    requires InRange(d)
    ensures FormatDateForCalendar(FormatIso(d))
         == Ok(MonthAbbrev(d.month) + " " + NatToString(d.day) + ", " + FixedDigits(d.year, 4))
    ensures d.day < 10 ==> |FormatDateForCalendar(FormatIso(d)).value| == 11
  {
    IsoRoundTrip(d);
  }

  lemma CalendarLabelText()
    ensures MonthAbbrev(1) + " " + NatToString(3) + ", " + FixedDigits(2024, 4) == "Jan 3, 2024"
  {
    assert NatToString(3) == "3";
    assert FixedDigits(2024, 4) == "2024";
  }

  /** 2024-01-03 is labelled "Jan 3, 2024"; 30 February is refused. */
  lemma CalendarLabelExample()
    ensures FormatDateForCalendar("2024-01-03") == Ok("Jan 3, 2024")
    ensures FormatDateForCalendar("2024-02-30") == Err(ValueError)
  {
    CalendarLabelOfIso(Date(2024, 1, 3));
    IsoExample(Date(2024, 1, 3));
    CalendarLabelText();
    NoThirtiethOfFebruary();
  }

  lemma NoThirtiethOfFebruary()
    ensures ParseIsoDate("2024-02-30") == Err(ValueError)
  {
    var s := "2024-02-30";
    assert AllDigits(s[..4]) && s[4] == '-';
    assert s[5..] == "02-30";
    assert MonthField("02-30") == Some((2, 2));
    assert "02-30"[3..] == "30";
    assert DayField("30") == Some((30, 2));
    assert !ValidDate(Date(DigitsValue(s[..4]), 2, 30));
  }
}
