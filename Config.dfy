/** The configuration layer read from the process environment: the
    weekday/frequency validator with its defaults, the desired and the
    schedule settings built from it, the comma-separated alternate times and
    the `HEADLESS` switch.  The environment is a map from names to values. */
module Config {
  import opened Strings
  import opened Env

  type Environ = map<string, string>

  /** `os.getenv(name, default)`. */
  function GetEnv(env: Environ, name: string, default: string): (v: string)
    ensures name in env ==> v == env[name]
    ensures name !in env ==> v == default
  {
    if name in env then env[name] else default
  }

  const ValidWeekdays: seq<string> :=
    ["MONDAY", "TUESDAY", "WEDNESDAY", "THURSDAY", "FRIDAY", "SATURDAY", "SUNDAY"]

  const ValidFrequencies: seq<string> := ["WEEKLY", "DAILY"]

  /** `validate_weekday_and_frequency`: each value is kept when it is in its
      list and replaced by its default otherwise; the defaults are not
      checked. */
  function ValidateWeekdayAndFrequency(weekday: string, frequency: string,
                                       defaultWeekday: string, defaultFrequency: string)
    : (r: (string, string))
    ensures r.0 == weekday || r.0 == defaultWeekday
    ensures r.1 == frequency || r.1 == defaultFrequency
    ensures defaultWeekday in ValidWeekdays ==> r.0 in ValidWeekdays
    ensures defaultFrequency in ValidFrequencies ==> r.1 in ValidFrequencies
  {
    (if weekday in ValidWeekdays then weekday else defaultWeekday,
     if frequency in ValidFrequencies then frequency else defaultFrequency)
  }

  /** The valid weekday names are exactly the values of the `Weekday`
      members, compared case-sensitively. */
  lemma ValidWeekdaysAreValues(s: string)
    ensures s in ValidWeekdays <==> FromValue(s).Some?
  {
    if FromValue(s).Some? {
      assert s == Value(FromValue(s).value);
    }
  }

  /** The weekday is kept exactly when it is one of the seven names, and
      otherwise the default comes back; likewise the frequency.  Each
      output depends only on its own input and default. */
  lemma ValidatorKeepsOrDefaults(weekday: string, frequency: string,
                                 defaultWeekday: string, defaultFrequency: string)
    ensures var r := ValidateWeekdayAndFrequency(weekday, frequency, defaultWeekday, defaultFrequency);
      && (FromValue(weekday).Some? ==> r.0 == weekday)
      && (FromValue(weekday).None? ==> r.0 == defaultWeekday)
      && (frequency == "WEEKLY" || frequency == "DAILY" ==> r.1 == frequency)
      && (frequency != "WEEKLY" && frequency != "DAILY" ==> r.1 == defaultFrequency)
  {
    ValidWeekdaysAreValues(weekday);
  }

  lemma ValidatorIndependent(weekday: string, frequency: string,
                             defaultWeekday: string, defaultFrequency: string,
                             otherFrequency: string, otherFrequencyDefault: string,
                             otherWeekday: string, otherWeekdayDefault: string)
    ensures ValidateWeekdayAndFrequency(weekday, frequency, defaultWeekday, defaultFrequency).0
         == ValidateWeekdayAndFrequency(weekday, otherFrequency, defaultWeekday, otherFrequencyDefault).0
    ensures ValidateWeekdayAndFrequency(weekday, frequency, defaultWeekday, defaultFrequency).1
         == ValidateWeekdayAndFrequency(otherWeekday, frequency, otherWeekdayDefault, defaultFrequency).1
  {
  }

  /** With valid defaults both outputs are valid and validating again
      changes nothing. */
  lemma ValidatorIdempotent(weekday: string, frequency: string,
                            defaultWeekday: string, defaultFrequency: string)
    requires defaultWeekday in ValidWeekdays && defaultFrequency in ValidFrequencies
    ensures var r := ValidateWeekdayAndFrequency(weekday, frequency, defaultWeekday, defaultFrequency);
      && r.0 in ValidWeekdays && r.1 in ValidFrequencies
      && ValidateWeekdayAndFrequency(r.0, r.1, defaultWeekday, defaultFrequency) == r
  {
  }

  /** An unchecked default comes through as it is. */
  lemma ValidatorExamples()
    ensures ValidateWeekdayAndFrequency("monday", "WEEKLY", "WEDNESDAY", "WEEKLY") == ("WEDNESDAY", "WEEKLY")
    ensures ValidateWeekdayAndFrequency("FRIDAY", "DAILY", "WEDNESDAY", "WEEKLY") == ("FRIDAY", "DAILY")
    ensures ValidateWeekdayAndFrequency("Sunday", "monthly", "nope", "never") == ("nope", "never")
  {
    ValidWeekdaysAreValues("monday");
    ValidWeekdaysAreValues("Sunday");
  }

  // ---------------------------------------------------------------------
  // Settings read from the environment
  // ---------------------------------------------------------------------

  datatype DesiredDateTime = DesiredDateTime(weekday: string, time: string, frequency: string)

  /** `get_desired_date_time`. */
  function GetDesiredDateTime(env: Environ): (r: DesiredDateTime)
    ensures r.weekday in ValidWeekdays && r.frequency in ValidFrequencies
    ensures r.time == GetEnv(env, "DESIRED_TIME", "20:00")
  {
    var (weekday, frequency) := ValidateWeekdayAndFrequency(
      GetEnv(env, "DESIRED_WEEKDAY", "WEDNESDAY"), GetEnv(env, "RESERVATION_FREQUENCY", "WEEKLY"),
      "WEDNESDAY", "WEEKLY");
    DesiredDateTime(weekday, GetEnv(env, "DESIRED_TIME", "20:00"), frequency)
  }

  /** `validate_schedule_settings`, as (weekday, time, frequency). */
  function ValidateScheduleSettings(env: Environ): (r: (string, string, string))
    ensures r.0 in ValidWeekdays && r.2 in ValidFrequencies
    ensures r.1 == GetEnv(env, "SCHEDULE_TIME", "09:00")
  {
    var (weekday, frequency) := ValidateWeekdayAndFrequency(
      GetEnv(env, "SCHEDULE_WEEKDAY", "MONDAY"), GetEnv(env, "SCHEDULE_FREQUENCY", "WEEKLY"),
      "MONDAY", "WEEKLY");
    (weekday, GetEnv(env, "SCHEDULE_TIME", "09:00"), frequency)
  }

  /** With nothing set the desired slot is Wednesday at "20:00", weekly, and
      the schedule Monday at "09:00", weekly; the desired time is passed on
      whatever it is, and an invalid weekday falls back to the default. */
  lemma SettingsDefaults(env: Environ)
    ensures env == map[] ==> GetDesiredDateTime(env) == DesiredDateTime("WEDNESDAY", "20:00", "WEEKLY")
    ensures env == map[] ==> ValidateScheduleSettings(env) == ("MONDAY", "09:00", "WEEKLY")
    ensures "DESIRED_TIME" in env ==> GetDesiredDateTime(env).time == env["DESIRED_TIME"]
    ensures "DESIRED_WEEKDAY" in env && FromValue(env["DESIRED_WEEKDAY"]).None? ==>
              GetDesiredDateTime(env).weekday == "WEDNESDAY"
    ensures "DESIRED_WEEKDAY" in env && FromValue(env["DESIRED_WEEKDAY"]).Some? ==>
              GetDesiredDateTime(env).weekday == env["DESIRED_WEEKDAY"]
    ensures "SCHEDULE_WEEKDAY" in env && FromValue(env["SCHEDULE_WEEKDAY"]).None? ==>
              ValidateScheduleSettings(env).0 == "MONDAY"
  {
    if "DESIRED_WEEKDAY" in env {
      ValidWeekdaysAreValues(env["DESIRED_WEEKDAY"]);
    }
    if "SCHEDULE_WEEKDAY" in env {
      ValidWeekdaysAreValues(env["SCHEDULE_WEEKDAY"]);
    }
  }

  // ---------------------------------------------------------------------
  // Preferences
  // ---------------------------------------------------------------------

  /** `DESIRED_TIME_MILITARY`. */
  function DesiredTimeMilitary(env: Environ): (v: string)
    ensures "DESIRED_TIME_MILITARY" in env ==> v == env["DESIRED_TIME_MILITARY"]
    ensures "DESIRED_TIME_MILITARY" !in env ==> v == "20:00:00"
  {
    GetEnv(env, "DESIRED_TIME_MILITARY", "20:00:00")
  }

  /** `DESIRED_FIELD_STARTS_WITH`. */
  function DesiredFieldStartsWith(env: Environ): (v: string)
    ensures "DESIRED_FIELD_STARTS_WITH" in env ==> v == env["DESIRED_FIELD_STARTS_WITH"]
    ensures "DESIRED_FIELD_STARTS_WITH" !in env ==> v == "FIELD - Main"
  {
    GetEnv(env, "DESIRED_FIELD_STARTS_WITH", "FIELD - Main")
  }

  const DefaultAltTimes: string := "19:00:00,21:00:00"

  /** `ALT_DESIRED_TIMES_MILITARY`: the comma split of the value. */
  function AltDesiredTimesMilitary(env: Environ): (r: seq<string>)
    ensures |r| >= 1
  {
    Split(GetEnv(env, "ALT_DESIRED_TIMES_MILITARY", DefaultAltTimes), ',')
  }

  /** Joining the alternates with commas gives the value back; there is one
      more alternate than there are commas, and no alternate holds a comma.
      An empty value gives one empty alternate. */
  lemma AltTimesSplit(env: Environ)
    ensures var v := GetEnv(env, "ALT_DESIRED_TIMES_MILITARY", DefaultAltTimes);
      && Join(AltDesiredTimesMilitary(env), ',') == v
      && |AltDesiredTimesMilitary(env)| == Count(v, ',') + 1
      && (forall i :: 0 <= i < |AltDesiredTimesMilitary(env)| ==> ',' !in AltDesiredTimesMilitary(env)[i])
      && (v == "" ==> AltDesiredTimesMilitary(env) == [""])
  {
    var v := GetEnv(env, "ALT_DESIRED_TIMES_MILITARY", DefaultAltTimes);
    JoinSplit(v, ',');
    SplitCount(v, ',');
    SplitPiecesFree(v, ',');
  }

  /** With nothing set: primary 20:00:00, alternates 19:00:00 and 21:00:00,
      and fields whose names start with "FIELD - Main". */
  lemma PreferenceDefaults(env: Environ)
    requires env == map[]
    ensures DesiredTimeMilitary(env) == "20:00:00"
    ensures AltDesiredTimesMilitary(env) == ["19:00:00", "21:00:00"]
    ensures DesiredFieldStartsWith(env) == "FIELD - Main"
  {
    var p := ["19:00:00", "21:00:00"];
    assert forall i :: 0 <= i < |p| ==> ',' !in p[i];
    SplitJoin(p, ',');
    assert Join(p, ',') == DefaultAltTimes;
  }

  /** `HEADLESS`: the lower-cased value equals "true". */
  function Headless(env: Environ): (on: bool)
    ensures on ==> |GetEnv(env, "HEADLESS", "true")| == 4
  {
    Lower(GetEnv(env, "HEADLESS", "true")) == "true"
  }

  /** `HEADLESS` is on exactly when the value is "true" in any mix of
      cases, and on when it is not set. */
  lemma HeadlessIff(env: Environ)
    ensures var v := GetEnv(env, "HEADLESS", "true");
      Headless(env) <==> |v| == 4 && forall i :: 0 <= i < 4 ==> LowerChar(v[i]) == "true"[i]
    ensures "HEADLESS" !in env ==> Headless(env)
  {
    var v := GetEnv(env, "HEADLESS", "true");
    if |v| == 4 && forall i :: 0 <= i < 4 ==> LowerChar(v[i]) == "true"[i] {
      assert Lower(v) == "true";
    }
    if "HEADLESS" !in env {
      assert Lower("true") == "true" by {
        assert forall i :: 0 <= i < 4 ==> LowerChar("true"[i]) == "true"[i];
      }
    }
  }

  lemma HeadlessExamples()
    ensures Headless(map["HEADLESS" := "TRUE"])
    ensures Headless(map["HEADLESS" := "True"])
    ensures !Headless(map["HEADLESS" := "1"])
    ensures !Headless(map["HEADLESS" := "false"])
  {
    HeadlessIff(map["HEADLESS" := "TRUE"]);
    HeadlessIff(map["HEADLESS" := "True"]);
    HeadlessIff(map["HEADLESS" := "1"]);
    HeadlessIff(map["HEADLESS" := "false"]);
    assert LowerChar('T') == 't' && LowerChar('R') == 'r' && LowerChar('U') == 'u' && LowerChar('E') == 'e';
  }
}
