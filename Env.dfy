/** The typed settings layer: the `Weekday` enumeration, the table from
    weekday to weekday number, and the defaults of the reservation settings
    that the date calculation reads. */
module Env {
  import opened Wrappers

  /** The seven members, in declaration order. */
  datatype Weekday = Monday | Tuesday | Wednesday | Thursday | Friday | Saturday | Sunday

  const AllWeekdays: seq<Weekday> :=
    [Monday, Tuesday, Wednesday, Thursday, Friday, Saturday, Sunday]

  /** The member's string value; the enumeration is a `str` enum whose
      values are the upper-case member names. */
  function Value(w: Weekday): string {
    match w
    case Monday => "MONDAY"
    case Tuesday => "TUESDAY"
    case Wednesday => "WEDNESDAY"
    case Thursday => "THURSDAY"
    case Friday => "FRIDAY"
    case Saturday => "SATURDAY"
    case Sunday => "SUNDAY"
  }

  /** `Weekday(s)`: the member whose value is `s`, if any (case-sensitive). */
  function FromValue(s: string): (r: Option<Weekday>)
    ensures r.Some? ==> Value(r.value) == s
  {
    if s == "MONDAY" then Some(Monday)
    else if s == "TUESDAY" then Some(Tuesday)
    else if s == "WEDNESDAY" then Some(Wednesday)
    else if s == "THURSDAY" then Some(Thursday)
    else if s == "FRIDAY" then Some(Friday)
    else if s == "SATURDAY" then Some(Saturday)
    else if s == "SUNDAY" then Some(Sunday)
    else None
  }

  /** `WEEKDAY_MAP[w]`: the `datetime.weekday()` number of the day, Monday
      = 0 ... Sunday = 6. */
  function WeekdayIndex(w: Weekday): (n: int)
    ensures 0 <= n < 7
  {
    match w
    case Monday => 0
    case Tuesday => 1
    case Wednesday => 2
    case Thursday => 3
    case Friday => 4
    case Saturday => 5
    case Sunday => 6
  }

  /** The table numbers the members in declaration order, and so takes
      each of 0 .. 6 exactly once. */
  lemma WeekdayIndexInOrder()
    ensures |AllWeekdays| == 7
    ensures forall i :: 0 <= i < 7 ==> WeekdayIndex(AllWeekdays[i]) == i
    ensures forall w :: w in AllWeekdays
  {
    forall w ensures w in AllWeekdays {
      assert AllWeekdays[WeekdayIndex(w)] == w;
    }
  }

  /** The weekday with a given number: the inverse of the table. */
  function WeekdayFromIndex(n: int): (w: Weekday)
    requires 0 <= n < 7
    ensures WeekdayIndex(w) == n
  {
    WeekdayIndexInOrder();
    AllWeekdays[n]
  }

  /** The table is injective and its range is exactly 0 .. 6: every number
      in range names one weekday and every weekday is named by its number. */
  lemma WeekdayIndexBijective(v: Weekday, w: Weekday)
    ensures WeekdayIndex(v) == WeekdayIndex(w) ==> v == w
    ensures WeekdayFromIndex(WeekdayIndex(w)) == w
  {
  }

  /** Each member's value is its name, and distinct members have distinct
      values, so `FromValue` inverts `Value`. */
  lemma ValueRoundTrip(w: Weekday)
    ensures FromValue(Value(w)) == Some(w)
  {
  }

  /** The reservation settings with their declared defaults. */
  datatype Settings = Settings(
    desiredWeekday: Weekday,
    desiredTimeMilitary: string,
    reservationFrequency: string,
    altDesiredTimesMilitary: seq<string>,
    occurrencesAhead: int)

  const DefaultSettings: Settings :=
    Settings(Wednesday, "20:00:00", "WEEKLY", ["19:00:00"], 2)
}
