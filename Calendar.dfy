/** The proleptic Gregorian calendar that Python's `datetime` uses, with a
    date written as a day number: day 0 is 0001-01-01 (a Monday), so the
    day number is `date.toordinal() - 1` and `date.weekday()` is the day
    number mod 7.  `datetime` only represents the years 1 to 9999. */
module Calendar {

  datatype Date = Date(year: int, month: int, day: int)

  const MinYear: int := 1
  const MaxYear: int := 9999
  /** The day number of 9999-12-31, the last date `datetime` represents. */
  const MaxDay: int := 3652058

  predicate IsLeapYear(y: int) {
    y % 4 == 0 && (y % 100 != 0 || y % 400 == 0)
  }

  function DaysInYear(y: int): int {
    if IsLeapYear(y) then 366 else 365
  }

  function DaysInMonth(y: int, m: int): int
    requires 1 <= m <= 12
  {
    if m == 2 then (if IsLeapYear(y) then 29 else 28)
    else if m == 4 || m == 6 || m == 9 || m == 11 then 30
    else 31
  }

  /** The number of days of year `y` before the first of month `m`. */
  function DaysBeforeMonth(y: int, m: int): int
    requires 1 <= m <= 12
  {
    (if IsLeapYear(y) && m > 2 then 1 else 0) +
    (match m
     case 1 => 0    case 2 => 31   case 3 => 59   case 4 => 90
     case 5 => 120  case 6 => 151  case 7 => 181  case 8 => 212
     case 9 => 243  case 10 => 273 case 11 => 304 case _ => 334)
  }

  /** The number of days from 0001-01-01 to the first of January of `y`. */
  function DaysBeforeYear(y: int): int
    requires y >= 1
  {
    var p := y - 1;
    365 * p + p / 4 - p / 100 + p / 400
  }

  predicate ValidDate(d: Date) {
    MinYear <= d.year && 1 <= d.month <= 12 && 1 <= d.day <= DaysInMonth(d.year, d.month)
  }

  /** A valid date `datetime` can hold. */
  predicate InRange(d: Date) {
    ValidDate(d) && d.year <= MaxYear
  }

  /** Days since 0001-01-01. */
  function DayNumber(d: Date): int
    requires ValidDate(d)
  {
    DaysBeforeYear(d.year) + DaysBeforeMonth(d.year, d.month) + d.day - 1
  }

  /** The weekday of a day number, Monday = 0 ... Sunday = 6. */
  function WeekdayOf(n: int): (w: int)
    ensures 0 <= w < 7
  {
    n % 7
  }

  /** Moving from `y - 1` to `y` adds one to the quotient by 4, 100 or 400
      exactly when `y` is a multiple of the divisor. */
  lemma Div4Step(y: int)
    requires y >= 1
    ensures y / 4 == (y - 1) / 4 + (if y % 4 == 0 then 1 else 0)
  {
  }

  lemma Div100Step(y: int)
    requires y >= 1
    ensures y / 100 == (y - 1) / 100 + (if y % 100 == 0 then 1 else 0)
  {
  }

  lemma Div400Step(y: int)
    requires y >= 1
    ensures y / 400 == (y - 1) / 400 + (if y % 400 == 0 then 1 else 0)
  {
  }

  lemma Multiple400(y: int)
    requires y % 400 == 0
    ensures y % 100 == 0
  {
    var q := y / 400;
    assert y == 400 * q;
    assert y == 100 * (4 * q);
  }

  lemma Multiple100(y: int)
    requires y % 100 == 0
    ensures y % 4 == 0
  {
    var q := y / 100;
    assert y == 100 * q;
    assert y == 4 * (25 * q);
  }

  lemma DaysBeforeYearStep(y: int)
    requires y >= 1
    ensures DaysBeforeYear(y + 1) == DaysBeforeYear(y) + DaysInYear(y)
  {
    Div4Step(y);
    Div100Step(y);
    Div400Step(y);
    if y % 400 == 0 { Multiple400(y); }
    if y % 100 == 0 { Multiple100(y); }
    var p := y - 1;
    assert DaysBeforeYear(y + 1) == 365 * p + 365 + y / 4 - y / 100 + y / 400;
  }

  lemma DaysBeforeMonthStep(y: int, m: int)
    requires 1 <= m < 12
    ensures DaysBeforeMonth(y, m + 1) == DaysBeforeMonth(y, m) + DaysInMonth(y, m)
  {
  }

  lemma LastMonthEndsYear(y: int)
    ensures DaysBeforeMonth(y, 12) + DaysInMonth(y, 12) == DaysInYear(y)
  {
  }

  /** Walks year by year from `y`, taking whole years out of `rem`. */
  function YearWalk(y: int, rem: int): (r: (int, int))
    requires y >= 1 && rem >= 0
    ensures r.0 >= y && 0 <= r.1 < DaysInYear(r.0)
    ensures DaysBeforeYear(r.0) + r.1 == DaysBeforeYear(y) + rem
    decreases rem
  {
    if rem < DaysInYear(y) then (y, rem)
    else
      DaysBeforeYearStep(y);
      YearWalk(y + 1, rem - DaysInYear(y))
  }

  /** Walks month by month from month `m` of year `y`, taking whole months
      out of `rem`; gives the month and the 1-based day. */
  function MonthWalk(y: int, m: int, rem: int): (r: (int, int))
    requires 1 <= m <= 12 && 0 <= rem && DaysBeforeMonth(y, m) + rem < DaysInYear(y)
    ensures m <= r.0 <= 12 && 1 <= r.1 <= DaysInMonth(y, r.0)
    ensures DaysBeforeMonth(y, r.0) + r.1 - 1 == DaysBeforeMonth(y, m) + rem
    decreases 12 - m
  {
    if rem < DaysInMonth(y, m) then (m, rem + 1)
    else
      LastMonthEndsYear(y);
      assert m < 12;
      DaysBeforeMonthStep(y, m);
      MonthWalk(y, m + 1, rem - DaysInMonth(y, m))
  }

  /** The civil date of a day number: the inverse of `DayNumber`. */
  function CivilFromDay(n: nat): (d: Date)
    ensures ValidDate(d) && DayNumber(d) == n
  {
    var (y, r) := YearWalk(1, n);
    LastMonthEndsYear(y);
    var (m, dd) := MonthWalk(y, 1, r);
    Date(y, m, dd)
  }

  lemma {:induction false} DaysBeforeYearMonotone(a: int, b: int)
    requires 1 <= a < b
    ensures DaysBeforeYear(a) + DaysInYear(a) <= DaysBeforeYear(b)
    decreases b - a
  {
    DaysBeforeYearStep(a);
    if a + 1 < b {
      DaysBeforeYearMonotone(a + 1, b);
    }
  }

  lemma {:induction false} YearWalkLands(y0: int, y: int, off: int)
    requires 1 <= y0 <= y && 0 <= off < DaysInYear(y)
    ensures YearWalk(y0, DaysBeforeYear(y) - DaysBeforeYear(y0) + off) == (y, off)
    decreases y - y0
  {
    if y0 < y {
      DaysBeforeYearMonotone(y0, y);
      DaysBeforeYearStep(y0);
      YearWalkLands(y0 + 1, y, off);
    }
  }

  /** Every month ends within its year. */
  lemma MonthEndWithinYear(y: int, m: int)
    requires 1 <= m <= 12
    ensures 0 <= DaysBeforeMonth(y, m)
    ensures DaysBeforeMonth(y, m) + DaysInMonth(y, m) <= DaysInYear(y)
  {
  }

  lemma {:induction false} MonthWalkLands(y: int, m0: int, m: int, day: int)
    requires 1 <= m0 <= m <= 12 && 1 <= day <= DaysInMonth(y, m)
    ensures DaysBeforeMonth(y, m) - DaysBeforeMonth(y, m0) + day - 1 >= 0
    ensures DaysBeforeMonth(y, m0) + (DaysBeforeMonth(y, m) - DaysBeforeMonth(y, m0) + day - 1) < DaysInYear(y)
    ensures MonthWalk(y, m0, DaysBeforeMonth(y, m) - DaysBeforeMonth(y, m0) + day - 1) == (m, day)
    decreases m - m0
  {
    MonthEndWithinYear(y, m);
    if m0 < m {
      DaysBeforeMonthStep(y, m0);
      MonthWalkLands(y, m0 + 1, m, day);
    }
  }

  /** `CivilFromDay` recovers every valid date from its day number, so the
      two conversions are inverse bijections between valid dates and the
      natural numbers. */
  lemma CivilFromDayNumber(d: Date)
    requires ValidDate(d)
    ensures DayNumber(d) >= 0
    ensures CivilFromDay(DayNumber(d)) == d
  {
    var off := DaysBeforeMonth(d.year, d.month) + d.day - 1;
    MonthWalkLands(d.year, 1, d.month, d.day);
    LastMonthEndsYear(d.year);
    assert 0 <= off < DaysInYear(d.year);
    YearWalkLands(1, d.year, off);
  }

  /** A valid date lies in the window of its own year. */
  lemma DayNumberWithinYear(d: Date)
    requires ValidDate(d)
    ensures DaysBeforeYear(d.year) <= DayNumber(d) < DaysBeforeYear(d.year) + DaysInYear(d.year)
  {
    MonthWalkLands(d.year, 1, d.month, d.day);
  }

  /** The day numbers `datetime` can hold are exactly 0 .. MaxDay. */
  lemma InRangeIff(n: nat)
    ensures InRange(CivilFromDay(n)) <==> n <= MaxDay
  {
    var d := CivilFromDay(n);
    DayNumberWithinYear(d);
    assert DaysBeforeYear(10000) == MaxDay + 1;
    if d.year <= MaxYear {
      if d.year < MaxYear {
        DaysBeforeYearMonotone(d.year, MaxYear);
      }
      DaysBeforeYearStep(MaxYear);
    } else {
      if d.year > 10000 {
        DaysBeforeYearMonotone(10000, d.year);
      }
    }
  }

  /** Day 0 and the last representable date, by their day numbers. */
  lemma CalendarLandmarks()
    ensures DayNumber(Date(1, 1, 1)) == 0
    ensures DayNumber(Date(MaxYear, 12, 31)) == MaxDay
    ensures WeekdayOf(DayNumber(Date(2024, 1, 1))) == 0
  {
  }
}
