/**
 * The part of the chrono library this system relies on: a UTC date-time, calendar arithmetic,
 * and the strftime-style formatting and parsing of the three formats the system uses.
 */
module Chrono {
  import opened Wrappers
  import opened Strings
  import opened Numerals

  /** A proleptic Gregorian date and time of day; `second` stands for the whole sub-minute part. */
  datatype DateTime = DateTime(year: int, month: int, day: int, hour: int, minute: int, second: int)

  predicate IsLeapYear(y: int)
  {
    y % 4 == 0 && (y % 100 != 0 || y % 400 == 0)
  }

  function DaysInMonth(y: int, m: int): int
    requires 1 <= m <= 12
  {
    if m == 2 then (if IsLeapYear(y) then 29 else 28)
    else if m == 4 || m == 6 || m == 9 || m == 11 then 30
    else 31
  }

  predicate ValidDate(y: int, m: int, d: int)
  {
    1 <= m <= 12 && 1 <= d <= DaysInMonth(y, m)
  }

  predicate Valid(dt: DateTime)
  {
    ValidDate(dt.year, dt.month, dt.day)
    && 0 <= dt.hour < 24 && 0 <= dt.minute < 60 && 0 <= dt.second < 60
  }

  function DaysInYear(y: int): int
  {
    if IsLeapYear(y) then 366 else 365
  }

  /** Days from 0000-01-01 to the first day of year y (negative for years before 0). */
  function DaysBeforeYear(y: int): int
  {
    365 * y + (y + 3) / 4 - (y + 99) / 100 + (y + 399) / 400
  }

  /** Days from the first day of year y to the first day of month m. */
  function DaysBeforeMonth(y: int, m: int): int
    requires 1 <= m <= 12
  {
    (if m > 2 && IsLeapYear(y) then 1 else 0)
    + (if m == 1 then 0 else if m == 2 then 31 else if m == 3 then 59 else if m == 4 then 90
       else if m == 5 then 120 else if m == 6 then 151 else if m == 7 then 181
       else if m == 8 then 212 else if m == 9 then 243 else if m == 10 then 273
       else if m == 11 then 304 else 334)
  }

  function DayNumber(y: int, m: int, d: int): int
    requires 1 <= m <= 12
  {
    DaysBeforeYear(y) + DaysBeforeMonth(y, m) + d - 1
  }

  /** The instant a date-time denotes: seconds since 0000-01-01 00:00:00. */
  function Instant(dt: DateTime): int
    requires Valid(dt)
  {
    ((DayNumber(dt.year, dt.month, dt.day) * 24 + dt.hour) * 60 + dt.minute) * 60 + dt.second
  }

  lemma YearStep(y: int)
    ensures DaysBeforeYear(y + 1) == DaysBeforeYear(y) + DaysInYear(y)
  {
    QuarterStep(y);
    CenturyStep(y);
    QuadCenturyStep(y);
    DivisorsOfCenturies(y);
    assert DaysBeforeYear(y + 1) - DaysBeforeYear(y)
      == 365 + ((y + 4) / 4 - (y + 3) / 4) - ((y + 100) / 100 - (y + 99) / 100) + ((y + 400) / 400 - (y + 399) / 400);
  }

  lemma DivisorsOfCenturies(y: int)
    ensures y % 400 == 0 ==> y % 100 == 0
    ensures y % 100 == 0 ==> y % 4 == 0
  {
  }

  lemma QuarterStep(y: int)
    ensures (y + 4) / 4 - (y + 3) / 4 == if y % 4 == 0 then 1 else 0
  {
  }

  lemma CenturyStep(y: int)
    ensures (y + 100) / 100 - (y + 99) / 100 == if y % 100 == 0 then 1 else 0
  {
  }

  lemma QuadCenturyStep(y: int)
    ensures (y + 400) / 400 - (y + 399) / 400 == if y % 400 == 0 then 1 else 0
  {
  }

  lemma MonthStep(y: int, m: int)
    requires 1 <= m <= 12
    ensures m < 12 ==> DaysBeforeMonth(y, m + 1) == DaysBeforeMonth(y, m) + DaysInMonth(y, m)
    ensures m == 12 ==> DaysBeforeMonth(y, m) + DaysInMonth(y, m) == DaysInYear(y)
  {
  }

  /** The following calendar day, at the same time of day. */
  function NextDay(dt: DateTime): (r: DateTime)
    requires Valid(dt)
    ensures Valid(r) && r.hour == dt.hour && r.minute == dt.minute && r.second == dt.second
    ensures DayNumber(r.year, r.month, r.day) == DayNumber(dt.year, dt.month, dt.day) + 1
  {
    MonthStep(dt.year, dt.month);
    YearStep(dt.year);
    if dt.day < DaysInMonth(dt.year, dt.month) then dt.(day := dt.day + 1)
    else if dt.month < 12 then dt.(month := dt.month + 1, day := 1)
    else dt.(year := dt.year + 1, month := 1, day := 1)
  }

  /** The preceding calendar day, at the same time of day. */
  function PrevDay(dt: DateTime): (r: DateTime)
    requires Valid(dt)
    ensures Valid(r) && r.hour == dt.hour && r.minute == dt.minute && r.second == dt.second
    ensures DayNumber(r.year, r.month, r.day) == DayNumber(dt.year, dt.month, dt.day) - 1
  {
    YearStep(dt.year - 1);
    MonthStep(dt.year - 1, 12);
    MonthStep(dt.year, if dt.month > 1 then dt.month - 1 else 1);
    if dt.day > 1 then dt.(day := dt.day - 1)
    else if dt.month > 1 then dt.(month := dt.month - 1, day := DaysInMonth(dt.year, dt.month - 1))
    else dt.(year := dt.year - 1, month := 12, day := 31)
  }

  /** The date-time delta minutes later (earlier for a negative delta), for a shift of less than a day. */
  function ShiftMinutes(dt: DateTime, delta: int): (r: DateTime)
    requires Valid(dt) && -1440 < delta < 1440
    ensures Valid(r) && r.second == dt.second
    ensures Instant(r) == Instant(dt) + 60 * delta
  {
    var t := dt.hour * 60 + dt.minute + delta;
    if t < 0 then PrevDay(dt).(hour := (t + 1440) / 60, minute := (t + 1440) % 60)
    else if t >= 1440 then NextDay(dt).(hour := (t - 1440) / 60, minute := (t - 1440) % 60)
    else dt.(hour := t / 60, minute := t % 60)
  }

  lemma ShiftByZero(dt: DateTime)
    requires Valid(dt)
    ensures ShiftMinutes(dt, 0) == dt
  {
  }

  /** chrono's Ord on DateTime<Utc>, spelled out field by field. */
  predicate Before(a: DateTime, b: DateTime)
  {
    a.year < b.year
    || (a.year == b.year && (a.month < b.month
    || (a.month == b.month && (a.day < b.day
    || (a.day == b.day && (a.hour < b.hour
    || (a.hour == b.hour && (a.minute < b.minute
    || (a.minute == b.minute && a.second < b.second)))))))))
  }

  predicate NotAfter(a: DateTime, b: DateTime)
  {
    a == b || Before(a, b)
  }

  lemma BeforeTotal(a: DateTime, b: DateTime)
    ensures a == b || Before(a, b) || Before(b, a)
  {
  }

  lemma BeforeTransitive(a: DateTime, b: DateTime, c: DateTime)
    requires Before(a, b) && Before(b, c)
    ensures Before(a, c)
  {
  }

  lemma {:induction false} YearsMonotone(y1: int, y2: int)
    requires y1 < y2
    ensures DaysBeforeYear(y1) + DaysInYear(y1) <= DaysBeforeYear(y2)
    decreases y2 - y1
  {
    YearStep(y1);
    if y1 + 1 < y2 {
      YearsMonotone(y1 + 1, y2);
    }
  }

  lemma DayNumberMonotone(a: DateTime, b: DateTime)
    requires Valid(a) && Valid(b)
    requires a.year < b.year || (a.year == b.year && (a.month < b.month || (a.month == b.month && a.day < b.day)))
    ensures DayNumber(a.year, a.month, a.day) < DayNumber(b.year, b.month, b.day)
  {
    MonthStep(a.year, a.month);
    if a.year < b.year {
      YearsMonotone(a.year, b.year);
      assert DaysBeforeMonth(a.year, a.month) + DaysInMonth(a.year, a.month) <= DaysInYear(a.year) by {
        if a.month < 12 {
          MonthStep(a.year, 12);
        }
      }
    }
  }

  /** Key order is instant order: the derived field-by-field order agrees with time. */
  lemma BeforeIsEarlier(a: DateTime, b: DateTime)
    requires Valid(a) && Valid(b)
    ensures Before(a, b) <==> Instant(a) < Instant(b)
    ensures a == b <==> Instant(a) == Instant(b)
  {
    if a.year != b.year || a.month != b.month || a.day != b.day {
      if a.year < b.year || (a.year == b.year && (a.month < b.month || (a.month == b.month && a.day < b.day))) {
        DayNumberMonotone(a, b);
      } else {
        DayNumberMonotone(b, a);
      }
    }
  }
}
