/**
 * The part of Python's `datetime` the scripts rely on: proleptic Gregorian
 * dates in the years 1 to 9999, naive date-times with a time of day, and the
 * addition of a whole number of hours (less than one day) to a date-time,
 * which fails with an overflow when it leaves the representable range.
 *
 * `DayNumber` is an independent reference for the calendar: it counts the
 * days since 0001-01-01, so that "previous day", "next day" and "nine hours
 * later" can be stated as arithmetic on a single number.
 */
module Calendar {
  import opened Wrappers

  const MinYear := 1
  const MaxYear := 9999

  datatype Date = Date(year: int, month: int, day: int)

  datatype DateTime = DateTime(date: Date, hour: int, minute: int, second: int)

  const FirstDate := Date(MinYear, 1, 1)
  const LastDate := Date(MaxYear, 12, 31)

  predicate IsLeapYear(y: int) {
    y % 4 == 0 && (y % 100 != 0 || y % 400 == 0)
  }

  function DaysInMonth(y: int, m: int): (n: int)
    requires 1 <= m <= 12
    ensures 28 <= n <= 31
    ensures m == 2 ==> (n == 29 <==> IsLeapYear(y))
  {
    if m == 2 then (if IsLeapYear(y) then 29 else 28)
    else if m == 4 || m == 6 || m == 9 || m == 11 then 30
    else 31
  }

  function YearLength(y: int): int {
    if IsLeapYear(y) then 366 else 365
  }

  predicate ValidDate(d: Date) {
    && MinYear <= d.year <= MaxYear
    && 1 <= d.month <= 12
    && 1 <= d.day <= DaysInMonth(d.year, d.month)
  }

  predicate ValidDateTime(t: DateTime) {
    && ValidDate(t.date)
    && 0 <= t.hour < 24
    && 0 <= t.minute < 60
    && 0 <= t.second < 60
  }

  /** `datetime.combine(d, datetime.min.time())`: the date at midnight. */
  function Midnight(d: Date): (t: DateTime)
    requires ValidDate(d)
    ensures ValidDateTime(t) && t.date == d
    ensures t.hour == 0 && t.minute == 0 && t.second == 0
  {
    DateTime(d, 0, 0, 0)
  }

  /** Chronological order of dates: year, then month, then day. */
  predicate Before(a: Date, b: Date) {
    || a.year < b.year
    || (a.year == b.year && a.month < b.month)
    || (a.year == b.year && a.month == b.month && a.day < b.day)
  }

  predicate NotAfter(a: Date, b: Date) {
    a == b || Before(a, b)
  }

  // ---------------------------------------------------------------------
  // Reference day count

  function DaysBeforeYear(y: int): nat
    requires y >= MinYear
    decreases y
  {
    if y == MinYear then 0 else DaysBeforeYear(y - 1) + YearLength(y - 1)
  }

  function DaysBeforeMonth(y: int, m: int): nat
    requires 1 <= m <= 12
    decreases m
  {
    if m == 1 then 0 else DaysBeforeMonth(y, m - 1) + DaysInMonth(y, m - 1)
  }

  /** The number of days from 0001-01-01 to `d`. */
  function DayNumber(d: Date): nat
    requires ValidDate(d)
  {
    DaysBeforeYear(d.year) + DaysBeforeMonth(d.year, d.month) + d.day - 1
  }

  /** The number of whole hours from 0001-01-01 00:00 to `t`. */
  function HourNumber(t: DateTime): nat
    requires ValidDateTime(t)
  {
    DayNumber(t.date) * 24 + t.hour
  }

  lemma DecemberEndsYear(y: int)
    ensures DaysBeforeMonth(y, 12) + DaysInMonth(y, 12) == YearLength(y)
  {
    assert DaysBeforeMonth(y, 3) == 31 + DaysInMonth(y, 2);
  }

  lemma {:induction false} MonthsAccumulate(y: int, m1: int, m2: int)
    requires 1 <= m1 < m2 <= 12
    ensures DaysBeforeMonth(y, m1) + DaysInMonth(y, m1) <= DaysBeforeMonth(y, m2)
    decreases m2
  {
    if m1 < m2 - 1 {
      MonthsAccumulate(y, m1, m2 - 1);
    }
  }

  lemma DayWithinYear(d: Date)
    requires ValidDate(d)
    ensures DaysBeforeMonth(d.year, d.month) + d.day <= YearLength(d.year)
  {
    DecemberEndsYear(d.year);
    if d.month < 12 {
      MonthsAccumulate(d.year, d.month, 12);
    }
  }

  lemma {:induction false} YearsAccumulate(y1: int, y2: int)
    requires MinYear <= y1 < y2
    ensures DaysBeforeYear(y1) + YearLength(y1) <= DaysBeforeYear(y2)
    decreases y2
  {
    if y1 < y2 - 1 {
      YearsAccumulate(y1, y2 - 1);
    }
  }

  /** The day count is strictly increasing in chronological order. */
  lemma DayNumberIncreasing(a: Date, b: Date)
    requires ValidDate(a) && ValidDate(b)
    requires Before(a, b)
    ensures DayNumber(a) < DayNumber(b)
  {
    if a.year < b.year {
      DayWithinYear(a);
      YearsAccumulate(a.year, b.year);
    } else if a.month < b.month {
      MonthsAccumulate(a.year, a.month, b.month);
    }
  }

  /** Chronological order of dates is exactly the order of their day counts. */
  lemma NotAfterIffDayNumber(a: Date, b: Date)
    requires ValidDate(a) && ValidDate(b)
    ensures NotAfter(a, b) <==> DayNumber(a) <= DayNumber(b)
  {
    if Before(a, b) {
      DayNumberIncreasing(a, b);
    } else if Before(b, a) {
      DayNumberIncreasing(b, a);
    }
  }

  // ---------------------------------------------------------------------
  // Neighbouring days

  /** The calendar day before `d`; 0001-01-01 has none. */
  function PrevDay(d: Date): (p: Date)
    requires ValidDate(d) && d != FirstDate
    ensures ValidDate(p) && Before(p, d)
  {
    if d.day > 1 then Date(d.year, d.month, d.day - 1)
    else if d.month > 1 then Date(d.year, d.month - 1, DaysInMonth(d.year, d.month - 1))
    else Date(d.year - 1, 12, 31)
  }

  /** The calendar day after `d`; 9999-12-31 has none. */
  function NextDay(d: Date): (n: Date)
    requires ValidDate(d) && d != LastDate
    ensures ValidDate(n) && Before(d, n)
  {
    if d.day < DaysInMonth(d.year, d.month) then Date(d.year, d.month, d.day + 1)
    else if d.month < 12 then Date(d.year, d.month + 1, 1)
    else Date(d.year + 1, 1, 1)
  }

  lemma NextDayCounts(d: Date)
    requires ValidDate(d) && d != LastDate
    ensures DayNumber(NextDay(d)) == DayNumber(d) + 1
  {
    var n := NextDay(d);
    if d.day < DaysInMonth(d.year, d.month) {
      assert n == d.(day := d.day + 1);
    } else if d.month < 12 {
      assert DaysBeforeMonth(n.year, n.month) == DaysBeforeMonth(d.year, d.month) + d.day;
    } else {
      DecemberEndsYear(d.year);
      assert DaysBeforeYear(n.year) == DaysBeforeYear(d.year) + YearLength(d.year);
    }
  }

  lemma PrevDayCounts(d: Date)
    requires ValidDate(d) && d != FirstDate
    ensures DayNumber(PrevDay(d)) == DayNumber(d) - 1
  {
    var p := PrevDay(d);
    if d.day > 1 {
      assert p == d.(day := d.day - 1);
    } else if d.month > 1 {
      assert DaysBeforeMonth(d.year, d.month) == DaysBeforeMonth(p.year, p.month) + p.day;
    } else {
      DecemberEndsYear(d.year - 1);
      assert DaysBeforeYear(d.year) == DaysBeforeYear(p.year) + YearLength(p.year);
    }
  }

  /** Stepping back a day and then forward a day returns to the same date. */
  lemma NextOfPrevDay(d: Date)
    requires ValidDate(d) && d != FirstDate
    ensures PrevDay(d) != LastDate && NextDay(PrevDay(d)) == d
  {
  }

  /** Moving to the previous day keeps two dates in the same order. */
  lemma PrevDayMonotone(a: Date, b: Date)
    requires ValidDate(a) && ValidDate(b) && a != FirstDate && b != FirstDate
    ensures NotAfter(a, b) <==> NotAfter(PrevDay(a), PrevDay(b))
  {
    PrevDayCounts(a);
    PrevDayCounts(b);
    NotAfterIffDayNumber(a, b);
    NotAfterIffDayNumber(PrevDay(a), PrevDay(b));
  }

  // ---------------------------------------------------------------------
  // Adding hours

  /**
   * `t + timedelta(hours=delta)` for a shift of less than one day; `None`
   * is the OverflowError raised when the result falls before 0001-01-01 or
   * after 9999-12-31.
   */
  function ShiftHours(t: DateTime, delta: int): (r: Option<DateTime>)
    requires ValidDateTime(t) && -24 < delta < 24
    ensures r.None? <==>
              || (t.date == FirstDate && t.hour + delta < 0)
              || (t.date == LastDate && t.hour + delta >= 24)
    ensures r.Some? ==> ValidDateTime(r.value)
    ensures r.Some? ==> r.value.minute == t.minute && r.value.second == t.second
  {
    var h := t.hour + delta;
    if h < 0 then
      if t.date == FirstDate then None else Some(DateTime(PrevDay(t.date), h + 24, t.minute, t.second))
    else if h >= 24 then
      if t.date == LastDate then None else Some(DateTime(NextDay(t.date), h - 24, t.minute, t.second))
    else
      Some(t.(hour := h))
  }

  /** A successful shift moves the clock by exactly `delta` hours. */
  lemma ShiftHoursMovesClock(t: DateTime, delta: int)
    requires ValidDateTime(t) && -24 < delta < 24
    requires ShiftHours(t, delta).Some?
    ensures HourNumber(ShiftHours(t, delta).value) == HourNumber(t) + delta
  {
    var h := t.hour + delta;
    if h < 0 {
      PrevDayCounts(t.date);
    } else if h >= 24 {
      NextDayCounts(t.date);
    }
  }
}
