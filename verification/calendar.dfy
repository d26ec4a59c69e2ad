/** The proleptic Gregorian calendar as Python's `datetime` counts it: ordinals
    (`date.toordinal()`), weekdays (`date.weekday()`, Monday = 0), adding days to a wall
    clock, `relativedelta(months=+1)`, and timezone-aware instants as a wall clock plus
    a UTC offset. */
module Calendar {

  datatype Date = Date(year: int, month: int, day: int)

  predicate IsLeap(y: int) {
    y % 4 == 0 && (y % 100 != 0 || y % 400 == 0)
  }

  function DaysInYear(y: int): int {
    if IsLeap(y) then 366 else 365
  }

  function DaysInMonth(y: int, m: int): int
    requires 1 <= m <= 12
  {
    if m == 2 then (if IsLeap(y) then 29 else 28)
    else if m == 4 || m == 6 || m == 9 || m == 11 then 30
    else 31
  }

  predicate ValidDate(d: Date) {
    1 <= d.year && 1 <= d.month <= 12 && 1 <= d.day <= DaysInMonth(d.year, d.month)
  }

  /** Days of year `y` before the first of month `m` (`_days_before_month`). */
  function DaysBeforeMonth(y: int, m: int): int
    requires 1 <= m <= 13
    decreases m
  {
    if m == 1 then 0 else DaysBeforeMonth(y, m - 1) + DaysInMonth(y, m - 1)
  }

  /** Days before January 1st of year `y`: the lengths of the years before it. */
  function DaysBeforeYear(y: int): int
    requires y >= 1
    decreases y
  {
    if y == 1 then 0 else DaysBeforeYear(y - 1) + DaysInYear(y - 1)
  }

  /** Python's closed form `_days_before_year`. */
  function DaysBeforeYearClosed(y: int): int
    requires y >= 1
  {
    var p := y - 1;
    p * 365 + p / 4 - p / 100 + p / 400
  }

  /** `date.toordinal()`: 0001-01-01 is day 1. */
  function Ordinal(d: Date): int
    requires ValidDate(d)
  {
    DaysBeforeYear(d.year) + DaysBeforeMonth(d.year, d.month) + d.day
  }

  /** `date.weekday()`: Monday is 0, Sunday is 6. */
  function Weekday(d: Date): (r: int)
    requires ValidDate(d)
    ensures 0 <= r < 7
  {
    (Ordinal(d) + 6) % 7
  }

  lemma DaysBeforeMonthFullYear(y: int)
    ensures DaysBeforeMonth(y, 13) == DaysInYear(y)
  {
  }

  /** Each of the three counts in the closed form steps up exactly at a multiple. */
  lemma Step4(y: int)
    ensures y / 4 - (y - 1) / 4 == (if y % 4 == 0 then 1 else 0)
  {
  }

  lemma Step100(y: int)
    ensures y / 100 - (y - 1) / 100 == (if y % 100 == 0 then 1 else 0)
  {
  }

  lemma Step400(y: int)
    ensures y / 400 - (y - 1) / 400 == (if y % 400 == 0 then 1 else 0)
  {
  }

  lemma Div100IsDiv4(y: int)
    requires y % 100 == 0
    ensures y % 4 == 0
  {
    assert y == 4 * (25 * (y / 100));
  }

  lemma Div400IsDiv100(y: int)
    requires y % 400 == 0
    ensures y % 100 == 0
  {
    assert y == 100 * (4 * (y / 400));
  }

  /** The closed form grows by the length of each year. */
  lemma ClosedFormStep(y: int)
    requires y >= 1
    ensures DaysBeforeYearClosed(y + 1) == DaysBeforeYearClosed(y) + DaysInYear(y)
  {
    var a := y / 4 - (y - 1) / 4;
    var b := y / 100 - (y - 1) / 100;
    var c := y / 400 - (y - 1) / 400;
    assert DaysBeforeYearClosed(y + 1) - DaysBeforeYearClosed(y) == 365 + a - b + c;
    Step4(y);
    Step100(y);
    Step400(y);
    if y % 100 == 0 {
      Div100IsDiv4(y);
    }
    if y % 400 == 0 {
      Div400IsDiv100(y);
    }
  }

  /** Python's closed form counts the same days as adding up the year lengths. */
  lemma {:induction false} DaysBeforeYearIsClosedForm(y: int)
    requires y >= 1
    ensures DaysBeforeYear(y) == DaysBeforeYearClosed(y)
    decreases y
  {
    if y > 1 {
      DaysBeforeYearIsClosedForm(y - 1);
      ClosedFormStep(y - 1);
    }
  }

  /** The day after `d` on the calendar. */
  function NextDay(d: Date): (r: Date)
    requires ValidDate(d)
    ensures ValidDate(r)
    ensures Ordinal(r) == Ordinal(d) + 1
  {
    if d.day < DaysInMonth(d.year, d.month) then Date(d.year, d.month, d.day + 1)
    else if d.month < 12 then Date(d.year, d.month + 1, 1)
    else
      DaysBeforeMonthFullYear(d.year);
      Date(d.year + 1, 1, 1)
  }

  /** `d + timedelta(days=n)` on the calendar date. */
  function AddDays(d: Date, n: nat): (r: Date)
    requires ValidDate(d)
    ensures ValidDate(r)
    ensures Ordinal(r) == Ordinal(d) + n
    decreases n
  {
    if n == 0 then d else AddDays(NextDay(d), n - 1)
  }

  /** Adding `n` days moves the weekday `n` steps round the week. */
  lemma AddDaysWeekday(d: Date, n: nat)
    requires ValidDate(d)
    ensures Weekday(AddDays(d, n)) == (Weekday(d) + n) % 7
  {
    ModAdd(Ordinal(d) + 6, n);
  }

  lemma ModAdd(a: int, n: int)
    ensures (a + n) % 7 == (a % 7 + n) % 7
  {
    var q := a / 7;
    var r := a % 7;
    assert a == 7 * q + r;
    assert a + n == 7 * q + (r + n);
    ModShift(q, r + n);
  }

  /** Adding `n` days to a date lands on the weekday `n` steps round the week. */
  lemma AddDaysLandsOn(d: Date, n: nat, w: int)
    requires ValidDate(d)
    requires (Weekday(d) + n) % 7 == w
    ensures Weekday(AddDays(d, n)) == w
  {
    AddDaysWeekday(d, n);
  }

  lemma ModShift(q: int, x: int)
    ensures (7 * q + x) % 7 == x % 7
  {
    var t := x % 7;
    assert x == 7 * (x / 7) + t;
    assert 7 * q + x == 7 * (q + x / 7) + t;
  }

  /** `d + relativedelta(months=+1)`: the next month (December rolls into January of
      the next year) with the day clamped to the length of that month. */
  function AddOneMonth(d: Date): (r: Date)
    requires ValidDate(d)
    ensures ValidDate(r)
    ensures d.month < 12 ==> r.year == d.year && r.month == d.month + 1
    ensures d.month == 12 ==> r.year == d.year + 1 && r.month == 1
    ensures r.day == if d.day <= DaysInMonth(r.year, r.month) then d.day else DaysInMonth(r.year, r.month)
  {
    var y := if d.month == 12 then d.year + 1 else d.year;
    var m := if d.month == 12 then 1 else d.month + 1;
    var last := DaysInMonth(y, m);
    Date(y, m, if d.day <= last then d.day else last)
  }

  /** Every day of the month after `d`'s comes later than `d`. */
  lemma NextMonthIsLater(d: Date, e: Date)
    requires ValidDate(d) && ValidDate(e)
    requires if d.month == 12 then e.year == d.year + 1 && e.month == 1
             else e.year == d.year && e.month == d.month + 1
    ensures Ordinal(e) > Ordinal(d)
  {
    if d.month == 12 {
      DaysBeforeMonthFullYear(d.year);
      assert DaysBeforeMonth(d.year, 12) + DaysInMonth(d.year, 12) == DaysInYear(d.year);
    }
  }

  // ---------------------------------------------------------------------------
  // Wall clocks and instants
  // ---------------------------------------------------------------------------

  /** A naive `datetime`: a date and a clock time down to the microsecond. */
  datatype DateTime = DateTime(date: Date, hour: int, minute: int, second: int, micro: int)

  predicate ValidDateTime(t: DateTime) {
    && ValidDate(t.date)
    && 0 <= t.hour < 24 && 0 <= t.minute < 60 && 0 <= t.second < 60 && 0 <= t.micro < 1000000
  }

  const MicrosPerSecond: int := 1000000
  const SecondsPerDay: int := 86400
  const MicrosPerDay: int := 86400000000

  /** Seconds since midnight of the clock time. */
  function SecondOfDay(t: DateTime): int {
    t.hour * 3600 + t.minute * 60 + t.second
  }

  /** Microseconds of the wall clock counted from the start of ordinal day 0. */
  function WallMicros(t: DateTime): int
    requires ValidDateTime(t)
  {
    (Ordinal(t.date) * SecondsPerDay + SecondOfDay(t)) * MicrosPerSecond + t.micro
  }

  /** A timezone-aware `datetime`: a wall clock and the UTC offset (in seconds) attached
      to it, as `localize` or `datetime.now(tz)` give it. */
  datatype Aware = Aware(wall: DateTime, offset: int)

  /** The absolute point in time an aware `datetime` denotes; Python compares aware
      `datetime`s by this value. */
  function Instant(a: Aware): int
    requires ValidDateTime(a.wall)
  {
    WallMicros(a.wall) - a.offset * MicrosPerSecond
  }

  /** A later calendar day means a later wall clock, whatever the time of day. */
  lemma LaterDayLaterWall(a: DateTime, b: DateTime)
    requires ValidDateTime(a) && ValidDateTime(b)
    requires Ordinal(a.date) < Ordinal(b.date)
    ensures WallMicros(a) < WallMicros(b)
  {
    assert SecondOfDay(a) < SecondsPerDay;
    assert SecondOfDay(b) >= 0;
  }
}
