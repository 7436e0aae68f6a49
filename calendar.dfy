/**
 * The parts of .NET's `DateTime` that the entry service relies on: calendar
 * validity, the `.Date` projection, ordering and `AddYears`.
 * A value is a proleptic Gregorian date plus the time of day counted in
 * 100-nanosecond ticks since midnight; the time zone kind is not modelled.
 */
module Calendar {

  /** 100-nanosecond ticks in one day (24 * 60 * 60 * 10^7). */
  const TicksPerDay: int := 864_000_000_000

  datatype DateTime = DateTime(year: int, month: int, day: int, tick: int)

  predicate IsLeapYear(y: int) {
    y % 4 == 0 && (y % 100 != 0 || y % 400 == 0)
  }

  function DaysInMonth(year: int, month: int): (n: int)
    requires 1 <= month <= 12
    ensures 28 <= n <= 31
    ensures month == 2 ==> (n == 29 <==> IsLeapYear(year))
  {
    if month == 2 then (if IsLeapYear(year) then 29 else 28)
    else if month == 4 || month == 6 || month == 9 || month == 11 then 30
    else 31
  }

  /** The values a .NET `DateTime` can hold: years 1 to 9999, a real day of
      the month, a time of day before midnight. */
  predicate Valid(d: DateTime) {
    && 1 <= d.year <= 9999
    && 1 <= d.month <= 12
    && 1 <= d.day <= DaysInMonth(d.year, d.month)
    && 0 <= d.tick < TicksPerDay
  }

  /** `DateTime.Date`: the same day at midnight. */
  function DateOf(d: DateTime): (r: DateTime)
    ensures r.year == d.year && r.month == d.month && r.day == d.day && r.tick == 0
    ensures Valid(d) ==> Valid(r)
  {
    d.(tick := 0)
  }

  /** `a < b`: .NET compares the tick counts, which on valid values is the
      lexicographic order of (year, month, day, time of day). */
  predicate Before(a: DateTime, b: DateTime)
    ensures Before(a, b) ==> a != b
  {
    || a.year < b.year
    || (a.year == b.year && a.month < b.month)
    || (a.year == b.year && a.month == b.month && a.day < b.day)
    || (a.year == b.year && a.month == b.month && a.day == b.day && a.tick < b.tick)
  }

  /** `a <= b`. */
  predicate AtOrBefore(a: DateTime, b: DateTime)
    ensures AtOrBefore(a, b) <==> a == b || Before(a, b)
  {
    !Before(b, a)
  }

  /** `Before` is a strict total order. */
  lemma BeforeIsStrictTotalOrder(a: DateTime, b: DateTime, c: DateTime)
    ensures !Before(a, a)
    ensures Before(a, b) && Before(b, c) ==> Before(a, c)
    ensures a == b || Before(a, b) || Before(b, a)
  {
  }

  /** `d.AddYears(n)`: same month, day and time of day `n` years later; a
      day past the end of the target month (29 February into a common year)
      becomes that month's last day. .NET throws when the target year is
      outside 1..9999, which callers here never reach. */
  function AddYears(d: DateTime, n: int): (r: DateTime)
    requires Valid(d) && 1 <= d.year + n <= 9999
    ensures Valid(r)
    ensures r.year == d.year + n && r.month == d.month && r.tick == d.tick
    ensures r.day == d.day || (d.month == 2 && d.day == 29 && r.day == 28 && !IsLeapYear(r.year))
  {
    var y := d.year + n;
    var last := DaysInMonth(y, d.month);
    DateTime(y, d.month, if d.day > last then last else d.day, d.tick)
  }

  /** Away from 29 February, moving `n` years and back returns the same value. */
  lemma AddYearsRoundTrip(d: DateTime, n: int)
    requires Valid(d) && 1 <= d.year + n <= 9999
    requires !(d.month == 2 && d.day == 29)
    ensures AddYears(AddYears(d, n), -n) == d
  {
  }
}
