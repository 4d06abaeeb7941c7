/** Points in time, as the .NET `DateTime` sees them: a count of 100-nanosecond
    ticks since midnight at the start of 0001-01-01 in the proleptic Gregorian
    calendar. Comparing two `DateTime` values compares their ticks. */
module Calendar {

  datatype DateTime = DateTime(ticks: int)

  const TicksPerDay: int := 864_000_000_000

  predicate IsLeapYear(year: int) {
    year % 4 == 0 && (year % 100 != 0 || year % 400 == 0)
  }

  /** Number of days in the years 1 .. year - 1. */
  function DaysBeforeYear(year: int): (d: int)
    requires year >= 1
    ensures d >= 0
  {
    var y := year - 1;
    y * 365 + y / 4 - y / 100 + y / 400
  }

  /** Number of days in the months 1 .. month - 1 of the given year. */
  function DaysBeforeMonth(year: int, month: int): (d: int)
    requires 1 <= month <= 12
    ensures 0 <= d <= 335
  {
    var table := [0, 31, 59, 90, 120, 151, 181, 212, 243, 273, 304, 334];
    table[month - 1] + (if month > 2 && IsLeapYear(year) then 1 else 0)
  }

  function DaysInMonth(year: int, month: int): int
    requires 1 <= month <= 12
  {
    if month == 2 then (if IsLeapYear(year) then 29 else 28)
    else if month == 4 || month == 6 || month == 9 || month == 11 then 30
    else 31
  }

  /** `new DateTime(year, month, day)`: midnight at the start of that calendar day. */
  function FromDate(year: int, month: int, day: int): (t: DateTime)
    requires 1 <= year <= 9999 && 1 <= month <= 12 && 1 <= day <= DaysInMonth(year, month)
    ensures t.ticks >= 0
    ensures t.ticks % TicksPerDay == 0
  {
    DateTime((DaysBeforeYear(year) + DaysBeforeMonth(year, month) + day - 1) * TicksPerDay)
  }

  predicate Before(a: DateTime, b: DateTime) {
    a.ticks < b.ticks
  }

  /** The day count agrees with .NET: `new DateTime(2000, 1, 1).Ticks` is
      630822816000000000, and 1000-01-01 is day 364877. */
  lemma KnownTicks()
    ensures FromDate(2000, 1, 1).ticks == 630_822_816_000_000_000
    ensures FromDate(1000, 1, 1).ticks == 364_877 * TicksPerDay
  {
  }
}
