/**
 * Proleptic Gregorian dates as (year, month, day) triples, the calendar
 * pandas and Python's `datetime` use.
 */
module Calendar {

  datatype Date = Date(year: int, month: int, day: int)

  predicate IsLeapYear(y: int) {
    y % 4 == 0 && (y % 100 != 0 || y % 400 == 0)
  }

  function DaysInMonth(y: int, m: int): int
    requires 1 <= m <= 12
  {
    if m == 2 then (if IsLeapYear(y) then 29 else 28)
    else if m == 4 || m == 6 || m == 9 || m == 11 then 30
    else 31
  }

  predicate ValidDate(d: Date) {
    1 <= d.month <= 12 && 1 <= d.day <= DaysInMonth(d.year, d.month)
  }

  /** Chronological order: by year, then month, then day. */
  predicate Before(a: Date, b: Date) {
    a.year < b.year
    || (a.year == b.year && a.month < b.month)
    || (a.year == b.year && a.month == b.month && a.day < b.day)
  }

  predicate NotAfter(a: Date, b: Date) { a == b || Before(a, b) }

  lemma BeforeIsStrictTotalOrder(a: Date, b: Date, c: Date)
    ensures !Before(a, a)
    ensures Before(a, b) && Before(b, c) ==> Before(a, c)
    ensures a == b || Before(a, b) || Before(b, a)
    ensures !(Before(a, b) && Before(b, a))
  {
  }

  /** The last day of month `m` of year `y`: pandas' `to_period('M').end_time` as a date. */
  function MonthEnd(y: int, m: int): (d: Date)
    requires 1 <= m <= 12
    ensures ValidDate(d) && d.year == y && d.month == m
    ensures !ValidDate(Date(y, m, d.day + 1))
    ensures forall x: Date :: ValidDate(x) && x.year == y && x.month == m ==> NotAfter(x, d)
  {
    Date(y, m, DaysInMonth(y, m))
  }

  /** Python's `calendar.month_name[m]`. */
  function MonthName(m: int): (name: string)
    requires 1 <= m <= 12
    ensures |name| >= 3
  {
    ["January", "February", "March", "April", "May", "June", "July",
     "August", "September", "October", "November", "December"][m - 1]
  }

  /** February has 29 days exactly in leap years; the year has 366 days exactly then. */
  lemma {:induction false} YearLength(y: int)
    ensures DaysBefore(y, 13) == if IsLeapYear(y) then 366 else 365
    ensures DaysInMonth(y, 2) == 29 <==> IsLeapYear(y)
  {
  }

  /** Days of year `y` in the months before month `m`. */
  function DaysBefore(y: int, m: int): int
    requires 1 <= m <= 13
    decreases m
  {
    if m == 1 then 0 else DaysBefore(y, m - 1) + DaysInMonth(y, m - 1)
  }
}
