/** Proleptic Gregorian calendar dates and naive date-times, as Python's
    `datetime` represents them (MINYEAR = 1, MAXYEAR = 9999). */
module Calendar {

  const MinYear := 1
  const MaxYear := 9999

  /** Microseconds in one day: the time of day is kept as a count of them. */
  const MicrosPerDay := 86_400_000_000

  datatype Date = Date(year: int, month: int, day: int)

  /** A date-time without time zone: the date and the microseconds elapsed since midnight. */
  datatype DateTime = DateTime(date: Date, micros: int)

  /** The Gregorian leap-year rule: every fourth year, except centuries not divisible by 400. */
  predicate IsLeapYear(year: int)
  {
    year % 4 == 0 && (year % 100 != 0 || year % 400 == 0)
  }

  function DaysInMonth(year: int, month: int): (n: int)
    requires 1 <= month <= 12
    ensures 28 <= n <= 31
    ensures month == 2 ==> (n == 29 <==> IsLeapYear(year))
    ensures month != 2 ==> (n == 30 <==> month in {4, 6, 9, 11})
  {
    if month == 2 then (if IsLeapYear(year) then 29 else 28)
    else if month == 4 || month == 6 || month == 9 || month == 11 then 30
    else 31
  }

  /** The dates `datetime.date(year, month, day)` accepts without raising ValueError. */
  predicate ValidDate(d: Date)
  {
    && MinYear <= d.year <= MaxYear
    && 1 <= d.month <= 12
    && 1 <= d.day <= DaysInMonth(d.year, d.month)
  }

  predicate ValidDateTime(t: DateTime)
  {
    ValidDate(t.date) && 0 <= t.micros < MicrosPerDay
  }

  /** Every value of Python's `datetime` type is a valid date with an in-range time of day. */
  type Instant = t: DateTime | ValidDateTime(t) witness DateTime(Date(1, 1, 1), 0)

  /** The instant at the start of a valid day, as `strptime` returns for a pure date. */
  function Midnight(d: Date): (t: Instant)
    requires ValidDate(d)
    ensures t.date == d && t.micros == 0
  {
    DateTime(d, 0)
  }

  /** Python compares datetimes field by field: year, month, day, then time of day. */
  predicate Before(a: DateTime, b: DateTime)
  {
    || a.date.year < b.date.year
    || (a.date.year == b.date.year && a.date.month < b.date.month)
    || (a.date.year == b.date.year && a.date.month == b.date.month && a.date.day < b.date.day)
    || (a.date == b.date && a.micros < b.micros)
  }

  /** `a >= b` on datetimes. */
  predicate AtOrAfter(a: DateTime, b: DateTime)
  {
    !Before(a, b)
  }

  /** The field-by-field comparison is a strict total order. */
  lemma BeforeIsStrictTotalOrder(a: DateTime, b: DateTime, c: DateTime)
    ensures !Before(a, a)
    ensures Before(a, b) ==> !Before(b, a)
    ensures Before(a, b) && Before(b, c) ==> Before(a, c)
    ensures a == b || Before(a, b) || Before(b, a)
  {
  }

  /** A year has 366 days exactly when it is a leap year, else 365. */
  lemma DaysInYear(year: int)
    ensures DaysInMonth(year, 1) + DaysInMonth(year, 2) + DaysInMonth(year, 3)
          + DaysInMonth(year, 4) + DaysInMonth(year, 5) + DaysInMonth(year, 6)
          + DaysInMonth(year, 7) + DaysInMonth(year, 8) + DaysInMonth(year, 9)
          + DaysInMonth(year, 10) + DaysInMonth(year, 11) + DaysInMonth(year, 12)
         == if IsLeapYear(year) then 366 else 365
  {
  }
}
