/** Calendar dates as the client reads them from a task's `dueDate`: a
    (year, month, day) triple with the month counted from 0 as `getMonth()`
    counts it and the day from 1 as `getDate()` counts it.  Clock readings,
    time zones and millisecond arithmetic stay outside the model. */
module Dates {

  datatype Date = Date(year: int, month: int, day: int)

  predicate IsLeapYear(y: int) {
    (y % 4 == 0 && y % 100 != 0) || y % 400 == 0
  }

  /** `new Date(year, month + 1, 0).getDate()`: the last day of the month,
      in the proleptic Gregorian calendar.  JavaScript reads the years 0 to
      99 as 1900 to 1999; that mapping is not modelled. */
  function DaysInMonth(year: int, month: int): (n: int)
    requires 0 <= month < 12
    ensures 28 <= n <= 31
    ensures n == 29 <==> month == 1 && IsLeapYear(year)
  {
    if month == 1 then (if IsLeapYear(year) then 29 else 28)
    else if month == 3 || month == 5 || month == 8 || month == 10 then 30
    else 31
  }

  predicate IsValid(d: Date) {
    0 <= d.month < 12 && 1 <= d.day <= DaysInMonth(d.year, d.month)
  }

  /** Chronological comparison with the sign convention of a sort
      comparator: negative when `a` is earlier. */
  function Compare(a: Date, b: Date): (c: int)
    ensures c == 0 <==> a == b
    ensures -1 <= c <= 1
  {
    if a.year != b.year then (if a.year < b.year then -1 else 1)
    else if a.month != b.month then (if a.month < b.month then -1 else 1)
    else if a.day != b.day then (if a.day < b.day then -1 else 1)
    else 0
  }

  /** Swapping the arguments flips the sign. */
  lemma CompareAntisymmetric(a: Date, b: Date)
    ensures Compare(a, b) == -Compare(b, a)
  {
  }

  /** Chronological order is transitive. */
  lemma CompareTransitive(a: Date, b: Date, c: Date)
    requires Compare(a, b) <= 0 && Compare(b, c) <= 0
    ensures Compare(a, c) <= 0
  {
  }
}
