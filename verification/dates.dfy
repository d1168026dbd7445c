/**
  Calendar dates as `java.time.LocalDate` represents them: a proleptic
  Gregorian (year, month, day) triple, ordered lexicographically.
 */
module Dates {

  datatype Ymd = Ymd(year: int, month: int, day: int)

  /** The ISO leap-year rule used by `IsoChronology.isLeapYear`. */
  predicate IsLeapYear(year: int) {
    year % 4 == 0 && (year % 100 != 0 || year % 400 == 0)
  }

  function DaysInMonth(year: int, month: int): (n: int)
    requires 1 <= month <= 12
    ensures 28 <= n <= 31
  {
    if month == 2 then (if IsLeapYear(year) then 29 else 28)
    else if month == 4 || month == 6 || month == 9 || month == 11 then 30
    else 31
  }

  predicate IsValid(d: Ymd) {
    1 <= d.month <= 12 && 1 <= d.day <= DaysInMonth(d.year, d.month)
  }

  /** A `LocalDate`: only triples naming a day that exists. */
  type Date = d: Ymd | IsValid(d) witness Ymd(1970, 1, 1)

  /** `a.isBefore(b)`: compares the year, then the month, then the day. */
  predicate IsBefore(a: Ymd, b: Ymd) {
    || a.year < b.year
    || (a.year == b.year && a.month < b.month)
    || (a.year == b.year && a.month == b.month && a.day < b.day)
  }

  /** `a.isAfter(b)`. */
  predicate IsAfter(a: Ymd, b: Ymd) {
    IsBefore(b, a)
  }

  /** `isBefore` is a strict total order on dates. */
  lemma StrictTotalOrder(a: Ymd, b: Ymd, c: Ymd)
    ensures !IsBefore(a, a)
    ensures IsBefore(a, b) ==> !IsBefore(b, a)
    ensures IsBefore(a, b) && IsBefore(b, c) ==> IsBefore(a, c)
    ensures a != b ==> IsBefore(a, b) || IsBefore(b, a)
  {
  }

  /**
    `d.minusYears(n)`: the same month and day n years earlier; when that day
    does not exist (29 February landing in a common year) the result is the
    last valid day of the month. A negative n moves forward.
   */
  function MinusYears(d: Date, n: int): (r: Date)
    ensures r.year == d.year - n && r.month == d.month
    ensures r.day <= d.day
    ensures forall day :: r.day < day <= d.day ==> !IsValid(Ymd(r.year, r.month, day))
  {
    var year := d.year - n;
    var last := DaysInMonth(year, d.month);
    Ymd(year, d.month, if d.day <= last then d.day else last)
  }

  /** Only 29 February is ever moved, and only into a common year. */
  lemma MinusYearsClampsOnlyLeapDay(d: Date, n: int)
    ensures MinusYears(d, n).day != d.day
        <==> d.month == 2 && d.day == 29 && !IsLeapYear(d.year - n)
    ensures MinusYears(d, n).day != d.day ==> MinusYears(d, n).day == 28
  {
  }

  /** Going back n years and forward n years again is the identity except on a clamped leap day. */
  lemma MinusYearsRoundTrip(d: Date, n: int)
    ensures MinusYears(MinusYears(d, n), -n) == d
        <==> !(d.month == 2 && d.day == 29 && !IsLeapYear(d.year - n))
  {
    MinusYearsClampsOnlyLeapDay(d, n);
  }

  /** Subtracting years preserves the order of dates (not strictly: two leap-day neighbours may meet). */
  lemma MinusYearsMonotone(a: Date, b: Date, n: int)
    requires !IsAfter(a, b)
    ensures !IsAfter(MinusYears(a, n), MinusYears(b, n))
  {
  }

  /** A larger count of years gives a strictly earlier date. */
  lemma MinusYearsAntitone(d: Date, n1: int, n2: int)
    requires n1 < n2
    ensures IsBefore(MinusYears(d, n2), MinusYears(d, n1))
  {
  }
}
