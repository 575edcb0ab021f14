/** The part of `java.time.LocalDate` the model needs: proleptic Gregorian
    dates, `isBefore`/`isAfter`, and `plusMonths`, which clamps the day to the
    last valid day of the resulting month. */
module Calendar {

  datatype Date = Date(year: int, month: int, day: int)

  predicate IsLeapYear(year: int) {
    year % 4 == 0 && (year % 100 != 0 || year % 400 == 0)
  }

  function LengthOfMonth(year: int, month: int): (n: int)
    ensures 28 <= n <= 31
    ensures month == 2 ==> (n == 29 <==> IsLeapYear(year))
  {
    if month == 2 then (if IsLeapYear(year) then 29 else 28)
    else if month == 4 || month == 6 || month == 9 || month == 11 then 30
    else 31
  }

  predicate IsValidDate(d: Date) {
    1 <= d.month <= 12 && 1 <= d.day <= LengthOfMonth(d.year, d.month)
  }

  /** A date `LocalDate` can represent (the year range is not bounded here). */
  type LocalDate = d: Date | IsValidDate(d) witness Date(1970, 1, 1)

  /** `a.isBefore(b)`: chronological order, year first, then month, then day. */
  predicate IsBefore(a: Date, b: Date) {
    a.year < b.year ||
    (a.year == b.year && (a.month < b.month || (a.month == b.month && a.day < b.day)))
  }

  /** `a.isAfter(b)`. */
  predicate IsAfter(a: Date, b: Date) {
    IsBefore(b, a)
  }

  /** The number of months from January of year 0 to the month of `d`. */
  function MonthIndex(d: Date): int {
    d.year * 12 + d.month - 1
  }

  function Min(a: int, b: int): int {
    if a <= b then a else b
  }

  /** `d.plusMonths(n)`: moves the month by `n` (negative moves back) and keeps
      the day of month, clamped to the length of the month reached. */
  function PlusMonths(d: LocalDate, n: int): (r: LocalDate)
    ensures MonthIndex(r) == MonthIndex(d) + n
    ensures r.day == Min(d.day, LengthOfMonth(r.year, r.month))
  {
    if n == 0 then d
    else
      var total := MonthIndex(d) + n;
      var y := total / 12;
      var m := total % 12 + 1;
      Date(y, m, Min(d.day, LengthOfMonth(y, m)))
  }

  /** Chronological order is a strict total order on dates. */
  lemma IsBeforeIsStrictTotalOrder(a: Date, b: Date, c: Date)
    ensures !IsBefore(a, a)
    ensures IsBefore(a, b) && IsBefore(b, c) ==> IsBefore(a, c)
    ensures a == b || IsBefore(a, b) || IsBefore(b, a)
  {
  }

  /** A date in a later month is later, whatever the days. */
  lemma LaterMonthIsLater(a: LocalDate, b: LocalDate)
    requires MonthIndex(a) < MonthIndex(b)
    ensures IsBefore(a, b)
  {
    if a.year == b.year {
      assert a.month < b.month;
    }
  }

  /** Adding more months never gives an earlier date. */
  lemma PlusMonthsIsMonotone(d: LocalDate, m: int, n: int)
    requires m <= n
    ensures !IsBefore(PlusMonths(d, n), PlusMonths(d, m))
  {
    var a, b := PlusMonths(d, m), PlusMonths(d, n);
    if m < n {
      LaterMonthIsLater(a, b);
      IsBeforeIsStrictTotalOrder(a, b, a);
    } else {
      assert a == b;
    }
  }

  /** Adding a non-negative number of months never moves a date back. */
  lemma PlusMonthsNotBefore(d: LocalDate, n: int)
    requires 0 <= n
    ensures !IsBefore(PlusMonths(d, n), d)
  {
    PlusMonthsIsMonotone(d, 0, n);
  }

  /** Month-end clamping, on the two kinds of year: 31 January plus one month
      is the last day of February. */
  lemma PlusMonthsClampsToMonthEnd()
    ensures PlusMonths(Date(2024, 1, 31), 1) == Date(2024, 2, 29)
    ensures PlusMonths(Date(2023, 1, 31), 1) == Date(2023, 2, 28)
    ensures PlusMonths(Date(2024, 3, 31), -1) == Date(2024, 2, 29)
    ensures PlusMonths(Date(2024, 1, 1), 12) == Date(2025, 1, 1)
  {
  }
}
