/** The part of a calendar date (chrono's `NaiveDate`) that the month delta
    looks at: its year, month of year and day of month, and the order in
    which dates compare. */
module Dates {

  type Month = m: int | 1 <= m <= 12 witness 1

  type Day = d: int | 1 <= d <= 31 witness 1

  const DECEMBER: Month := 12

  datatype Date = Date(year: int, month: Month, day: Day)

  /** `a <= b` on dates: earlier year first, then earlier month, then
      earlier day. For valid dates this is chrono's order on (year, day of
      year). */
  predicate LessEq(a: Date, b: Date): (r: bool)
    ensures r ==> a.year <= b.year
    ensures r && a.year == b.year ==> a.month <= b.month
  {
    || a.year < b.year
    || (a.year == b.year && a.month < b.month)
    || (a.year == b.year && a.month == b.month && a.day <= b.day)
  }

  /** `LessEq` is a total order, so "from <= to" means what it says. */
  lemma LessEqIsTotalOrder(a: Date, b: Date, c: Date)
    ensures LessEq(a, a)
    ensures LessEq(a, b) && LessEq(b, a) ==> a == b
    ensures LessEq(a, b) && LessEq(b, c) ==> LessEq(a, c)
    ensures LessEq(a, b) || LessEq(b, a)
  {
  }
}
