/** Calendar dates, for the fields the model treats as dates only (an
    author's birth and death, "today"). `DateTime.AddYears` keeps the month
    and day, except that February 29 becomes February 28 in a year that is
    not a leap year. */
module Dates {

  datatype Date = Date(year: int, month: int, day: int)

  predicate IsLeap(y: int) {
    (y % 4 == 0 && y % 100 != 0) || y % 400 == 0
  }

  function DaysInMonth(y: int, m: int): int {
    if m == 2 then (if IsLeap(y) then 29 else 28)
    else if m == 4 || m == 6 || m == 9 || m == 11 then 30
    else 31
  }

  /** A date the calendar has. */
  predicate IsValid(d: Date) {
    1 <= d.month <= 12 && 1 <= d.day <= DaysInMonth(d.year, d.month)
  }

  /** Chronological order: by year, then month, then day. */
  predicate Before(a: Date, b: Date) {
    a.year < b.year || (a.year == b.year && (a.month < b.month || (a.month == b.month && a.day < b.day)))
  }

  predicate NotAfter(a: Date, b: Date) {
    a == b || Before(a, b)
  }

  /** `DateTime.AddYears(n)`. */
  function AddYears(d: Date, n: int): (r: Date)
    ensures r.year == d.year + n && r.month == d.month
    ensures r.day == d.day || (d.month == 2 && d.day == 29 && r.day == 28 && !IsLeap(d.year + n))
    ensures IsValid(d) ==> IsValid(r)
    ensures IsValid(d) && n == 0 ==> r == d
  {
    var y := d.year + n;
    if d.month == 2 && d.day == 29 && !IsLeap(y) then Date(y, 2, 28) else Date(y, d.month, d.day)
  }

  /** The order is total and strict. */
  lemma OrderFacts(a: Date, b: Date, c: Date)
    ensures !Before(a, a)
    ensures Before(a, b) ==> !Before(b, a)
    ensures a == b || Before(a, b) || Before(b, a)
    ensures Before(a, b) && Before(b, c) ==> Before(a, c)
  {
  }
}
