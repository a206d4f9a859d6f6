/** Calendar dates and the year/month ranges of `DateUtils`.

    A `LocalDate` is the triple (year, month, day), compared lexicographically,
    which is the order `LocalDate.compareTo` uses.  `LocalDate.of` rejects a
    year outside [-999 999 999, 999 999 999], a month outside 1..12 and a day
    past the month's length; those rejections become preconditions here and
    explicit checks in the callers that can meet them. */
module DateUtils {

  /** `Year.MIN_VALUE` and `Year.MAX_VALUE`, the bounds `LocalDate.of` checks. */
  const MinYear: int := -999_999_999
  const MaxYear: int := 999_999_999

  datatype Date = Date(year: int, month: int, day: int)

  /** The range record `DateUtils.DateRange`: both ends inclusive. */
  datatype DateRange = DateRange(startDate: Date, endDate: Date)

  predicate ValidYear(y: int) {
    MinYear <= y <= MaxYear
  }

  /** The proleptic Gregorian rule of `IsoChronology.isLeapYear`.  Java writes
      `(y & 3) == 0 && (y % 100 != 0 || y % 400 == 0)`; only zero remainders
      are tested, and those agree between Java's truncating `%` and Dafny's
      Euclidean one, also for negative years. */
  predicate IsLeapYear(y: int) {
    y % 4 == 0 && (y % 100 != 0 || y % 400 == 0)
  }

  /** `LocalDate.lengthOfMonth`. */
  function LengthOfMonth(y: int, m: int): int
    requires 1 <= m <= 12
  {
    if m == 2 then (if IsLeapYear(y) then 29 else 28)
    else if m == 4 || m == 6 || m == 9 || m == 11 then 30
    else 31
  }

  /** A date `LocalDate.of` accepts. */
  predicate ValidDate(d: Date) {
    && ValidYear(d.year)
    && 1 <= d.month <= 12
    && 1 <= d.day <= LengthOfMonth(d.year, d.month)
  }

  /** Strict chronological order (`isBefore`). */
  predicate Before(a: Date, b: Date) {
    || a.year < b.year
    || (a.year == b.year && a.month < b.month)
    || (a.year == b.year && a.month == b.month && a.day < b.day)
  }

  /** `!a.isAfter(b)`. */
  predicate NotAfter(a: Date, b: Date) {
    !Before(b, a)
  }

  /** `date BETWEEN start AND end`, both ends inclusive. */
  predicate InRange(d: Date, r: DateRange) {
    NotAfter(r.startDate, d) && NotAfter(d, r.endDate)
  }

  /** `getYearStartDate`: January 1st, the earliest valid date of the year. */
  function GetYearStartDate(y: int): (d: Date)
    requires ValidYear(y)
    ensures ValidDate(d) && d.year == y
    ensures forall e: Date :: ValidDate(e) && e.year == y ==> NotAfter(d, e)
  {
    Date(y, 1, 1)
  }

  /** `getYearEndDate`: December 31st, the latest valid date of the year. */
  function GetYearEndDate(y: int): (d: Date)
    requires ValidYear(y)
    ensures ValidDate(d) && d.year == y
    ensures forall e: Date :: ValidDate(e) && e.year == y ==> NotAfter(e, d)
  {
    Date(y, 12, 31)
  }

  /** `DateRange.ofYear`: a valid date lies in it exactly when it falls in
      year `y`. */
  function OfYear(y: int): (r: DateRange)
    requires ValidYear(y)
    ensures NotAfter(r.startDate, r.endDate)
    ensures r.startDate.year == y && r.endDate.year == y
    ensures forall d: Date :: ValidDate(d) ==> (InRange(d, r) <==> d.year == y)
  {
    DateRange(Date(y, 1, 1), Date(y, 12, 31))
  }

  /** `getYearRange` delegates to `ofYear`, so its ends are exactly the
      year's start and end dates. */
  function GetYearRange(y: int): (r: DateRange)
    requires ValidYear(y)
    ensures r.startDate == GetYearStartDate(y) && r.endDate == GetYearEndDate(y)
    ensures forall d: Date :: ValidDate(d) ==> (InRange(d, r) <==> d.year == y)
  {
    OfYear(y)
  }

  /** `DateRange.ofMonth`: from day 1 to the month's last day, so a valid
      date lies in it exactly when it falls in that year and month. */
  function OfMonth(y: int, m: int): (r: DateRange)
    requires ValidYear(y) && 1 <= m <= 12
    ensures ValidDate(r.startDate) && ValidDate(r.endDate)
    ensures NotAfter(r.startDate, r.endDate)
    ensures r.startDate.year == y && r.endDate.year == y
    ensures r.startDate.day == 1
    ensures forall d: Date :: ValidDate(d) ==> (InRange(d, r) <==> d.year == y && d.month == m)
  {
    var start := Date(y, m, 1);
    DateRange(start, Date(y, m, LengthOfMonth(y, m)))
  }

  /** The month lengths `ofMonth` produces: 31 days for months 1, 3, 5, 7, 8,
      10, 12, 30 for 4, 6, 9, 11, and 29 or 28 for February by the leap-year
      rule. */
  lemma OfMonthLength(y: int, m: int)
    requires ValidYear(y) && 1 <= m <= 12
    ensures m in {1, 3, 5, 7, 8, 10, 12} ==> OfMonth(y, m).endDate.day == 31
    ensures m in {4, 6, 9, 11} ==> OfMonth(y, m).endDate.day == 30
    ensures m == 2 ==> (OfMonth(y, m).endDate.day == 29 <==> IsLeapYear(y))
    ensures m == 2 ==> (OfMonth(y, m).endDate.day == 28 <==> !IsLeapYear(y))
  {
  }

  /** `NotAfter` is a total order on dates. */
  lemma NotAfterTotalOrder(a: Date, b: Date, c: Date)
    ensures NotAfter(a, a)
    ensures NotAfter(a, b) || NotAfter(b, a)
    ensures NotAfter(a, b) && NotAfter(b, a) ==> a == b
    ensures NotAfter(a, b) && NotAfter(b, c) ==> NotAfter(a, c)
  {
  }
}
