/**
 * The calendar primitives the scripts take from Python's datetime module: a date whose
 * construction checks its fields, and calendar-month arithmetic on (year, month) pairs.
 */
module Calendar {
  import opened Outcomes

  datatype YearMonth = YearMonth(year: int, month: int)

  datatype Date = Date(year: int, month: int, day: int)

  /** datetime.MINYEAR and datetime.MAXYEAR. */
  const MinYear := 1
  const MaxYear := 9999

  predicate IsLeapYear(y: int) {
    y % 4 == 0 && (y % 100 != 0 || y % 400 == 0)
  }

  function DaysInMonth(y: int, m: int): (n: int)
    requires 1 <= m <= 12
    ensures 28 <= n <= 31
  {
    if m == 2 then (if IsLeapYear(y) then 29 else 28)
    else if m == 4 || m == 6 || m == 9 || m == 11 then 30
    else 31
  }

  predicate IsValidDate(y: int, m: int, d: int) {
    MinYear <= y <= MaxYear && 1 <= m <= 12 && 1 <= d <= DaysInMonth(y, m)
  }

  /** The ValueError that `date(y, m, d)` raises, by the field it checks first. */
  datatype DateError = YearOutOfRange | MonthOutOfRange | DayOutOfRange

  /** `date(y, m, d)`: checks the year, then the month, then the day. */
  function MakeDate(y: int, m: int, d: int): (r: Result<Date, DateError>)
    ensures r.Success? <==> IsValidDate(y, m, d)
    ensures r.Success? ==> r.value == Date(y, m, d)
    ensures r == Failure(MonthOutOfRange) <==> MinYear <= y <= MaxYear && !(1 <= m <= 12)
  {
    if !(MinYear <= y <= MaxYear) then Failure(YearOutOfRange)
    else if !(1 <= m <= 12) then Failure(MonthOutOfRange)
    else if !(1 <= d <= DaysInMonth(y, m)) then Failure(DayOutOfRange)
    else Success(Date(y, m, d))
  }

  /** The position of a month on one integer line: months since January of year 0. */
  function MonthNumber(ym: YearMonth): int {
    12 * ym.year + ym.month - 1
  }

  /** The month at a position of that line; the inverse of MonthNumber. */
  function FromMonthNumber(n: int): (ym: YearMonth)
    ensures 1 <= ym.month <= 12
    ensures MonthNumber(ym) == n
  {
    YearMonth(n / 12, n % 12 + 1)
  }

  lemma MonthNumberRoundTrip(ym: YearMonth)
    requires 1 <= ym.month <= 12
    ensures FromMonthNumber(MonthNumber(ym)) == ym
  {
    var n := MonthNumber(ym);
    assert n == 12 * ym.year + (ym.month - 1);
  }

  /** Calendar-month addition: k months after ym (before it when k is negative). */
  function AddMonths(ym: YearMonth, k: int): (r: YearMonth)
    ensures 1 <= r.month <= 12
    ensures MonthNumber(r) == MonthNumber(ym) + k
  {
    FromMonthNumber(MonthNumber(ym) + k)
  }

  /** The month that follows ym: December rolls over to January of the next year. */
  function NextMonth(ym: YearMonth): YearMonth {
    if ym.month == 12 then YearMonth(ym.year + 1, 1) else YearMonth(ym.year, ym.month + 1)
  }

  /** Adding no months leaves a valid month alone. */
  lemma AddZeroMonths(ym: YearMonth)
    requires 1 <= ym.month <= 12
    ensures AddMonths(ym, 0) == ym
  {
    MonthNumberRoundTrip(ym);
  }

  /** Adding one more month is one step of NextMonth. */
  lemma AddMonthsStep(ym: YearMonth, k: int)
    ensures AddMonths(ym, k + 1) == NextMonth(AddMonths(ym, k))
  {
    var a := AddMonths(ym, k);
    var b := NextMonth(a);
    assert 1 <= b.month <= 12 && MonthNumber(b) == MonthNumber(a) + 1;
    MonthNumberRoundTrip(b);
  }

  /** Adding whole years keeps the month and moves the year. */
  lemma AddWholeYears(ym: YearMonth, n: int)
    requires 1 <= ym.month <= 12
    ensures AddMonths(ym, 12 * n) == YearMonth(ym.year + n, ym.month)
  {
    MonthNumberRoundTrip(YearMonth(ym.year + n, ym.month));
  }
}
