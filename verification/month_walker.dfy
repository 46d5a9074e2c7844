/**
 * The month walker (class BackToTheFuture): from a date some years back it lists one
 * date per year, or one date per calendar month, up to a chosen year and month, always
 * on day 5.
 */
module MonthWalker {
  import opened Outcomes
  import opened Calendar

  /** The day of the month the walker puts every date on. */
  const FixedDay := 5

  /** The number of iterations of `range(n)`: none for a negative n. */
  function RangeLength(n: int): (r: nat)
    ensures n >= 0 ==> r == n
    ensures n < 0 ==> r == 0
  {
    if n < 0 then 0 else n
  }

  /** The i-th date of the yearly walk: year `from + i` on the given month and day. */
  function YearDate(from: int, month: int, day: int, i: int): Date {
    Date(from + i, month, day)
  }

  /** The i-th date of the monthly walk: i calendar months after `start`, on the given day. */
  function MonthDate(start: YearMonth, day: int, i: int): Date {
    var ym := AddMonths(start, i);
    Date(ym.year, ym.month, day)
  }

  /** The year and month of a date. */
  function MonthOf(d: Date): YearMonth {
    YearMonth(d.year, d.month)
  }

  /**
   * The loop body of byMonth: month `ym + m` of year `yy`, normalised with `//` and `%`
   * by twelve, December handled on its own. For the non-negative operands the loop
   * produces, Python's floor division agrees with Dafny's.
   */
  lemma {:induction false} LoopArithmetic(yy: int, ym: int, m: int, newYear: int, newMth: int)
    requires 1 <= ym <= 12 && m >= 0
    requires var x := ym + m;
             if x % 12 == 0 then newYear == yy + x / 12 - 1 && newMth == x - (x / 12 - 1) * 12
             else newYear == yy + x / 12 && newMth == x - (x / 12) * 12
    ensures YearMonth(newYear, newMth) == AddMonths(YearMonth(yy, ym), m)
  {
    var x := ym + m;
    var r := AddMonths(YearMonth(yy, ym), m);
    assert 1 <= newMth <= 12 by {
      assert x == 12 * (x / 12) + x % 12;
    }
    assert MonthNumber(YearMonth(newYear, newMth)) == MonthNumber(r) by {
      assert x == 12 * (x / 12) + x % 12;
    }
    MonthNumberRoundTrip(YearMonth(newYear, newMth));
    MonthNumberRoundTrip(r);
  }

  /**
   * The m-th monthly date in closed form: year `yy + (ym + m - 1) div 12` and month
   * `(ym + m - 1) mod 12 + 1`.
   */
  lemma ClosedForm(start: YearMonth, day: int, m: int)
    requires 1 <= start.month <= 12
    ensures MonthDate(start, day, m)
              == Date(start.year + (start.month + m - 1) / 12, (start.month + m - 1) % 12 + 1, day)
  {
    var n := start.month + m - 1;
    var ym := YearMonth(start.year + n / 12, n % 12 + 1);
    assert MonthNumber(ym) == MonthNumber(start) + m by {
      assert n == 12 * (n / 12) + n % 12;
    }
    MonthNumberRoundTrip(ym);
  }

  /** Consecutive monthly dates are one calendar month apart, on the same day. */
  lemma ConsecutiveMonths(start: YearMonth, day: int, i: int)
    ensures MonthOf(MonthDate(start, day, i + 1)) == NextMonth(MonthOf(MonthDate(start, day, i)))
    ensures MonthDate(start, day, i + 1).day == MonthDate(start, day, i).day == day
  {
    AddMonthsStep(start, i);
  }

  /** The monthly walk starts on the start month, and lands on calendar months only. */
  lemma MonthWalkStart(start: YearMonth, day: int, i: int)
    requires 1 <= start.month <= 12
    ensures MonthOf(MonthDate(start, day, 0)) == start
    ensures 1 <= MonthDate(start, day, i).month <= 12
  {
    AddZeroMonths(start);
  }

  /** Twelve months on, the monthly walk is on the same month one year later. */
  lemma TwelveMonthsIsAYear(start: YearMonth, day: int, i: int)
    requires 1 <= start.month <= 12
    ensures MonthDate(start, day, i + 12).year == MonthDate(start, day, i).year + 1
    ensures MonthDate(start, day, i + 12).month == MonthDate(start, day, i).month
  {
    var a := AddMonths(start, i);
    AddWholeYears(a, 1);
    var b := AddMonths(start, i + 12);
    assert MonthNumber(b) == MonthNumber(AddMonths(a, 12));
    MonthNumberRoundTrip(b);
    MonthNumberRoundTrip(AddMonths(a, 12));
  }

  /**
   * Every date of the monthly walk up to index `count - 1` is a date `date()` accepts
   * exactly when the last one's year is at most 9999 (day 5 exists in every month, and
   * the years never decrease from a valid start).
   */
  lemma {:induction false} MonthWalkValid(start: YearMonth, count: int)
    requires MinYear <= start.year && 1 <= start.month <= 12 && count >= 1
    ensures (forall i :: 0 <= i < count ==> IsValidDate(MonthDate(start, FixedDay, i).year, MonthDate(start, FixedDay, i).month, FixedDay))
            <==> MonthDate(start, FixedDay, count - 1).year <= MaxYear
    decreases count
  {
    MonthWalkStart(start, FixedDay, count - 1);
    if count > 1 {
      MonthWalkValid(start, count - 1);
      ConsecutiveMonths(start, FixedDay, count - 2);
    } else {
      AddZeroMonths(start);
    }
  }

  /** The walker once its constructor has run; nothing changes its fields afterwards. */
  class BackToTheFuture {
    const year: int
    const month: int
    const numberOfYears: int
    const rightNow: Date
    const yearsAgo: Date
    const loopRange: int

    /** What the constructor establishes: two valid dates, `rightNow` on day 5 of a four-digit year. */
    predicate Valid() {
      && 1000 <= rightNow.year <= 9999 && 1 <= rightNow.month <= 12 && rightNow.day == FixedDay
      && IsValidDate(yearsAgo.year, yearsAgo.month, yearsAgo.day)
      && loopRange == numberOfYears * 12 + 1
    }

    /**
     * `rightNow` is day 5 of the given year and month. `yearsAgo` is the date
     * `numberOfYears * 365` days earlier, which the caller supplies.
     */
    constructor (year: int, month: int, numberOfYears: int, yearsAgo: Date)
      requires 1000 <= year <= 9999 && 1 <= month <= 12
      requires IsValidDate(yearsAgo.year, yearsAgo.month, yearsAgo.day)
      ensures this.year == year && this.month == month && this.numberOfYears == numberOfYears
      ensures rightNow == Date(year, month, FixedDay) && this.yearsAgo == yearsAgo
      ensures loopRange == numberOfYears * 12 + 1
      ensures Valid()
    {
      this.year := year;
      this.month := month;
      this.numberOfYears := numberOfYears;
      rightNow := Date(year, month, FixedDay);
      this.yearsAgo := yearsAgo;
      loopRange := numberOfYears * 12 + 1;
    }

    /** A date every year from `yearsAgo`'s year to `rightNow`'s, on `rightNow`'s month and day. */
    method ByYear() returns (dates: seq<Date>)
      requires Valid()
      ensures |dates| == RangeLength(rightNow.year + 1 - yearsAgo.year)
      ensures forall i :: 0 <= i < |dates| ==> dates[i] == YearDate(yearsAgo.year, rightNow.month, rightNow.day, i)
      ensures forall i :: 0 <= i < |dates| ==> IsValidDate(dates[i].year, dates[i].month, dates[i].day)
    {
      dates := [];
      var y := yearsAgo.year;
      while y < rightNow.year + 1
        invariant yearsAgo.year <= y
        invariant y <= rightNow.year + 1 || y == yearsAgo.year
        invariant |dates| == y - yearsAgo.year
        invariant forall i :: 0 <= i < |dates| ==> dates[i] == YearDate(yearsAgo.year, rightNow.month, rightNow.day, i)
        invariant forall i :: 0 <= i < |dates| ==> IsValidDate(dates[i].year, dates[i].month, dates[i].day)
        decreases rightNow.year + 1 - y
      {
        dates := dates + [Date(y, rightNow.month, rightNow.day)];
        y := y + 1;
      }
    }

    /**
     * A date every calendar month for `loopRange` months from `yearsAgo`'s month, on
     * `rightNow`'s day. The generator raises at the first date `date()` rejects; the
     * dates before it and the error are returned.
     */
    method ByMonth() returns (dates: seq<Date>, error: Option<DateError>)
      requires Valid()
      ensures |dates| <= RangeLength(loopRange)
      ensures forall i :: 0 <= i < |dates| ==> dates[i] == MonthDate(MonthOf(yearsAgo), rightNow.day, i)
      ensures forall i :: 0 <= i < |dates| ==> IsValidDate(dates[i].year, dates[i].month, dates[i].day)
      ensures error.None? ==> |dates| == RangeLength(loopRange)
      ensures error.Some? ==>
                var d := MonthDate(MonthOf(yearsAgo), rightNow.day, |dates|);
                |dates| < loopRange && MakeDate(d.year, d.month, d.day) == Failure(error.value)
      ensures loopRange >= 1 ==>
                (error.None? <==> MonthDate(MonthOf(yearsAgo), rightNow.day, loopRange - 1).year <= MaxYear)
    {
      dates := [];
      error := None;
      var m := 0;
      while m < loopRange
        invariant 0 <= m && (m <= loopRange || m == 0)
        invariant |dates| == m
        invariant forall i :: 0 <= i < m ==> dates[i] == MonthDate(MonthOf(yearsAgo), rightNow.day, i)
        invariant forall i :: 0 <= i < m ==> IsValidDate(dates[i].year, dates[i].month, dates[i].day)
        decreases loopRange - m
      {
        var newMth := yearsAgo.month + m;
        var newYear := yearsAgo.year;
        newYear := newYear + newMth / 12;
        if newMth % 12 == 0 {
          newMth := newMth - ((newMth / 12) - 1) * 12;
          newYear := newYear - 1;
        } else {
          newMth := newMth - (newMth / 12) * 12;
        }
        LoopArithmetic(yearsAgo.year, yearsAgo.month, m, newYear, newMth);
        var d := MakeDate(newYear, newMth, rightNow.day);
        if d.Failure? {
          error := Some(d.error);
          MonthWalkValid(MonthOf(yearsAgo), loopRange);
          return;
        }
        dates := dates + [d.value];
        m := m + 1;
      }
      if loopRange >= 1 {
        MonthWalkValid(MonthOf(yearsAgo), loopRange);
      }
    }
  }
}
