/**
 * The second release calculator (class QRelease2): for a query date and a period of
 * `every` months it builds the current, previous, before and next releases, each a
 * Quarter record made from the date its release starts on.
 */
module ReleaseV2 {
  import opened Outcomes
  import opened Decimal
  import opened Calendar
  import opened Grid

  /** A release: its year, zero-padded month, "YYYY.MM" label and abbreviation. */
  datatype Quarter = Quarter(year: int, month: string, release: string, abbreviation: string)

  /** What the constructor can raise: a zero period divides by zero, a bad date is a ValueError. */
  datatype ReleaseError = ZeroPeriod | BadDate(reason: DateError)

  /** The state of a QRelease2 object once its constructor has returned. */
  datatype QRelease2 = QRelease2(
    queryDate: Date, relPeriod: int,
    current: Quarter, previous: Quarter, before: Quarter, next: Quarter)

  /** The first day of a month. */
  function DayOne(ym: YearMonth): Date {
    Date(ym.year, ym.month, 1)
  }

  /**
   * Quarter(startOfQuarter): the month is zero-padded to two digits, the label is the
   * year, a dot and the month, and the abbreviation is the year without its first two
   * characters, followed by the month.
   */
  function MakeQuarter(start: Date): (q: Quarter)
    ensures q.year == start.year
    ensures ParseInt(q.month) == Some(start.month)
    ensures 0 <= start.month < 100 ==> |q.month| == 2
    ensures q.release == IntToString(q.year) + "." + q.month
    ensures q.abbreviation == Drop2(IntToString(q.year)) + q.month
  {
    Pad2RoundTrip(start.month);
    assert 0 <= start.month < 100 ==> |Pad2(start.month)| == 2 by {
      if 0 <= start.month < 100 { Pad2TwoDigits(start.month); }
    }
    var month := Pad2(start.month);
    Quarter(start.year, month, IntToString(start.year) + "." + month, Drop2(IntToString(start.year)) + month)
  }

  /**
   * `date(ym.year, ym.month, 1)` for a computed month, with its ValueError wrapped: day 1
   * exists in every month, so only the year and then the month can be refused.
   */
  function FirstOfMonth(ym: YearMonth): (r: Result<Date, ReleaseError>)
    ensures r.Success? <==> MinYear <= ym.year <= MaxYear && 1 <= ym.month <= 12
    ensures r.Success? ==> r.value == DayOne(ym)
    ensures !(MinYear <= ym.year <= MaxYear) ==> r == Failure(BadDate(YearOutOfRange))
    ensures MinYear <= ym.year <= MaxYear && !(1 <= ym.month <= 12) ==> r == Failure(BadDate(MonthOutOfRange))
  {
    match MakeDate(ym.year, ym.month, 1)
    case Success(d) => Success(d)
    case Failure(e) => Failure(BadDate(e))
  }

  /**
   * getStartOfQuarter: the grid month of (year, month) as a date on day 1. It fails when
   * the period is zero, or when the one correction leaves the month outside 1..12 or
   * the year outside the range of a date.
   */
  function GetStartOfQuarter(every: int, year: int, month: int): (r: Result<Date, ReleaseError>)
    ensures every == 0 ==> r == Failure(ZeroPeriod)
    ensures r.Success? ==> r.value.day == 1 && MinYear <= r.value.year <= MaxYear && 1 <= r.value.month <= 12
  {
    if every == 0 then Failure(ZeroPeriod) else FirstOfMonth(Snap(every, year, month))
  }

  /**
   * What getStartOfQuarter raises and returns: a zero period divides by zero; otherwise
   * it returns day 1 of the grid month exactly when that month is a calendar month of a
   * year a date can hold, and a bad month is reported before a bad day.
   */
  lemma StartOfQuarterSpec(every: int, year: int, month: int)
    ensures var r := GetStartOfQuarter(every, year, month);
            && (every == 0 ==> r == Failure(ZeroPeriod))
            && (every != 0 ==>
                  (r.Success? <==> -11 <= Reduce(month, every) <= 24 && MinYear <= Snap(every, year, month).year <= MaxYear))
            && (every != 0 && MinYear <= Snap(every, year, month).year <= MaxYear && !(-11 <= Reduce(month, every) <= 24) ==>
                  r == Failure(BadDate(MonthOutOfRange)))
            && (r.Success? ==> r.value == DayOne(Snap(every, year, month)))
  {
  }

  /** The four start dates of a window: current, previous, before and next. */
  datatype Starts = Starts(current: Date, previous: Date, before: Date, next: Date)

  /**
   * The constructor's four steps in order: the window when every step succeeds,
   * otherwise the exception of the first step that fails. Each step is a pure
   * computation, so computing all four first raises the same exception.
   */
  function Gather(cur: Result<Date, ReleaseError>, prv: Result<Date, ReleaseError>,
                  bfr: Result<Date, ReleaseError>, nxt: Result<Date, ReleaseError>): (r: Result<Starts, ReleaseError>)
    ensures r.Success? <==> cur.Success? && prv.Success? && bfr.Success? && nxt.Success?
    ensures r.Success? ==> r.value == Starts(cur.value, prv.value, bfr.value, nxt.value)
    ensures cur.Failure? ==> r == Failure(cur.error)
    ensures cur.Success? && prv.Failure? ==> r == Failure(prv.error)
    ensures cur.Success? && prv.Success? && bfr.Failure? ==> r == Failure(bfr.error)
    ensures cur.Success? && prv.Success? && bfr.Success? && nxt.Failure? ==> r == Failure(nxt.error)
  {
    var c :- cur;
    var p :- prv;
    var b :- bfr;
    var n :- nxt;
    Success(Starts(c, p, b, n))
  }

  /** The start dates of the constructor's four releases. */
  function QuarterStarts(query: Date, every: int): (r: Result<Starts, ReleaseError>)
    ensures every == 0 ==> r == Failure(ZeroPeriod)
    ensures r.Success? ==>
              r.value.current.day == 1 && r.value.previous.day == 1 && r.value.before.day == 1 && r.value.next.day == 1
  {
    var prvMth := query.month - 1 * every;
    var bfrMth := query.month - 2 * every;
    var nxtMth := query.month + 1 * every;
    Gather(GetStartOfQuarter(every, query.year, query.month), GetStartOfQuarter(every, query.year, prvMth),
           GetStartOfQuarter(every, query.year, bfrMth), GetStartOfQuarter(every, query.year, nxtMth))
  }

  /** The object built from a window of start dates: one Quarter per date. */
  function Assemble(query: Date, every: int, s: Starts): (r: QRelease2)
    ensures r.queryDate == query && r.relPeriod == every
    ensures r.current.year == s.current.year && ParseInt(r.current.month) == Some(s.current.month)
  {
    QRelease2(query, every, MakeQuarter(s.current), MakeQuarter(s.previous), MakeQuarter(s.before), MakeQuarter(s.next))
  }

  /**
   * The constructor: the query date comes from strptime, so it is a valid date. The
   * previous, before and next releases snap the raw query month moved by one period
   * back, two back and one forward. Building a Quarter from a date cannot fail, so
   * building each right after its date (as the constructor does) or after all four
   * raises the same first exception.
   */
  function NewQRelease2(query: Date, every: int): (r: Result<QRelease2, ReleaseError>)
    requires IsValidDate(query.year, query.month, query.day)
    ensures r.Success? ==> r.value.queryDate == query && r.value.relPeriod == every
    ensures every == 0 ==> r == Failure(ZeroPeriod)
  {
    var s :- QuarterStarts(query, every);
    Success(Assemble(query, every, s))
  }

  /** With a one-month period the current release starts on the query's own month. */
  lemma MonthlyIsQueryMonth(query: Date)
    requires IsValidDate(query.year, query.month, query.day)
    ensures GetStartOfQuarter(1, query.year, query.month) == Success(Date(query.year, query.month, 1))
  {
    SnapOfCalendarMonth(1, query.year, query.month);
    StartOfQuarterSpec(1, query.year, query.month);
  }

  /** The grid month of a calendar month lies between 0 and the month itself. */
  lemma ReduceOfCalendarMonth(p: int, year: int, month: int)
    requires 0 < p && 12 % p == 0 && 1 <= month <= 12
    ensures 0 <= Reduce(month, p) <= month
  {
    SnapOfCalendarMonth(p, year, month);
  }

  /**
   * One step of the window: the query month moved by k periods (d months) snaps to a
   * date exactly when its grid month stays above the single year correction.
   */
  lemma WindowStepFound(p: int, query: Date, k: int, d: int, shifted: int)
    requires 0 < p <= 12
    requires 1 <= query.month <= 12 && 2 <= query.year <= 9998
    requires -2 <= k <= 1 && d == p * k && shifted == query.month + d
    ensures GetStartOfQuarter(p, query.year, shifted).Success? <==> Reduce(query.month, p) + d >= -11
  {
    ReduceShift(query.month, p, k);
    StartOfQuarterSpec(p, query.year, shifted);
    assert d <= p by {
      if k == 1 {} else { assert p * k <= 0; }
    }
  }

  /** The date it snaps to is then the current release moved by d months. */
  lemma WindowStepValue(p: int, query: Date, k: int, d: int, shifted: int, start: Date)
    requires 0 < p <= 12
    requires 1 <= query.month <= 12
    requires -2 <= k <= 1 && d == p * k && shifted == query.month + d
    requires GetStartOfQuarter(p, query.year, shifted) == Success(start)
    ensures start == DayOne(AddMonths(Snap(p, query.year, query.month), d))
  {
    StartOfQuarterSpec(p, query.year, shifted);
    ReduceShift(query.month, p, k);
    SnapShift(p, query.year, query.month, k);
  }

  /** The object holds the Quarters of the four start dates. */
  lemma Assembled(query: Date, every: int)
    requires IsValidDate(query.year, query.month, query.day)
    ensures NewQRelease2(query, every).Success? <==> QuarterStarts(query, every).Success?
    ensures NewQRelease2(query, every).Success? ==>
              NewQRelease2(query, every).value == Assemble(query, every, QuarterStarts(query, every).value)
  {
  }

  /**
   * The start dates for a period of one to twelve months are found exactly when two periods
   * back still lands within the single year correction.
   */
  lemma WindowStartsFound(query: Date, every: int)
    requires 1 <= query.month <= 12 && 2 <= query.year <= 9998
    requires 0 < every <= 12
    ensures QuarterStarts(query, every).Success? <==> Reduce(query.month, every) >= 2 * every - 11
  {
    var m := query.month;
    WindowStepFound(every, query, 0, 0, m);
    WindowStepFound(every, query, -1, -every, m - 1 * every);
    WindowStepFound(every, query, -2, -2 * every, m - 2 * every);
    WindowStepFound(every, query, 1, every, m + 1 * every);
  }

  /** Once found, each start date is the one its step computes. */
  lemma StartsOfSteps(query: Date, every: int)
    requires QuarterStarts(query, every).Success?
    ensures var s := QuarterStarts(query, every).value;
            && GetStartOfQuarter(every, query.year, query.month) == Success(s.current)
            && GetStartOfQuarter(every, query.year, query.month - 1 * every) == Success(s.previous)
            && GetStartOfQuarter(every, query.year, query.month - 2 * every) == Success(s.before)
            && GetStartOfQuarter(every, query.year, query.month + 1 * every) == Success(s.next)
  {
  }

  /** Once found, the current start date is day 1 of the query's grid month ... */
  lemma CurrentStart(query: Date, every: int)
    requires 0 < every <= 12
    requires QuarterStarts(query, every).Success?
    ensures QuarterStarts(query, every).value.current == DayOne(Snap(every, query.year, query.month))
  {
    StartOfQuarterSpec(every, query.year, query.month);
  }

  /** ... the previous one is one period before it ... */
  lemma PreviousStart(query: Date, every: int)
    requires 1 <= query.month <= 12 && 0 < every <= 12
    requires QuarterStarts(query, every).Success?
    ensures QuarterStarts(query, every).value.previous == DayOne(AddMonths(Snap(every, query.year, query.month), -every))
  {
    var s := QuarterStarts(query, every).value;
    assert GetStartOfQuarter(every, query.year, query.month - 1 * every) == Success(s.previous) by {
      StartsOfSteps(query, every);
    }
    WindowStepValue(every, query, -1, -every, query.month - 1 * every, s.previous);
  }

  /** ... the one before that is two periods before it ... */
  lemma BeforeStart(query: Date, every: int)
    requires 1 <= query.month <= 12 && 0 < every <= 12
    requires QuarterStarts(query, every).Success?
    ensures QuarterStarts(query, every).value.before == DayOne(AddMonths(Snap(every, query.year, query.month), -2 * every))
  {
    var s := QuarterStarts(query, every).value;
    assert GetStartOfQuarter(every, query.year, query.month - 2 * every) == Success(s.before) by {
      StartsOfSteps(query, every);
    }
    WindowStepValue(every, query, -2, -2 * every, query.month - 2 * every, s.before);
  }

  /** ... and the next one is one period after it. */
  lemma NextStart(query: Date, every: int)
    requires 1 <= query.month <= 12 && 0 < every <= 12
    requires QuarterStarts(query, every).Success?
    ensures QuarterStarts(query, every).value.next == DayOne(AddMonths(Snap(every, query.year, query.month), every))
  {
    var s := QuarterStarts(query, every).value;
    assert GetStartOfQuarter(every, query.year, query.month + 1 * every) == Success(s.next) by {
      StartsOfSteps(query, every);
    }
    WindowStepValue(every, query, 1, every, query.month + 1 * every, s.next);
  }

  /**
   * The window of the second calculator, for a period of one to twelve months: the object is
   * built exactly when two periods back still lands within the single year correction,
   * and then previous, before and next are the releases one and two periods before the
   * current one and one period after it on the calendar.
   */
  lemma Window(query: Date, every: int)
    requires IsValidDate(query.year, query.month, query.day) && 2 <= query.year <= 9998
    requires 0 < every <= 12
    ensures NewQRelease2(query, every).Success? <==> Reduce(query.month, every) >= 2 * every - 11
    ensures NewQRelease2(query, every).Success? ==>
              var r := NewQRelease2(query, every).value;
              var cur := Snap(every, query.year, query.month);
              && r.current == MakeQuarter(DayOne(cur))
              && r.previous == MakeQuarter(DayOne(AddMonths(cur, -every)))
              && r.before == MakeQuarter(DayOne(AddMonths(cur, -2 * every)))
              && r.next == MakeQuarter(DayOne(AddMonths(cur, every)))
  {
    Assembled(query, every);
    WindowStartsFound(query, every);
    if QuarterStarts(query, every).Success? {
      CurrentStart(query, every);
      PreviousStart(query, every);
      BeforeStart(query, every);
      NextStart(query, every);
    }
  }

  /** A quarterly January: December, September and June of last year, then March. */
  lemma QuarterlyJanuary(query: Date)
    requires IsValidDate(query.year, 1, query.day) && query.month == 1 && 2 <= query.year <= 9998
    ensures NewQRelease2(query, 3).Success?
    ensures var r := NewQRelease2(query, 3).value;
            && r.current == MakeQuarter(Date(query.year - 1, 12, 1))
            && r.previous == MakeQuarter(Date(query.year - 1, 9, 1))
            && r.before == MakeQuarter(Date(query.year - 1, 6, 1))
            && r.next == MakeQuarter(Date(query.year, 3, 1))
  {
    var cur := YearMonth(query.year - 1, 12);
    var r := NewQRelease2(query, 3);
    assert r.Success?
           && r.value.current == MakeQuarter(DayOne(cur))
           && r.value.previous == MakeQuarter(DayOne(AddMonths(cur, -3)))
           && r.value.before == MakeQuarter(DayOne(AddMonths(cur, -2 * 3)))
           && r.value.next == MakeQuarter(DayOne(AddMonths(cur, 3))) by {
      Window(query, 3);
      assert Reduce(query.month, 3) == 0;
      assert Snap(3, query.year, query.month) == cur;
    }
    assert DayOne(AddMonths(cur, -3)) == Date(query.year - 1, 9, 1) by {
      MonthNumberRoundTrip(YearMonth(query.year - 1, 9));
    }
    assert DayOne(AddMonths(cur, -2 * 3)) == Date(query.year - 1, 6, 1) by {
      MonthNumberRoundTrip(YearMonth(query.year - 1, 6));
    }
    assert DayOne(AddMonths(cur, 3)) == Date(query.year, 3, 1) by {
      MonthNumberRoundTrip(YearMonth(query.year, 3));
    }
    assert DayOne(cur) == Date(query.year - 1, 12, 1);
  }

  /** `s[2:]` and `s[-2:]` agree on a nonempty string exactly when it has four characters. */
  lemma SliceAgreement(s: string)
    requires |s| >= 1
    ensures Drop2(s) == TakeLast2(s) <==> |s| == 4
  {
    if |s| != 4 {
      assert |Drop2(s)| != |TakeLast2(s)|;
    }
  }

  /** `str(year)[2:]` is the last two digits of a year exactly when the year has four digits. */
  lemma YearSuffix(year: nat)
    ensures Drop2(IntToString(year)) == TakeLast2(IntToString(year)) <==> 1000 <= year <= 9999
  {
    var s := IntToString(year);
    assert s == NatToString(year);
    NatToStringLength(year);
    SliceAgreement(s);
  }

  /** For a four-digit year the abbreviation is the year modulo 100, then the month, both two digits. */
  lemma AbbreviationIsShortForm(year: int, month: int)
    requires 1000 <= year <= 9999
    ensures MakeQuarter(Date(year, month, 1)).abbreviation == Pad2(year % 100) + Pad2(month)
  {
    var s := IntToString(year);
    YearSuffix(year);
    LastTwoDigits(year);
    assert Drop2(s) == Pad2(year % 100);
  }

  /**
   * For a four-digit year and a calendar month the label is "YYYY.MM": it splits at the
   * dot back into the year and the month.
   */
  lemma QuarterLabel(start: Date)
    requires 1000 <= start.year <= 9999 && 1 <= start.month <= 12
    ensures var q := MakeQuarter(start);
            |q.release| == 7 && q.release[4] == '.' && |q.abbreviation| == 4
            && ParseInt(q.release[..4]) == Some(start.year) && ParseInt(q.release[5..]) == Some(start.month)
  {
    var q := MakeQuarter(start);
    NatToStringLength(start.year);
    Pad2TwoDigits(start.month);
    IntToStringRoundTrip(start.year);
    Pad2RoundTrip(start.month);
    assert q.release[..4] == IntToString(start.year);
    assert q.release[5..] == Pad2(start.month);
  }
  /** With a period of one to five months the window is built for every query month. */
  lemma ShortPeriodsBuild(query: Date, every: int)
    requires IsValidDate(query.year, query.month, query.day) && 2 <= query.year <= 9998
    requires 1 <= every <= 5
    ensures NewQRelease2(query, every).Success?
  {
    Window(query, every);
  }

  /**
   * A half-yearly query in January to May: two periods back is month m - 12, whose
   * reduced month -12 stays at 0 after the one correction, and `date` rejects month 0.
   */
  lemma HalfYearlyEarlyMonthsFail(query: Date)
    requires IsValidDate(query.year, query.month, query.day) && 2 <= query.year <= 9998
    requires query.month < 6
    ensures NewQRelease2(query, 6) == Failure(BadDate(MonthOutOfRange))
  {
    var y, m := query.year, query.month;
    assert Reduce(m, 6) == 0;
    assert GetStartOfQuarter(6, y, m).Success? by {
      StartOfQuarterSpec(6, y, m);
    }
    assert GetStartOfQuarter(6, y, m - 1 * 6).Success? by {
      ReduceShift(m, 6, -1);
      assert m - 1 * 6 == m + 6 * -1;
      StartOfQuarterSpec(6, y, m - 1 * 6);
    }
    assert GetStartOfQuarter(6, y, m - 2 * 6) == Failure(BadDate(MonthOutOfRange)) by {
      ReduceShift(m, 6, -2);
      assert m - 2 * 6 == m + 6 * -2;
      StartOfQuarterSpec(6, y, m - 2 * 6);
    }
    assert QuarterStarts(query, 6) == Failure(BadDate(MonthOutOfRange));
  }

  /**
   * A yearly query always fails: one period back already reduces to -12 unless the
   * query is in December, and then two periods back does.
   */
  lemma YearlyAlwaysFails(query: Date)
    requires IsValidDate(query.year, query.month, query.day) && 2 <= query.year <= 9998
    ensures NewQRelease2(query, 12) == Failure(BadDate(MonthOutOfRange))
  {
    var y, m := query.year, query.month;
    StartOfQuarterSpec(12, y, m);
    ReduceShift(m, 12, -1);
    assert m - 1 * 12 == m + 12 * -1;
    StartOfQuarterSpec(12, y, m - 1 * 12);
    if m == 12 {
      assert Reduce(m, 12) == 12;
      ReduceShift(m, 12, -2);
      assert m - 2 * 12 == m + 12 * -2;
      StartOfQuarterSpec(12, y, m - 2 * 12);
    } else {
      assert Reduce(m, 12) == 0;
    }
  }

  /**
   * The window as evidently intended: the current release as before, and the others
   * one and two periods before it and one after it, by calendar arithmetic on the
   * current release rather than by snapping the raw query month once more.
   */
  function CalendarStarts(query: Date, every: int): Result<Starts, ReleaseError> {
    var cur :- GetStartOfQuarter(every, query.year, query.month);
    var ym := YearMonth(cur.year, cur.month);
    Gather(Success(cur), FirstOfMonth(AddMonths(ym, -every)),
           FirstOfMonth(AddMonths(ym, -2 * every)), FirstOfMonth(AddMonths(ym, every)))
  }

  /** The constructor with the window computed by calendar arithmetic. */
  function NewQRelease2Calendar(query: Date, every: int): (r: Result<QRelease2, ReleaseError>)
    requires IsValidDate(query.year, query.month, query.day)
    ensures r.Success? ==> r.value.queryDate == query && r.value.relPeriod == every
    ensures every == 0 ==> r == Failure(ZeroPeriod)
  {
    var s :- CalendarStarts(query, every);
    Success(Assemble(query, every, s))
  }

  /** Day 1 of a month up to two years before or one year after a month of the years 3..9998 is a valid date. */
  lemma NearbyMonthIsDate(cur: YearMonth, shift: int)
    requires 1 <= cur.month <= 12 && 3 <= cur.year <= 9998 && -24 <= shift <= 12
    ensures FirstOfMonth(AddMonths(cur, shift)) == Success(DayOne(AddMonths(cur, shift)))
  {
  }

  /**
   * With calendar arithmetic the window is built for every period of one to twelve months
   * and every query whose year leaves three years before it and one after it within the
   * range of a date.
   */
  lemma CalendarWindow(query: Date, every: int)
    requires 1 <= query.month <= 12 && 4 <= query.year <= 9998
    requires 0 < every <= 12
    ensures var cur := Snap(every, query.year, query.month);
            CalendarStarts(query, every) == Success(Starts(
              DayOne(cur), DayOne(AddMonths(cur, -every)),
              DayOne(AddMonths(cur, -2 * every)), DayOne(AddMonths(cur, every))))
  {
    var cur := Snap(every, query.year, query.month);
    StartOfQuarterSpec(every, query.year, query.month);
    assert YearMonth(cur.year, cur.month) == cur;
    NearbyMonthIsDate(cur, -every);
    NearbyMonthIsDate(cur, -2 * every);
    NearbyMonthIsDate(cur, every);
  }

  /** The corrected constructor always builds the intended window (for years 4 to 9998). */
  lemma CalendarAlwaysBuilds(query: Date, every: int)
    requires IsValidDate(query.year, query.month, query.day) && 4 <= query.year <= 9998
    requires 0 < every <= 12
    ensures NewQRelease2Calendar(query, every).Success?
    ensures var r := NewQRelease2Calendar(query, every).value;
            var cur := Snap(every, query.year, query.month);
            && r.current == MakeQuarter(DayOne(cur))
            && r.previous == MakeQuarter(DayOne(AddMonths(cur, -every)))
            && r.before == MakeQuarter(DayOne(AddMonths(cur, -2 * every)))
            && r.next == MakeQuarter(DayOne(AddMonths(cur, every)))
  {
    CalendarWindow(query, every);
  }

  /** Wherever the constructor as written succeeds, the corrected one builds the same object. */
  lemma CalendarAgrees(query: Date, every: int)
    requires IsValidDate(query.year, query.month, query.day) && 4 <= query.year <= 9998
    requires 0 < every <= 12
    requires NewQRelease2(query, every).Success?
    ensures NewQRelease2Calendar(query, every) == NewQRelease2(query, every)
  {
    Window(query, every);
    CalendarWindow(query, every);
    Assembled(query, every);
    WindowStartsFound(query, every);
    CurrentStart(query, every);
    PreviousStart(query, every);
    BeforeStart(query, every);
    NextStart(query, every);
  }
}
