/**
 * The first release calculator (class QRelease): from a start date it derives the
 * current, previous, two-back and next releases on a monthly or quarterly grid and
 * renders each as "YYYY.MM" and a short "YYMM" form.
 */
module ReleaseV1 {
  import opened Outcomes
  import opened Decimal
  import opened Calendar
  import opened Grid

  /** The release period in months: one for a monthly calendar, three otherwise. */
  function RelPeriod(monthly: bool): (p: int)
    ensures p == 1 <==> monthly
    ensures p == 3 <==> !monthly
  {
    if monthly then 1 else 3
  }

  /** Both periods divide the year. */
  lemma RelPeriodDividesYear(monthly: bool)
    ensures 0 < RelPeriod(monthly) < 12 && 12 % RelPeriod(monthly) == 0
  {
    if monthly {
      assert RelPeriod(monthly) == 1;
    } else {
      assert RelPeriod(monthly) == 3;
    }
  }

  /**
   * getYearMonth: the release (year, zero-padded month) that contains the given month.
   * The padded month reads back as a number, and only twelve months ever move between
   * the month and the year: back a year exactly when the reduced month is not positive,
   * forward a year exactly when it passes twelve. The month has two digits whenever the
   * one correction brings it into 1..12.
   */
  function GetYearMonth(period: int, year: int, month: int): (r: (int, string))
    requires period != 0
    ensures ParseInt(r.1).Some?
    ensures 12 * r.0 + ParseInt(r.1).value == 12 * year + Reduce(month, period)
    ensures year - 1 <= r.0 <= year + 1
    ensures r.0 == year - 1 <==> Reduce(month, period) <= 0
    ensures r.0 == year + 1 <==> Reduce(month, period) > 12
    ensures -11 <= Reduce(month, period) <= 24 ==> |r.1| == 2
  {
    var ym := Snap(period, year, month);
    Pad2RoundTrip(ym.month);
    assert 1 <= ym.month <= 12 ==> |Pad2(ym.month)| == 2 by {
      if 1 <= ym.month <= 12 { Pad2TwoDigits(ym.month); }
    }
    (ym.year, Pad2(ym.month))
  }

  /**
   * One neighbouring release as the constructor derives it: the current month string
   * is read back as a number, moved by k periods, zero-padded, and handed to
   * getYearMonth together with the current year.
   */
  function Shifted(period: int, year: int, mth: string, k: int): (r: (int, string))
    requires period != 0 && ParseInt(mth).Some?
    ensures ParseInt(r.1).Some?
    ensures 12 * r.0 + ParseInt(r.1).value == 12 * year + Reduce(ParseInt(mth).value + k * period, period)
  {
    var m := Pad2(ParseInt(mth).value + k * period);
    Pad2RoundTrip(ParseInt(mth).value + k * period);
    GetYearMonth(period, year, ParseInt(m).value)
  }

  /** The label is the year, a dot, then the month, and the part before the dot reads back as the year. */
  predicate SplitsAtDot(rel: string, year: int, month: string) {
    var n := |IntToString(year)|;
    |rel| == n + 1 + |month| && rel[n] == '.' && ParseInt(rel[..n]) == Some(year) && rel[n + 1..] == month
  }

  /**
   * getTuple: the "YYYY.MM" release label and its short form. The label splits at the
   * dot after the year back into the year and the month; from two digits on, the short
   * form is the year mod 100, zero-padded, followed by the month.
   */
  function GetTuple(year: int, month: string): (r: (string, string))
    ensures SplitsAtDot(r.0, year, month)
    ensures year >= 10 ==> r.1 == Pad2(year % 100) + month
  {
    var rel := IntToString(year) + "." + month;
    IntToStringRoundTrip(year);
    assert rel[..|IntToString(year)|] == IntToString(year);
    if year >= 10 then
      LastTwoDigits(year);
      (rel, TakeLast2(IntToString(year)) + month)
    else
      (rel, TakeLast2(IntToString(year)) + month)
  }

  /** A calendar month as a release: its year and its zero-padded month. */
  function AsRelease(ym: YearMonth): (int, string) {
    (ym.year, Pad2(ym.month))
  }

  /** The year, month string, label and short label of one release are those of ym. */
  predicate Describes(year: int, mth: string, rel: string, short: string, ym: YearMonth) {
    (year, mth) == AsRelease(ym) && (rel, short) == GetTuple(year, mth)
  }

  /**
   * The grid of each calendar: a monthly release is the start month itself; a quarterly
   * release falls in March, June, September or December, and January and February
   * belong to December of the previous year.
   */
  lemma RelPeriodGrid(monthly: bool, year: int, month: int)
    requires 1 <= month <= 12
    ensures monthly ==> Snap(RelPeriod(monthly), year, month) == YearMonth(year, month)
    ensures !monthly ==> Snap(RelPeriod(monthly), year, month).month in {3, 6, 9, 12}
    ensures !monthly && month <= 2 ==> Snap(RelPeriod(monthly), year, month) == YearMonth(year - 1, 12)
    ensures !monthly && month >= 3 ==> Snap(RelPeriod(monthly), year, month).year == year
  {
    RelPeriodDividesYear(monthly);
    SnapOfCalendarMonth(RelPeriod(monthly), year, month);
  }

  /** getYearMonth applied to its own result returns that result unchanged. */
  lemma GetYearMonthIdempotent(monthly: bool, year: int, month: int)
    requires 1 <= month <= 12
    ensures var p := RelPeriod(monthly);
            var r := GetYearMonth(p, year, month);
            GetYearMonth(p, r.0, ParseInt(r.1).value) == r
  {
    var p := RelPeriod(monthly);
    RelPeriodDividesYear(monthly);
    SnapOfCalendarMonth(p, year, month);
    SnapIdempotent(p, year, month);
    Pad2RoundTrip(Snap(p, year, month).month);
  }

  /**
   * A release month moved by up to two periods back or one forward and snapped again
   * is calendar addition of those periods, for every width that divides twelve other
   * than twelve itself.
   */
  lemma ShiftedRelease(p: int, cur: YearMonth, k: int)
    requires 0 < p < 12 && 12 % p == 0
    requires 1 <= cur.month <= 12 && cur.month % p == 0
    requires -2 <= k <= 1
    ensures Snap(p, cur.year, cur.month + p * k) == AddMonths(cur, p * k)
  {
    assert cur.month == p * (cur.month / p);
    MulAtLeast(p, cur.month / p);
    assert Reduce(cur.month, p) == cur.month;
    assert Snap(p, cur.year, cur.month) == cur;
    assert -2 * p <= p * k <= p by {
      if k == -2 {} else if k == -1 {} else if k == 0 {} else {}
    }
    SnapShift(p, cur.year, cur.month, k);
  }

  /** The month arithmetic of one neighbouring release, string round trip included. */
  lemma NeighbourRelease(p: int, cur: YearMonth, k: int, d: int)
    requires 0 < p < 12 && 12 % p == 0
    requires 1 <= cur.month <= 12 && cur.month % p == 0
    requires -2 <= k <= 1 && d == p * k
    ensures ParseInt(Pad2(cur.month + d)) == Some(cur.month + d)
    ensures GetYearMonth(p, cur.year, cur.month + d) == (AddMonths(cur, d).year, Pad2(AddMonths(cur, d).month))
    ensures Shifted(p, cur.year, Pad2(cur.month), k) == (AddMonths(cur, d).year, Pad2(AddMonths(cur, d).month))
  {
    Pad2RoundTrip(cur.month + d);
    ShiftedRelease(p, cur, k);
    Pad2RoundTrip(cur.month);
    ShiftedFromNumber(p, cur.year, Pad2(cur.month), cur.month, k, d);
  }

  /**
   * One neighbour in the window of the first calculator: computed from the current
   * month's string moved by k periods, it is k periods from the current release on
   * the calendar.
   */
  lemma WindowNeighbour(monthly: bool, year: int, month: int, k: int, d: int)
    requires 1 <= month <= 12 && -2 <= k <= 1 && d == RelPeriod(monthly) * k
    ensures var p := RelPeriod(monthly);
            var cur := Snap(p, year, month);
            var c := GetYearMonth(p, year, month);
            Shifted(p, c.0, c.1, k) == (AddMonths(cur, d).year, Pad2(AddMonths(cur, d).month))
  {
    var p := RelPeriod(monthly);
    var cur := Snap(p, year, month);
    var c := GetYearMonth(p, year, month);
    assert c == (cur.year, Pad2(cur.month)) by {
      CurrentRelease(monthly, year, month);
    }
    assert Shifted(p, c.0, c.1, k) == (AddMonths(cur, d).year, Pad2(AddMonths(cur, d).month)) by {
      CurrentRelease(monthly, year, month);
      NeighbourRelease(p, cur, k, d);
    }
  }

  /** The current release of a calendar month: a grid month, with its padded month string. */
  lemma CurrentRelease(monthly: bool, year: int, month: int)
    requires 1 <= month <= 12
    ensures var p := RelPeriod(monthly);
            var cur := Snap(p, year, month);
            && 0 < p < 12 && 12 % p == 0
            && 1 <= cur.month <= 12 && cur.month % p == 0
            && GetYearMonth(p, year, month) == (cur.year, Pad2(cur.month))
            && ParseInt(Pad2(cur.month)) == Some(cur.month)
  {
    var p := RelPeriod(monthly);
    RelPeriodDividesYear(monthly);
    SnapOfCalendarMonth(p, year, month);
    Pad2RoundTrip(Snap(p, year, month).month);
  }

  /** Shifted reads the month string back as the number m and moves it by d == k periods. */
  lemma ShiftedFromNumber(p: int, year: int, mth: string, m: int, k: int, d: int)
    requires p != 0 && ParseInt(mth) == Some(m) && d == k * p
    ensures Shifted(p, year, mth, k) == GetYearMonth(p, year, m + d)
  {
    Pad2RoundTrip(m + d);
  }

  /**
   * The window of the first calculator: for a calendar start month, the current release
   * reads back as its grid month, and the previous, two-back and next releases, each
   * computed from the current month's string minus or plus whole periods, are one and
   * two periods before it and one period after it on the calendar.
   */
  lemma ReleaseWindow(monthly: bool, year: int, month: int)
    requires 1 <= month <= 12
    ensures var p := RelPeriod(monthly);
            var cur := Snap(p, year, month);
            var c := GetYearMonth(p, year, month);
            && c == (cur.year, Pad2(cur.month))
            && ParseInt(c.1) == Some(cur.month)
            && Shifted(p, c.0, c.1, -1) == (AddMonths(cur, -p).year, Pad2(AddMonths(cur, -p).month))
            && Shifted(p, c.0, c.1, -2) == (AddMonths(cur, -2 * p).year, Pad2(AddMonths(cur, -2 * p).month))
            && Shifted(p, c.0, c.1, 1) == (AddMonths(cur, p).year, Pad2(AddMonths(cur, p).month))
  {
    var p := RelPeriod(monthly);
    Pad2RoundTrip(Snap(p, year, month).month);
    WindowNeighbour(monthly, year, month, -1, -p);
    WindowNeighbour(monthly, year, month, -2, -2 * p);
    WindowNeighbour(monthly, year, month, 1, p);
  }

  /**
   * The constructor's four releases (current, previous, two-back, next), each computed
   * as the constructor does it: the grid month of the start and its calendar neighbours.
   */
  function Releases(monthly: bool, year: int, month: int): (r: ((int, string), (int, string), (int, string), (int, string)))
    requires 1 <= month <= 12
    ensures var p := RelPeriod(monthly);
            var cur := Snap(p, year, month);
            && 1 <= cur.month <= 12 && cur.month % p == 0
            && MonthNumber(cur) <= MonthNumber(YearMonth(year, month)) < MonthNumber(cur) + p
            && r.0 == AsRelease(cur)
            && r.1 == AsRelease(AddMonths(cur, -p))
            && r.2 == AsRelease(AddMonths(cur, -2 * p))
            && r.3 == AsRelease(AddMonths(cur, p))
  {
    ReleaseWindow(monthly, year, month);
    RelPeriodDividesYear(monthly);
    SnapOfCalendarMonth(RelPeriod(monthly), year, month);
    var p := RelPeriod(monthly);
    var c := GetYearMonth(p, year, month);
    (c, Shifted(p, c.0, c.1, -1), Shifted(p, c.0, c.1, -2), Shifted(p, c.0, c.1, 1))
  }

  /** Moving a quarter month by whole quarters lands on a quarter month again. */
  lemma OnQuarterGrid(cur: YearMonth, d: int)
    requires 1 <= cur.month <= 12 && cur.month % 3 == 0 && d % 3 == 0
    ensures AddMonths(cur, d).month % 3 == 0
  {
    var r := AddMonths(cur, d);
    var a, b := cur.month / 3, d / 3;
    assert cur.month == 3 * a && d == 3 * b;
    ModUnique(r.month, 3, a + b + 4 * (cur.year - r.year), 0);
  }

  /** All four releases of the window are calendar months on the grid of the period. */
  lemma NeighboursOnGrid(monthly: bool, year: int, month: int)
    requires 1 <= month <= 12
    ensures var p := RelPeriod(monthly);
            var cur := Snap(p, year, month);
            && 1 <= cur.month <= 12 && cur.month % p == 0
            && 1 <= AddMonths(cur, -p).month <= 12 && AddMonths(cur, -p).month % p == 0
            && 1 <= AddMonths(cur, -2 * p).month <= 12 && AddMonths(cur, -2 * p).month % p == 0
            && 1 <= AddMonths(cur, p).month <= 12 && AddMonths(cur, p).month % p == 0
  {
    CurrentRelease(monthly, year, month);
    if !monthly {
      var cur := Snap(3, year, month);
      OnQuarterGrid(cur, -3);
      OnQuarterGrid(cur, -6);
      OnQuarterGrid(cur, 3);
    }
  }

  /**
   * For a four-digit year, the label is "YYYY.MM": it splits at the dot back into the
   * year and the month, and the short form is the label without century and dot.
   */
  lemma ReleaseLabel(year: int, month: int)
    requires 1000 <= year <= 9999 && 1 <= month <= 12
    ensures var (rel, short) := GetTuple(year, Pad2(month));
            |rel| == 7 && rel[4] == '.'
            && ParseInt(rel[..4]) == Some(year) && ParseInt(rel[5..]) == Some(month)
            && short == rel[2..4] + rel[5..]
  {
    var (rel, short) := GetTuple(year, Pad2(month));
    NatToStringLength(year);
    Pad2TwoDigits(month);
    IntToStringRoundTrip(year);
    Pad2RoundTrip(month);
    assert rel[..4] == IntToString(year);
    assert rel[5..] == Pad2(month);
  }

  /** A quarterly January: its release is last December, the previous one last September. */
  lemma QuarterlyJanuary(year: int)
    ensures Snap(3, year, 1) == YearMonth(year - 1, 12)
    ensures Snap(3, year - 1, 12 - 3) == YearMonth(year - 1, 9)
  {
  }

  /** One stored release: its year, zero-padded month, label and short label. */
  type Stored = (int, string, string, string)

  /**
   * The state the constructor stores for a start month: a positive period whose grid
   * month holds the start, and four releases (year, zero-padded month, label, short
   * label) describing that grid month and the calendar months one and two periods
   * before it and one period after it.
   */
  predicate HoldsWindow(startYear: int, startMonth: int, p: int, cur: Stored, prv: Stored, pp: Stored, nxt: Stored)
  {
    && p > 0
    && var c := Snap(p, startYear, startMonth);
    && 1 <= c.month <= 12 && c.month % p == 0
    && MonthNumber(c) <= MonthNumber(YearMonth(startYear, startMonth)) < MonthNumber(c) + p
    && Describes(cur.0, cur.1, cur.2, cur.3, c)
    && Describes(prv.0, prv.1, prv.2, prv.3, AddMonths(c, -p))
    && Describes(pp.0, pp.1, pp.2, pp.3, AddMonths(c, -2 * p))
    && Describes(nxt.0, nxt.1, nxt.2, nxt.3, AddMonths(c, p))
  }

  /** The constructor's state as a value: the period and the four labelled releases. */
  function StoredWindow(monthly: bool, startYear: int, startMonth: int): (r: (int, Stored, Stored, Stored, Stored))
    requires 1 <= startMonth <= 12
    ensures r.0 == RelPeriod(monthly)
    ensures HoldsWindow(startYear, startMonth, r.0, r.1, r.2, r.3, r.4)
  {
    var w := Releases(monthly, startYear, startMonth);
    var c, v, pp, n := GetTuple(w.0.0, w.0.1), GetTuple(w.1.0, w.1.1), GetTuple(w.2.0, w.2.1), GetTuple(w.3.0, w.3.1);
    (RelPeriod(monthly), (w.0.0, w.0.1, c.0, c.1), (w.1.0, w.1.1, v.0, v.1), (w.2.0, w.2.1, pp.0, pp.1), (w.3.0, w.3.1, n.0, n.1))
  }

  class QRelease {
    var relPeriod: int
    var curYear: int
    var curMth: string
    var curRel: string
    var curShort: string
    var prvYear: int
    var prvMth: string
    var prvRel: string
    var prvShort: string
    var ppYear: int
    var ppMth: string
    var ppRel: string
    var ppShort: string
    var nYear: int
    var nMth: string
    var nRel: string
    var nShort: string

    /**
     * The start date is a datetime, so its month is a calendar month. The current
     * release is the latest grid month not after the start; the previous, two-back and
     * next releases are one and two periods before it and one period after it.
     */
    constructor (startYear: int, startMonth: int, monthly: bool)
      requires MinYear <= startYear <= MaxYear && 1 <= startMonth <= 12
      ensures (relPeriod, (curYear, curMth, curRel, curShort), (prvYear, prvMth, prvRel, prvShort),
               (ppYear, ppMth, ppRel, ppShort), (nYear, nMth, nRel, nShort))
              == StoredWindow(monthly, startYear, startMonth)
    {
      var w := StoredWindow(monthly, startYear, startMonth);
      relPeriod := w.0;
      curYear, curMth, curRel, curShort := w.1.0, w.1.1, w.1.2, w.1.3;
      prvYear, prvMth, prvRel, prvShort := w.2.0, w.2.1, w.2.2, w.2.3;
      ppYear, ppMth, ppRel, ppShort := w.3.0, w.3.1, w.3.2, w.3.3;
      nYear, nMth, nRel, nShort := w.4.0, w.4.1, w.4.2, w.4.3;
    }
  }
}
