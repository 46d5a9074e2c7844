/**
 * The release grid shared by both revisions of the release calculator: a month is
 * reduced with `m - (m % p)` and the year is then corrected once by twelve months.
 */
module Grid {
  import opened Calendar

  lemma MulAtLeast(p: int, k: int)
    requires p > 0 && k >= 1
    ensures p * k >= p
  {
    assert p * k == p * (k - 1) + p;
    if k > 1 {
      MulAtLeast(p, k - 1);
    }
  }

  /** Euclidean division has one quotient and one remainder. */
  lemma ModUnique(x: int, p: int, q: int, r: int)
    requires p > 0 && 0 <= r < p && x == p * q + r
    ensures x % p == r && x / p == q
  {
    var q0, r0 := x / p, x % p;
    assert p * (q - q0) == r0 - r;
    if q > q0 {
      MulAtLeast(p, q - q0);
      assert false;
    } else if q < q0 {
      assert p * (q0 - q) == r - r0;
      MulAtLeast(p, q0 - q);
      assert false;
    }
  }

  /** Adding whole multiples of p does not change the remainder modulo p. */
  lemma ModShift(x: int, p: int, k: int)
    requires p > 0
    ensures (x + p * k) % p == x % p
  {
    assert x + p * k == p * (x / p + k) + x % p;
    ModUnique(x + p * k, p, x / p + k, x % p);
  }

  /** Python's `a % b`: the remainder takes the sign of the divisor (Dafny's is never negative). */
  function PyMod(a: int, b: int): (r: int)
    requires b != 0
    ensures b > 0 ==> r == a % b && 0 <= r < b
    ensures b < 0 ==> b < r <= 0 && (a - r) % -b == 0
  {
    if b > 0 || a % b == 0 then a % b
    else
      assert (a - (a % b + b)) % -b == 0 by {
        assert a % b == a % -b;
        assert a - (a % b + b) == -b * (a / -b + 1);
        ModShift(0, -b, a / -b + 1);
      }
      a % b + b
  }

  /** `m - (m % p)`: for a positive p, the largest multiple of p that is not above m. */
  function Reduce(m: int, p: int): (s: int)
    requires p != 0
    ensures p > 0 ==> s % p == 0 && s <= m < s + p
    ensures p < 0 ==> s % -p == 0 && m <= s < m - p
  {
    if p > 0 then
      assert m - m % p == p * (m / p);
      ModShift(0, p, m / p);
      m - PyMod(m, p)
    else
      m - PyMod(m, p)
  }

  /**
   * The body shared by `getYearMonth` and `getStartOfQuarter`: reduce the month onto
   * the grid, then correct it once, moving a month at or below zero into the previous
   * year and a month above twelve into the next one.
   */
  function Snap(p: int, year: int, month: int): (r: YearMonth)
    requires p != 0
    ensures 12 * r.year + r.month == 12 * year + Reduce(month, p)
    ensures year - 1 <= r.year <= year + 1
    ensures r.year == year - 1 <==> Reduce(month, p) <= 0
    ensures r.year == year + 1 <==> Reduce(month, p) > 12
    ensures 1 <= r.month <= 12 <==> -11 <= Reduce(month, p) <= 24
  {
    var s := Reduce(month, p);
    var (y1, m1) := if s <= 0 then (year - 1, s + 12) else (year, s);
    if m1 > 12 then YearMonth(y1 + 1, m1 - 12) else YearMonth(y1, m1)
  }

  /**
   * For a width that divides twelve and a calendar month, the grid month is the latest
   * month not after the query whose number is a multiple of the width; January before
   * the first grid month falls back to December of the previous year.
   */
  lemma SnapOfCalendarMonth(p: int, year: int, month: int)
    requires 0 < p && 12 % p == 0 && 1 <= month <= 12
    ensures 1 <= Snap(p, year, month).month <= 12
    ensures Snap(p, year, month).month % p == 0
    ensures MonthNumber(Snap(p, year, month)) <= MonthNumber(YearMonth(year, month)) < MonthNumber(Snap(p, year, month)) + p
    ensures month < p ==> Snap(p, year, month) == YearMonth(year - 1, 12)
    ensures month >= p ==> Snap(p, year, month).year == year
  {
    var s := Reduce(month, p);
    assert s == p * (month / p);
    assert month / p >= 0;
    assert s >= 0 by {
      if month / p > 0 {
        MulAtLeast(p, month / p);
      }
    }
    if s == 0 {
      assert 12 == p * (12 / p);
      ModShift(0, p, 12 / p);
    }
  }

  /** A grid month that is already a calendar month is its own grid month. */
  lemma SnapIdempotent(p: int, year: int, month: int)
    requires 0 < p && 12 % p == 0
    requires 1 <= Snap(p, year, month).month <= 12
    ensures Snap(p, Snap(p, year, month).year, Snap(p, year, month).month) == Snap(p, year, month)
  {
    var r := Snap(p, year, month);
    var s := Reduce(month, p);
    assert 12 == p * (12 / p);
    ModShift(s, p, 12 / p);
    ModShift(s, p, -(12 / p));
    assert r.month % p == 0;
  }

  /** Reducing a month moved by whole widths moves the grid month by the same amount. */
  lemma ReduceShift(m: int, p: int, k: int)
    requires p > 0
    ensures Reduce(m + p * k, p) == Reduce(m, p) + p * k
  {
    ModShift(m, p, k);
  }

  /**
   * Snapping a query month moved by k widths is calendar addition of k widths to the
   * query's own grid month, as long as the one correction suffices.
   */
  lemma SnapShift(p: int, year: int, month: int, k: int)
    requires p > 0
    requires -11 <= Reduce(month, p) + p * k <= 24
    requires -11 <= Reduce(month, p) <= 24
    ensures Snap(p, year, month + p * k) == AddMonths(Snap(p, year, month), p * k)
  {
    ReduceShift(month, p, k);
    var a := Snap(p, year, month + p * k);
    var b := AddMonths(Snap(p, year, month), p * k);
    assert MonthNumber(a) == MonthNumber(b);
    MonthNumberRoundTrip(a);
    MonthNumberRoundTrip(b);
  }
}
