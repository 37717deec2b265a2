/** Calendar dates and times of day as MySQL's `DATE` and `TIME` columns
    hold them, with the date arithmetic the statistics queries use. */
module Dates {

  datatype Date = Date(year: int, month: int, day: int)

  datatype Time = Time(hour: int, minute: int, second: int)

  predicate IsLeapYear(y: int)
  {
    y % 4 == 0 && (y % 100 != 0 || y % 400 == 0)
  }

  /** `DAY(LAST_DAY(...))` for a month of the Gregorian calendar. */
  function DaysInMonth(y: int, m: int): (n: int)
    requires 1 <= m <= 12
    ensures 28 <= n <= 31
    ensures m == 2 ==> (n == 29 <==> IsLeapYear(y))
  {
    if m == 2 then (if IsLeapYear(y) then 29 else 28)
    else if m == 4 || m == 6 || m == 9 || m == 11 then 30
    else 31
  }

  predicate ValidDate(d: Date)
  {
    1 <= d.month <= 12 && 1 <= d.day <= DaysInMonth(d.year, d.month)
  }

  /** The chronological order of dates (lexicographic on year, month, day). */
  predicate DateLess(a: Date, b: Date)
  {
    || a.year < b.year
    || (a.year == b.year && a.month < b.month)
    || (a.year == b.year && a.month == b.month && a.day < b.day)
  }

  predicate DateAtMost(a: Date, b: Date)
  {
    DateLess(a, b) || a == b
  }

  /** Months counted from year 0, January being month 0. */
  function MonthIndex(y: int, m: int): int
  {
    y * 12 + (m - 1)
  }

  /** `DATE_SUB(d, INTERVAL n MONTH)`: the same day `n` months earlier,
      clamped to the last day of the target month when that month is
      shorter. */
  function SubMonths(d: Date, n: nat): (r: Date)
    requires ValidDate(d)
    ensures ValidDate(r)
    ensures MonthIndex(r.year, r.month) == MonthIndex(d.year, d.month) - n
    ensures r.day == if d.day <= DaysInMonth(r.year, r.month) then d.day
                     else DaysInMonth(r.year, r.month)
  {
    var total := MonthIndex(d.year, d.month) - n;
    var y, m := total / 12, total % 12 + 1;
    var last := DaysInMonth(y, m);
    Date(y, m, if d.day <= last then d.day else last)
  }

  /** `DATE_FORMAT(d, '%Y-%m-01')`: the first day of the month of `d`. */
  function FirstOfMonth(d: Date): (r: Date)
    requires ValidDate(d)
    ensures ValidDate(r) && r.day == 1
  {
    Date(d.year, d.month, 1)
  }

  /** Moving `n` months back and clamping never lands after the original
      date, and lands strictly before it when `n > 0`. */
  lemma {:induction false} SubMonthsBefore(d: Date, n: nat)
    requires ValidDate(d)
    ensures n > 0 ==> DateLess(SubMonths(d, n), d)
    ensures n == 0 ==> SubMonths(d, n) == d
  {
    var r := SubMonths(d, n);
    if n > 0 {
      assert MonthIndex(r.year, r.month) < MonthIndex(d.year, d.month);
      MonthIndexOrder(r.year, r.month, d.year, d.month);
    } else {
      assert MonthIndex(r.year, r.month) == MonthIndex(d.year, d.month);
      MonthIndexInjective(r.year, r.month, d.year, d.month);
    }
  }

  lemma {:induction false} MonthIndexInjective(y1: int, m1: int, y2: int, m2: int)
    requires 1 <= m1 <= 12 && 1 <= m2 <= 12
    requires MonthIndex(y1, m1) == MonthIndex(y2, m2)
    ensures y1 == y2 && m1 == m2
  {
    MonthIndexOrder(y1, m1, y2, m2);
    MonthIndexOrder(y2, m2, y1, m1);
  }

  /** Month-index order agrees with the order of (year, month) pairs. */
  lemma {:induction false} MonthIndexOrder(y1: int, m1: int, y2: int, m2: int)
    requires 1 <= m1 <= 12 && 1 <= m2 <= 12
    ensures MonthIndex(y1, m1) < MonthIndex(y2, m2) <==> (y1 < y2 || (y1 == y2 && m1 < m2))
  {
    if y1 < y2 {
      assert MonthIndex(y1, m1) < y1 * 12 + 12 <= y2 * 12;
    } else if y1 > y2 {
      assert MonthIndex(y2, m2) < y2 * 12 + 12 <= y1 * 12;
    }
  }

  /** The window `[first day of last month, first day of this month)` that
      the month-over-month comparison uses holds exactly the dates of the
      calendar month before `today`. */
  lemma {:induction false} PreviousMonthWindow(today: Date, f: Date)
    requires ValidDate(today) && ValidDate(f)
    ensures var lo := SubMonths(FirstOfMonth(today), 1);
      (DateAtMost(lo, f) && DateLess(f, FirstOfMonth(today)))
      <==> MonthIndex(f.year, f.month) == MonthIndex(today.year, today.month) - 1
  {
    var first := FirstOfMonth(today);
    var lo := SubMonths(first, 1);
    assert lo.day == 1;
    MonthIndexOrder(lo.year, lo.month, f.year, f.month);
    MonthIndexOrder(f.year, f.month, today.year, today.month);
    MonthIndexOrder(lo.year, lo.month, today.year, today.month);
    if MonthIndex(f.year, f.month) == MonthIndex(today.year, today.month) - 1 {
      MonthIndexInjective(f.year, f.month, lo.year, lo.month);
    }
    if DateAtMost(lo, f) && DateLess(f, first) {
      if !DateLess(lo, f) {
        assert lo == f;
      }
    }
  }

  /** Times of day in chronological order. */
  predicate TimeLess(a: Time, b: Time)
  {
    || a.hour < b.hour
    || (a.hour == b.hour && a.minute < b.minute)
    || (a.hour == b.hour && a.minute == b.minute && a.second < b.second)
  }
}
