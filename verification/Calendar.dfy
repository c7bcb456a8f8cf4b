/** rlibc/time/mktime.c and rlibc/time/gmtime.c.

    The reference is a calendar that only counts: a year is as long as its months, a date is the number of days
    before it.  Years are full years (1970), months 0 .. 11, days of the month from 1. */
module Calendar {
  import opened Arith

  predicate IsLeap(y: int) { (y % 4 == 0 && y % 100 != 0) || y % 400 == 0 }

  /** The table `mdays`. */
  function MDays(leap: bool, m: int): int
    requires 0 <= m < 12
  {
    if m == 1 then if leap then 29 else 28
    else if m == 3 || m == 5 || m == 8 || m == 10 then 30 else 31
  }

  // ---------------------------------------------------------------- the reference

  /** Days of the year before month m, by adding up months. */
  function DaysBeforeMonth(leap: bool, m: int): int
    requires 0 <= m <= 12
    decreases m
  {
    if m == 0 then 0 else DaysBeforeMonth(leap, m - 1) + MDays(leap, m - 1)
  }

  function YearLength(y: int): int { if IsLeap(y) then 366 else 365 }

  /** A year is as long as its months together. */
  lemma YearIsItsMonths(y: int)
    ensures YearLength(y) == DaysBeforeMonth(IsLeap(y), 12)
  {
    MonthTable(IsLeap(y));
  }

  /** Days before January 1st of year y, counted from January 1st of year 1, by adding up years. */
  function DaysBeforeYear(y: int): int
    requires y >= 1
    decreases y
  {
    if y == 1 then 0 else DaysBeforeYear(y - 1) + YearLength(y - 1)
  }

  /** Days before 1970. */
  const EPOCH_DAYS: int := 719162

  /** Days since the Epoch. */
  function DayNumber(y: int, m: int, d: int): int
    requires y >= 1 && 0 <= m <= 12
  {
    DaysBeforeYear(y) - EPOCH_DAYS + DaysBeforeMonth(IsLeap(y), m) + d - 1
  }

  predicate ValidDate(y: int, m: int, d: int) { y >= 1 && 0 <= m < 12 && 1 <= d <= MDays(IsLeap(y), m) }

  // ---------------------------------------------------------------- closed forms

  function LeapsThrough(y: int): int { y / 4 - y / 100 + y / 400 }

  /** The months of a year, added up. */
  lemma MonthTable(leap: bool)
    ensures DaysBeforeMonth(leap, 0) == 0 && DaysBeforeMonth(leap, 1) == 31
    ensures var x := if leap then 1 else 0;
            && DaysBeforeMonth(leap, 2) == 59 + x && DaysBeforeMonth(leap, 3) == 90 + x
            && DaysBeforeMonth(leap, 4) == 120 + x && DaysBeforeMonth(leap, 5) == 151 + x
            && DaysBeforeMonth(leap, 6) == 181 + x && DaysBeforeMonth(leap, 7) == 212 + x
            && DaysBeforeMonth(leap, 8) == 243 + x && DaysBeforeMonth(leap, 9) == 273 + x
            && DaysBeforeMonth(leap, 10) == 304 + x && DaysBeforeMonth(leap, 11) == 334 + x
            && DaysBeforeMonth(leap, 12) == 365 + x
  {
    assert DaysBeforeMonth(leap, 3) == DaysBeforeMonth(leap, 2) + 31;
    assert DaysBeforeMonth(leap, 6) == DaysBeforeMonth(leap, 5) + 30;
    assert DaysBeforeMonth(leap, 9) == DaysBeforeMonth(leap, 8) + 30;
  }

  /** Adding one leap day every fourth year but not every hundredth, but every four hundredth. */
  lemma LeapStep(y: int)
    ensures LeapsThrough(y) == LeapsThrough(y - 1) + if IsLeap(y) then 1 else 0
  {
    QuotientStep(y, 4);
    QuotientStep(y, 100);
    QuotientStep(y, 400);
    assert y % 400 == 0 ==> y % 100 == 0 by { if y % 400 == 0 { DivModUnique(y, 100, 4 * (y / 400), 0); } }
    assert y % 100 == 0 ==> y % 4 == 0 by { if y % 100 == 0 { DivModUnique(y, 4, 25 * (y / 100), 0); } }
  }

  lemma QuotientStep(y: int, k: int)
    requires k > 1
    ensures y / k == (y - 1) / k + if y % k == 0 then 1 else 0
  {
    if y % k == 0 {
      DivModUnique(y - 1, k, y / k - 1, k - 1);
    } else {
      DivModUnique(y - 1, k, y / k, y % k - 1);
    }
  }

  lemma {:induction false} YearClosed(y: int)
    requires y >= 1
    ensures DaysBeforeYear(y) == 365 * (y - 1) + LeapsThrough(y - 1)
    decreases y
  {
    if y > 1 {
      YearClosed(y - 1);
      LeapStep(y - 1);
    }
  }

  /** Day 0 is January 1st, 1970. */
  lemma EpochDaysRight(y: int)
    requires y >= 1
    ensures y == 1970 ==> DaysBeforeYear(y) == EPOCH_DAYS
  {
    YearClosed(y);
    assert LeapsThrough(1969) == 477;
  }

  // ---------------------------------------------------------------- order

  lemma {:induction false} YearOrder(y: int, z: int)
    requires 1 <= y < z
    ensures DaysBeforeYear(y) + YearLength(y) <= DaysBeforeYear(z)
    decreases z
  {
    if y + 1 < z {
      YearOrder(y, z - 1);
    }
  }

  lemma {:induction false} MonthOrder(leap: bool, m: int, n: int)
    requires 0 <= m < n <= 12
    ensures DaysBeforeMonth(leap, m) + MDays(leap, m) <= DaysBeforeMonth(leap, n)
    decreases n
  {
    if m + 1 < n {
      MonthOrder(leap, m, n - 1);
    }
  }

  /** A date lies inside its year. */
  lemma InsideYear(y: int, m: int, d: int)
    requires ValidDate(y, m, d)
    ensures DaysBeforeYear(y) - EPOCH_DAYS <= DayNumber(y, m, d) < DaysBeforeYear(y) - EPOCH_DAYS + YearLength(y)
  {
    var leap, n := IsLeap(y), 12;
    YearIsItsMonths(y);
    MonthOrder(leap, m, n);
    if m > 0 {
      MonthOrder(leap, 0, m);
    }
  }

  /** A day number is the number of at most one valid date. */
  lemma DateUnique(y: int, m: int, d: int, y': int, m': int, d': int)
    requires ValidDate(y, m, d) && ValidDate(y', m', d') && DayNumber(y, m, d) == DayNumber(y', m', d')
    ensures y == y' && m == m' && d == d'
  {
    InsideYear(y, m, d);
    InsideYear(y', m', d');
    if y < y' {
      YearOrder(y, y');
    } else if y' < y {
      YearOrder(y', y);
    } else if m < m' {
      MonthOrder(IsLeap(y), m, m');
    } else if m' < m {
      MonthOrder(IsLeap(y), m', m);
    }
  }

  // ---------------------------------------------------------------- get_dow

  function DowTable(m: int): int
    requires 0 <= m < 12
  {
    [0, 3, 2, 5, 0, 3, 5, 1, 4, 6, 2, 4][m]
  }

  /** `get_dow`; all operands are non-negative, so C's operators agree with these. */
  function GetDow(y0: int, m: int, d: int): int
    requires y0 >= 1 && 0 <= m < 12 && d >= 1
  {
    var y := if m < 2 then y0 - 1 else y0;
    (y + y / 4 - y / 100 + y / 400 + DowTable(m) + d) % 7
  }

  /** The weekday formula counts days: the Epoch was a Thursday. */
  lemma GetDowCounts(y: int, m: int, d: int)
    requires y >= 1 && 0 <= m < 12 && d >= 1
    ensures GetDow(y, m, d) == (4 + DayNumber(y, m, d)) % 7
  {
    YearClosed(y);
    LeapStep(y);
    var x := if m < 2 then y - 1 else y;
    var sum := x + LeapsThrough(x) + DowTable(m) + d;
    var k := WeeksApart(y, m);
    WeeksRight(IsLeap(y), y, m);
    DivModUnique(sum + 7 * k, 7, sum / 7 + k, sum % 7);
  }

  /** Whole weeks between the formula and the count. */
  function WeeksApart(y: int, m: int): int
    requires 0 <= m < 12
  {
    52 * (y - 1) - 102737 + [0, 4, 8, 12, 17, 21, 25, 30, 34, 38, 43, 47][m]
  }

  /** Month by month, the table of the formula agrees with the lengths of the months up to whole weeks. */
  lemma WeeksRight(leap: bool, y: int, m: int)
    requires 0 <= m < 12
    ensures 365 * (y - 1) - EPOCH_DAYS + DaysBeforeMonth(leap, m) + 3
            == (if m < 2 then y - 1 else y + if leap then 1 else 0) + DowTable(m) + 7 * WeeksApart(y, m)
  {
    MonthTable(leap);
  }
}
