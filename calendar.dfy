/**
 * Proleptic Gregorian calendar dates (full-date of RFC 3339, section 5.6, with
 * the day/month/leap-year limits of section 5.7) and their conversion to a day
 * ordinal, the number of days since 0000-01-01.  The ordinal is what the daily
 * series is indexed by: consecutive ordinals are consecutive calendar days.
 */
module Calendar {

  datatype Date = Date(year: int, month: int, day: int)

  /** Four-digit years only: 0000 through 9999. */
  const YearLimit: nat := 10000

  /** Number of days from 0000-01-01 to 10000-01-01; every valid date's ordinal is below it. */
  const DayLimit: nat := 3652425

  predicate IsLeapYear(y: int) {
    y % 4 == 0 && (y % 100 != 0 || y % 400 == 0)
  }

  function DaysInMonth(y: int, m: int): (n: int)
    requires 1 <= m <= 12
    ensures 28 <= n <= 31
  {
    if m == 2 then (if IsLeapYear(y) then 29 else 28)
    else if m == 4 || m == 6 || m == 9 || m == 11 then 30
    else 31
  }

  predicate ValidDate(d: Date) {
    0 <= d.year < YearLimit && 1 <= d.month <= 12 && 1 <= d.day <= DaysInMonth(d.year, d.month)
  }

  function YearLength(y: int): nat {
    if IsLeapYear(y) then 366 else 365
  }

  /** Days in the years 0 .. y-1. */
  function DaysBeforeYear(y: nat): nat {
    if y == 0 then 0 else DaysBeforeYear(y - 1) + YearLength(y - 1)
  }

  /** Days in the months 1 .. m-1 of year y. */
  function DaysBeforeMonth(y: int, m: int): nat
    requires 1 <= m <= 12
  {
    var common :=
      if m == 1 then 0 else if m == 2 then 31 else if m == 3 then 59
      else if m == 4 then 90 else if m == 5 then 120 else if m == 6 then 151
      else if m == 7 then 181 else if m == 8 then 212 else if m == 9 then 243
      else if m == 10 then 273 else if m == 11 then 304 else 334;
    common + (if m > 2 && IsLeapYear(y) then 1 else 0)
  }

  /** The months of a year tile it: month m ends where month m+1 starts, and December ends with the year. */
  lemma MonthsTileYear(y: int, m: int)
    requires 1 <= m <= 12
    ensures m < 12 ==> DaysBeforeMonth(y, m + 1) == DaysBeforeMonth(y, m) + DaysInMonth(y, m)
    ensures m == 12 ==> DaysBeforeMonth(y, m) + DaysInMonth(y, m) == YearLength(y)
  {
  }

  lemma MonthEndsWithinYear(y: int, m: int)
    requires 1 <= m <= 12
    ensures DaysBeforeMonth(y, m) + DaysInMonth(y, m) <= YearLength(y)
  {
  }

  /** Months in order occupy disjoint, increasing ranges of the year. */
  lemma MonthsOrdered(y: int, m1: int, m2: int)
    requires 1 <= m1 < m2 <= 12
    ensures DaysBeforeMonth(y, m1) + DaysInMonth(y, m1) <= DaysBeforeMonth(y, m2)
  {
  }

  lemma {:induction false} DaysBeforeYearMonotone(a: nat, b: nat)
    requires a <= b
    ensures DaysBeforeYear(a) <= DaysBeforeYear(b)
    ensures a < b ==> DaysBeforeYear(a) + YearLength(a) <= DaysBeforeYear(b)
    decreases b - a
  {
    if a < b {
      DaysBeforeYearMonotone(a, b - 1);
    }
  }

  /** The closed form of DaysBeforeYear: 365 days a year plus one per leap year 0, 4, 8, ... that is not a skipped century. */
  function LeapDaysBefore(y: nat): nat {
    (y + 3) / 4 - (y + 99) / 100 + (y + 399) / 400
  }

  lemma QuarterStep(p: nat)
    ensures (p + 4) / 4 - (p + 3) / 4 == (if p % 4 == 0 then 1 else 0)
  {
  }

  lemma CenturyStep(p: nat)
    ensures (p + 100) / 100 - (p + 99) / 100 == (if p % 100 == 0 then 1 else 0)
  {
  }

  lemma QuadricentennialStep(p: nat)
    ensures (p + 400) / 400 - (p + 399) / 400 == (if p % 400 == 0 then 1 else 0)
  {
  }

  /** Every fourth century is a century, and every century is a fourth year. */
  lemma DivisorChain(p: nat)
    ensures p % 400 == 0 ==> p % 100 == 0
    ensures p % 100 == 0 ==> p % 4 == 0
  {
    if p % 400 == 0 {
      var q := p / 400;
      assert p == 100 * (4 * q);
    }
    if p % 100 == 0 {
      var q := p / 100;
      assert p == 4 * (25 * q);
    }
  }

  /** Passing year p adds one leap day exactly when p is a leap year. */
  lemma LeapDaysStep(p: nat)
    ensures LeapDaysBefore(p + 1) == LeapDaysBefore(p) + (if IsLeapYear(p) then 1 else 0)
  {
    var a, b, c := p % 4 == 0, p % 100 == 0, p % 400 == 0;
    QuarterStep(p);
    CenturyStep(p);
    QuadricentennialStep(p);
    DivisorChain(p);
    assert IsLeapYear(p) == (a && (!b || c));
    assert LeapDaysBefore(p + 1) == (p + 4) / 4 - (p + 100) / 100 + (p + 400) / 400;
  }

  lemma {:induction false} DaysBeforeYearClosedForm(y: nat)
    ensures DaysBeforeYear(y) == 365 * y + LeapDaysBefore(y)
  {
    if y > 0 {
      DaysBeforeYearClosedForm(y - 1);
      LeapDaysStep(y - 1);
    }
  }

  lemma DayLimitIsEndOfYear9999()
    ensures DaysBeforeYear(YearLimit) == DayLimit
  {
    DaysBeforeYearClosedForm(YearLimit);
  }

  /** The day ordinal of a date: days elapsed since 0000-01-01. */
  function Ordinal(d: Date): (n: nat)
    requires ValidDate(d)
    ensures DaysBeforeYear(d.year) <= n < DaysBeforeYear(d.year) + YearLength(d.year)
    ensures n < DayLimit
  {
    MonthEndsWithinYear(d.year, d.month);
    DaysBeforeYearMonotone(d.year, YearLimit);
    DayLimitIsEndOfYear9999();
    DaysBeforeYear(d.year) + DaysBeforeMonth(d.year, d.month) + d.day - 1
  }

  /** Finds the year holding day n counted from the start of year y, and the day's offset within that year. */
  function LocateYear(n: nat, y: nat): (p: (nat, nat))
    ensures p.0 >= y && p.1 < YearLength(p.0)
    ensures DaysBeforeYear(p.0) + p.1 == DaysBeforeYear(y) + n
    decreases n
  {
    if n < YearLength(y) then (y, n) else LocateYear(n - YearLength(y), y + 1)
  }

  /** Finds, among the months 1 .. m of year y, the last one starting at or before day r of the year. */
  function LocateMonth(y: int, r: nat, m: int): (k: int)
    requires 1 <= m <= 12
    ensures 1 <= k <= m && DaysBeforeMonth(y, k) <= r
    ensures r < DaysBeforeMonth(y, m) + DaysInMonth(y, m) ==> r < DaysBeforeMonth(y, k) + DaysInMonth(y, k)
    decreases m
  {
    if m == 1 || DaysBeforeMonth(y, m) <= r then m
    else
      MonthsTileYear(y, m - 1);
      LocateMonth(y, r, m - 1)
  }

  /** The date whose ordinal is n: the inverse of Ordinal. */
  function FromOrdinal(n: nat): (d: Date)
    requires n < DayLimit
    ensures ValidDate(d) && Ordinal(d) == n
  {
    DayLimitIsEndOfYear9999();
    var (y, r) := LocateYear(n, 0);
    if y >= YearLimit then
      DaysBeforeYearMonotone(YearLimit, y);
      assert false;
      Date(0, 1, 1)
    else
      MonthsTileYear(y, 12);
      var m := LocateMonth(y, r, 12);
      Date(y, m, r - DaysBeforeMonth(y, m) + 1)
  }

  /** Distinct valid dates have distinct ordinals. */
  lemma OrdinalInjective(d1: Date, d2: Date)
    requires ValidDate(d1) && ValidDate(d2)
    requires Ordinal(d1) == Ordinal(d2)
    ensures d1 == d2
  {
    if d1.year < d2.year {
      DaysBeforeYearMonotone(d1.year, d2.year);
      assert false;
    } else if d2.year < d1.year {
      DaysBeforeYearMonotone(d2.year, d1.year);
      assert false;
    } else if d1.month < d2.month {
      MonthsOrdered(d1.year, d1.month, d2.month);
      assert false;
    } else if d2.month < d1.month {
      MonthsOrdered(d1.year, d2.month, d1.month);
      assert false;
    }
  }

  /** Converting a date to its ordinal and back gives the date again. */
  lemma OrdinalRoundTrip(d: Date)
    requires ValidDate(d)
    ensures FromOrdinal(Ordinal(d)) == d
  {
    OrdinalInjective(FromOrdinal(Ordinal(d)), d);
  }

  /** The calendar day after d: the next day of the month, else the first of the next month, else New Year. */
  function NextDay(d: Date): Date
    requires ValidDate(d)
  {
    if d.day < DaysInMonth(d.year, d.month) then Date(d.year, d.month, d.day + 1)
    else if d.month < 12 then Date(d.year, d.month + 1, 1)
    else Date(d.year + 1, 1, 1)
  }

  /** The day after a date (other than 9999-12-31) is a valid date whose ordinal is one more. */
  lemma NextDayOrdinal(d: Date)
    requires ValidDate(d) && d != Date(YearLimit - 1, 12, 31)
    ensures ValidDate(NextDay(d)) && Ordinal(NextDay(d)) == Ordinal(d) + 1
  {
    if d.day == DaysInMonth(d.year, d.month) {
      MonthsTileYear(d.year, d.month);
    }
  }

  /** 9999-12-31, the last representable date, has the last ordinal. */
  lemma LastDateOrdinal()
    ensures ValidDate(Date(YearLimit - 1, 12, 31)) && Ordinal(Date(YearLimit - 1, 12, 31)) == DayLimit - 1
  {
    DayLimitIsEndOfYear9999();
    assert DaysBeforeYear(YearLimit) == DaysBeforeYear(YearLimit - 1) + YearLength(YearLimit - 1);
  }

  /** Consecutive ordinals name consecutive calendar days. */
  lemma FromOrdinalSucc(n: nat)
    requires n + 1 < DayLimit
    ensures FromOrdinal(n + 1) == NextDay(FromOrdinal(n))
  {
    var d := FromOrdinal(n);
    LastDateOrdinal();
    hide *;
    assert d != Date(YearLimit - 1, 12, 31);
    NextDayOrdinal(d);
    OrdinalInjective(FromOrdinal(n + 1), NextDay(d));
  }
}
