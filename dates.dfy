/**
 * Proleptic Gregorian calendar arithmetic, as the components use it through JavaScript's local `Date`:
 * a date is (full year, month index 0..11, day of month), the weekday numbering is 0 = Sunday .. 6 = Saturday,
 * and `new Date(y, m, d)` rolls out-of-range months and days into neighbouring months and years.
 */
module Dates {

  /** A date as `getFullYear()`, `getMonth()` and `getDate()` report it. */
  datatype Date = Date(year: int, month: int, day: int)

  predicate IsLeapYear(y: int) {
    y % 4 == 0 && (y % 100 != 0 || y % 400 == 0)
  }

  /** Length of month `m` (0 = January) of year `y`. */
  function DaysInMonth(y: int, m: int): (n: int)
    requires 0 <= m < 12
    ensures 28 <= n <= 31
    ensures m == 1 ==> (n == 29 <==> IsLeapYear(y))
    ensures m == 1 ==> (n == 28 <==> !IsLeapYear(y))
    ensures m != 1 ==> (n == 30 <==> m in {3, 5, 8, 10})
  {
    if m == 1 then (if IsLeapYear(y) then 29 else 28)
    else if m == 3 || m == 5 || m == 8 || m == 10 then 30
    else 31
  }

  /** A date that names an actual day of the calendar. */
  predicate Valid(d: Date) {
    0 <= d.month < 12 && 1 <= d.day <= DaysInMonth(d.year, d.month)
  }

  /** Number of leap years in [0, y); negative when y < 0, so that differences stay exact. */
  function LeapYearsBefore(y: int): int {
    (y + 3) / 4 - (y + 99) / 100 + (y + 399) / 400
  }

  /** Days from 0000-01-01 to the first of January of year `y`. */
  function DaysBeforeYear(y: int): int {
    365 * y + LeapYearsBefore(y)
  }

  /** Days from the first of January to the first of month `m`. */
  function DaysBeforeMonth(y: int, m: int): int
    requires 0 <= m < 12
  {
    [0, 31, 59, 90, 120, 151, 181, 212, 243, 273, 304, 334][m] + (if m > 1 && IsLeapYear(y) then 1 else 0)
  }

  /** Days from 1970-01-01 (the JavaScript epoch) to day `d` of month `m` of year `y`; `d` may be out of range. */
  function DayNumber(y: int, m: int, d: int): int
    requires 0 <= m < 12
  {
    DaysBeforeYear(y) + DaysBeforeMonth(y, m) + d - 1 - 719528
  }

  /** A date's position on the time line, in days; JavaScript's `getTime()` at local midnight, divided by a day. */
  function Time(d: Date): int
    requires 0 <= d.month < 12
  {
    DayNumber(d.year, d.month, d.day)
  }

  /** `getDay()`: 0 = Sunday .. 6 = Saturday; 1970-01-01 was a Thursday. */
  function Weekday(d: Date): (w: int)
    requires 0 <= d.month < 12
    ensures 0 <= w < 7
  {
    (Time(d) + 4) % 7
  }

  /** `getMonthIndexValue`: months counted from January of year 0. */
  function MonthIndexValue(y: int, m: int): int {
    y * 12 + m
  }

  /** Days from the epoch to the first day of the month whose month index is `mi`. */
  function FirstDayOf(mi: int): int {
    DayNumber(mi / 12, mi % 12, 1)
  }

  function DaysInMonthIndex(mi: int): (n: int)
    ensures 28 <= n <= 31
  {
    DaysInMonth(mi / 12, mi % 12)
  }

  lemma LeapYearsStep(y: int)
    ensures LeapYearsBefore(y + 1) == LeapYearsBefore(y) + (if IsLeapYear(y) then 1 else 0)
  {
    assert (y + 4) / 4 == (y + 3) / 4 + (if y % 4 == 0 then 1 else 0);
    assert (y + 100) / 100 == (y + 99) / 100 + (if y % 100 == 0 then 1 else 0);
    assert (y + 400) / 400 == (y + 399) / 400 + (if y % 400 == 0 then 1 else 0);
  }

  /** A year has 365 days, or 366 when it is a leap year. */
  lemma YearLength(y: int)
    ensures DaysBeforeYear(y + 1) == DaysBeforeYear(y) + (if IsLeapYear(y) then 366 else 365)
  {
    LeapYearsStep(y);
  }

  /** The first of the next month lies exactly one month length after the first of this month. */
  lemma FirstDayStep(mi: int)
    ensures FirstDayOf(mi + 1) == FirstDayOf(mi) + DaysInMonthIndex(mi)
  {
    var y, m := mi / 12, mi % 12;
    if m < 11 {
      assert (mi + 1) / 12 == y && (mi + 1) % 12 == m + 1;
    } else {
      assert (mi + 1) / 12 == y + 1 && (mi + 1) % 12 == 0;
      YearLength(y);
    }
  }

  /** The `Date` constructor reads a year argument from 0 to 99 as 1900 to 1999. */
  function FullYear(y: int): (r: int)
    ensures 0 <= y <= 99 ==> r == 1900 + y
    ensures !(0 <= y <= 99) ==> r == y
  {
    if 0 <= y <= 99 then 1900 + y else y
  }

  /**
   * `new Date(y, m, d)` for arbitrary integers: the year is read as `FullYear`, the month is
   * carried into the year, then the day counts from the first of that month, rolling into
   * earlier or later months.
   */
  function MakeDate(y: int, m: int, d: int): (r: Date)
    ensures Valid(r)
    ensures Time(r) == FirstDayOf(MonthIndexValue(FullYear(y), m)) + d - 1
  {
    RollDay(MonthIndexValue(FullYear(y), m), d)
  }

  /** The date `d - 1` days after the first of month index `mi`. */
  function RollDay(mi: int, d: int): (r: Date)
    ensures Valid(r)
    ensures Time(r) == FirstDayOf(mi) + d - 1
    decreases if d < 1 then 1 - d else 0, if d < 1 then 0 else d
  {
    var n := DaysInMonthIndex(mi);
    if d < 1 then
      var p := DaysInMonthIndex(mi - 1);
      FirstDayStep(mi - 1);
      assert FirstDayOf(mi) == FirstDayOf(mi - 1) + p;
      RollDay(mi - 1, d + p)
    else if d > n then
      FirstDayStep(mi);
      assert FirstDayOf(mi + 1) == FirstDayOf(mi) + n;
      RollDay(mi + 1, d - n)
    else
      var r := Date(mi / 12, mi % 12, d);
      assert Time(r) == FirstDayOf(mi) + d - 1;
      r
  }

  /** A day already inside its month is kept as it is. */
  lemma MakeDateInRange(y: int, m: int, d: int)
    requires !(0 <= y <= 99) && 0 <= m < 12 && 1 <= d <= DaysInMonth(y, m)
    ensures MakeDate(y, m, d) == Date(y, m, d)
  {
    assert MonthIndexValue(y, m) / 12 == y && MonthIndexValue(y, m) % 12 == m;
  }

  /** `new Date(y, m + 1, 0)` is the last day of month `m`: how the sources compute a month's length. */
  lemma LastDayOfMonth(y: int, m: int)
    requires !(0 <= y <= 99) && 0 <= m < 12
    ensures MakeDate(y, m + 1, 0) == Date(y, m, DaysInMonth(y, m))
  {
    var mi := MonthIndexValue(y, m);
    assert mi / 12 == y && mi % 12 == m;
    assert MonthIndexValue(y, m + 1) - 1 == mi;
  }

  /** A month-index value and its year and month determine each other. */
  lemma MonthIndexValueInverse(y: int, m: int)
    requires 0 <= m < 12
    ensures MonthIndexValue(y, m) / 12 == y && MonthIndexValue(y, m) % 12 == m
  {
  }

  /** `getMonthIndexValue` is strictly increasing in (year, month) order. */
  lemma MonthIndexValueOrder(y1: int, m1: int, y2: int, m2: int)
    requires 0 <= m1 < 12 && 0 <= m2 < 12
    ensures MonthIndexValue(y1, m1) < MonthIndexValue(y2, m2) <==> (y1 < y2 || (y1 == y2 && m1 < m2))
  {
  }

  /** Within a month, moving from day `d` to day `e` moves the weekday `e - d` places on. */
  lemma WeekdayShift(y: int, m: int, d: int, e: int)
    requires 0 <= m < 12
    ensures Weekday(Date(y, m, e)) == (Weekday(Date(y, m, d)) + (e - d)) % 7
  {
    var t := Time(Date(y, m, d));
    assert Time(Date(y, m, e)) == t + (e - d);
    ShiftMod(t + 4, e - d);
  }

  /** Adding to a weekday number commutes with `% 7`. */
  lemma ShiftMod(a: int, k: int)
    ensures (a + k) % 7 == (a % 7 + k) % 7
  {
    var q := a / 7;
    assert a + k == (a % 7 + k) + 7 * q;
  }

  /** Days of one month lie after every day of the months before it. */
  lemma TimeMonotone(a: Date, b: Date)
    requires Valid(a) && Valid(b)
    requires a.year < b.year || (a.year == b.year && (a.month < b.month || (a.month == b.month && a.day < b.day)))
    ensures Time(a) < Time(b)
  {
    if a.year < b.year {
      YearsMonotone(a.year, b.year);
      assert DaysBeforeMonth(a.year, a.month) + a.day <= DaysBeforeYear(a.year + 1) - DaysBeforeYear(a.year) by {
        YearLength(a.year);
      }
    }
  }

  lemma {:induction false} YearsMonotone(y1: int, y2: int)
    requires y1 < y2
    ensures DaysBeforeYear(y1 + 1) <= DaysBeforeYear(y2)
    decreases y2 - y1
  {
    if y1 + 1 < y2 {
      YearsMonotone(y1 + 1, y2);
      YearLength(y1 + 1);
    }
  }
}
