/**
 * The recurring-task date engine: weekday patterns ("2nd Monday", "last Friday") and
 * day-of-month patterns, the next occurrence after a date, the date of a pattern in a viewed
 * month, and the due date of the successor created when a recurring task is completed.
 */
module Recurrence {
  import opened Wrappers
  import opened Dates
  import opened DateText
  import opened TasksApi

  /** JavaScript's `%`: the remainder takes the sign of the dividend. */
  function JsRem(a: int, b: int): (r: int)
    requires b > 0
    ensures a >= 0 ==> r == a % b
    ensures a < 0 ==> -b < r <= 0
  {
    if a >= 0 then a % b else -((-a) % b)
  }

  /** What `formatDateKey` prints for an invalid `Date`. */
  const InvalidKey: string := "NaN-NaN-NaN"

  // ----- pattern of a date -----

  /**
   * `getWeekOfMonth`: 5 ("last") when fewer than 7 days of the month remain after the date,
   * otherwise `Math.ceil(day / 7)`.
   */
  function WeekOfMonth(date: Date): int
    requires 0 <= date.month < 12
  {
    var lastDay := MakeDate(date.year, date.month + 1, 0).day;
    if lastDay - date.day < 7 then 5 else (date.day + 6) / 7
  }

  /** The week-of-month of a real date is 1..5, and 5 exactly when fewer than 7 days remain. */
  lemma WeekOfMonthRange(date: Date)
    requires Valid(date) && !(0 <= date.year <= 99)
    ensures 1 <= WeekOfMonth(date) <= 5
    ensures WeekOfMonth(date) == 5 <==> DaysInMonth(date.year, date.month) - date.day < 7
    ensures WeekOfMonth(date) < 5 ==> WeekOfMonth(date) == (date.day + 6) / 7
  {
    LastDayOfMonth(date.year, date.month);
  }

  // ----- date of a pattern -----

  /**
   * `getNthWeekdayOfMonth` (calendar): the day of month of occurrence `occ` of weekday `w`
   * (0 = Sunday) in month `m`; occurrence 5 counts back from the last day of the month.
   * The result is not rolled over.
   */
  function NthWeekdayDay(y: int, m: int, w: int, occ: int): int {
    if occ == 5 then
      var lastDay := MakeDate(y, m + 1, 0);
      lastDay.day - JsRem(Weekday(lastDay) - w + 7, 7)
    else
      var firstDay := MakeDate(y, m, 1);
      1 + JsRem(w - Weekday(firstDay) + 7, 7) + (occ - 1) * 7
  }

  /** `getNthWeekdayOfMonth` (task list): the same day, passed through `new Date(y, m, day)`. */
  function NthWeekdayDate(y: int, m: int, w: int, occ: int): Date {
    MakeDate(y, m, NthWeekdayDay(y, m, w, occ))
  }

  lemma WeekdayOfDay(y: int, m: int, d: int)
    requires 0 <= m < 12
    ensures Weekday(Date(y, m, d)) == (Weekday(Date(y, m, 1)) + (d - 1)) % 7
  {
    WeekdayShift(y, m, 1, d);
  }

  /** Stepping forward by the distance `(w - fw + 7) % 7` from weekday `fw` reaches weekday `w`. */
  lemma ForwardDistance(fw: int, w: int, k: int)
    requires 0 <= fw < 7 && 0 <= w < 7
    ensures 0 <= (w - fw + 7) % 7 < 7
    ensures (fw + (w - fw + 7) % 7 + 7 * k) % 7 == w
  {
    var diff := if w >= fw then w - fw else w - fw + 7;
    assert (w - fw + 7) % 7 == diff;
    assert fw + diff + 7 * k == w + 7 * (k + (if w >= fw then 0 else 1));
  }

  /** Stepping back by `(a % 7 - w + 7) % 7` from day count `a` reaches weekday `w`. */
  lemma BackwardDistance(a: int, w: int)
    requires 0 <= w < 7
    ensures 0 <= (a % 7 - w + 7) % 7 < 7
    ensures (a - (a % 7 - w + 7) % 7) % 7 == w
  {
    var lw, q := a % 7, a / 7;
    assert a == 7 * q + lw;
    var diff := if lw >= w then lw - w else lw - w + 7;
    assert (lw - w + 7) % 7 == diff;
    assert a - diff == 7 * (q - (if lw >= w then 0 else 1)) + w;
  }

  /** Going `k` (less than a week) forward from weekday `wd` and measuring back gives `k`. */
  lemma DistanceOfShift(wd: int, k: int)
    requires 0 <= wd < 7 && 0 <= k < 7
    ensures ((wd + k) % 7 - wd + 7) % 7 == k
  {
    var s := if wd + k < 7 then wd + k else wd + k - 7;
    assert (wd + k) % 7 == s;
  }

  /** From the first-of-month weekday `fw`, day `e + 1` is `e % 7` weekdays further on. */
  lemma DistanceFromFirst(fw: int, e: int)
    requires 0 <= fw < 7 && e >= 0
    ensures (((fw + e) % 7) - fw + 7) % 7 == e % 7
  {
    var r, q := e % 7, e / 7;
    assert e == 7 * q + r;
    assert (fw + e) % 7 == (fw + r) % 7 by {
      assert fw + e == (fw + r) + 7 * q;
    }
    DistanceOfShift(fw, r);
  }

  /**
   * The pattern's day carries the requested weekday. Occurrences 1..4 fall in the matching
   * week (days 7(occ-1)+1 .. 7occ, so within 1..28); occurrence 5 falls in the last 7 days.
   */
  lemma NthWeekdayFacts(y: int, m: int, w: int, occ: int)
    requires !(0 <= y <= 99) && 0 <= m < 12 && 0 <= w <= 6 && 1 <= occ <= 5
    ensures 1 <= NthWeekdayDay(y, m, w, occ) <= DaysInMonth(y, m)
    ensures Weekday(Date(y, m, NthWeekdayDay(y, m, w, occ))) == w
    ensures occ < 5 ==> 7 * (occ - 1) < NthWeekdayDay(y, m, w, occ) <= 7 * occ
    ensures occ == 5 ==> DaysInMonth(y, m) - 7 < NthWeekdayDay(y, m, w, occ)
  {
    var day := NthWeekdayDay(y, m, w, occ);
    var dim := DaysInMonth(y, m);
    var fw := Weekday(Date(y, m, 1));
    WeekdayOfDay(y, m, day);
    if occ == 5 {
      LastDayOfMonth(y, m);
      WeekdayOfDay(y, m, dim);
      var a := fw + (dim - 1);
      assert Weekday(Date(y, m, dim)) == a % 7;
      BackwardDistance(a, w);
      assert day == dim - (a % 7 - w + 7) % 7;
      assert fw + (day - 1) == a - (a % 7 - w + 7) % 7;
    } else {
      MakeDateInRange(y, m, 1);
      ForwardDistance(fw, w, occ - 1);
      assert day == 1 + (w - fw + 7) % 7 + (occ - 1) * 7;
      assert fw + (day - 1) == fw + (w - fw + 7) % 7 + 7 * (occ - 1);
    }
  }

  /** The task-list form lands on the same day: within its month nothing rolls over. */
  lemma NthWeekdayDateInMonth(y: int, m: int, w: int, occ: int)
    requires !(0 <= y <= 99) && 0 <= m < 12 && 0 <= w <= 6 && 1 <= occ <= 5
    ensures NthWeekdayDate(y, m, w, occ) == Date(y, m, NthWeekdayDay(y, m, w, occ))
  {
    NthWeekdayFacts(y, m, w, occ);
    MakeDateInRange(y, m, NthWeekdayDay(y, m, w, occ));
  }

  /**
   * Pattern round trip: the weekday and week-of-month of a date, turned back into a day of
   * that month, give the date's own day.
   */
  lemma PatternRoundTrip(date: Date)
    requires Valid(date) && !(0 <= date.year <= 99)
    ensures NthWeekdayDay(date.year, date.month, Weekday(date), WeekOfMonth(date)) == date.day
  {
    WeekOfMonthRange(date);
    if DaysInMonth(date.year, date.month) - date.day < 7 {
      assert WeekOfMonth(date) == 5;
      RoundTripLast(date);
    } else {
      assert WeekOfMonth(date) == (date.day + 6) / 7;
      RoundTripWeek(date);
    }
  }

  lemma RoundTripLast(date: Date)
    requires Valid(date) && !(0 <= date.year <= 99)
    requires DaysInMonth(date.year, date.month) - date.day < 7
    ensures NthWeekdayDay(date.year, date.month, Weekday(date), 5) == date.day
  {
    var y, m, d := date.year, date.month, date.day;
    var dim := DaysInMonth(y, m);
    var wd := Weekday(date);
    var lw := Weekday(Date(y, m, dim));
    WeekdayShift(y, m, d, dim);
    assert lw == (wd + (dim - d)) % 7;
    BackFromLast(dim, d, wd, lw);
    LastDayOfMonth(y, m);
    LastOccurrenceDay(y, m, wd, dim, lw);
  }

  /** Occurrence 5 steps back from the last day of the month to the weekday. */
  lemma LastOccurrenceDay(y: int, m: int, w: int, dim: int, lw: int)
    requires MakeDate(y, m + 1, 0) == Date(y, m, dim) && lw == Weekday(Date(y, m, dim))
    ensures NthWeekdayDay(y, m, w, 5) == dim - JsRem(lw - w + 7, 7)
  {
  }

  /** Stepping back from the last day's weekday `lw` to weekday `wd` lands on day `d`. */
  lemma BackFromLast(dim: int, d: int, wd: int, lw: int)
    requires 0 <= wd < 7 && 0 <= dim - d < 7 && lw == (wd + (dim - d)) % 7
    ensures dim - JsRem(lw - wd + 7, 7) == d
  {
    DistanceOfShift(wd, dim - d);
  }

  lemma RoundTripWeek(date: Date)
    requires Valid(date) && !(0 <= date.year <= 99)
    requires DaysInMonth(date.year, date.month) - date.day >= 7
    ensures NthWeekdayDay(date.year, date.month, Weekday(date), (date.day + 6) / 7) == date.day
  {
    var y, m, d := date.year, date.month, date.day;
    var wd := Weekday(date);
    var fw := Weekday(Date(y, m, 1));
    assert (d + 6) / 7 < 5;
    WeekdayOfDay(y, m, d);
    MakeDateInRange(y, m, 1);
    assert wd == (fw + (d - 1)) % 7;
    DistanceFromFirst(fw, d - 1);
    assert (d + 6) / 7 - 1 == (d - 1) / 7;
    assert 1 + (d - 1) % 7 + ((d + 6) / 7 - 1) * 7 == d;
  }

  // ----- next occurrence -----

  /**
   * What `calculateNextWeekdayOccurrence` computes: the pattern's date in the month of `from`
   * or, when that is on or before `from`, in the following month index, which wraps from
   * December to January of the same year.
   */
  function NextOccurrence(w: int, occ: int, from: Date): Date
    requires 0 <= from.month < 12
  {
    var here := NthWeekdayDate(from.year, from.month, w, occ);
    if Time(here) <= Time(from) then
      NthWeekdayDate(from.year, if from.month + 1 > 11 then 0 else from.month + 1, w, occ)
    else here
  }

  /**
   * `calculateNextWeekdayOccurrence(weekday, weekOfMonth, fromDate)`: `None` stands for an invalid
   * `Date`, for which every step yields NaN and the key is `"NaN-NaN-NaN"`.
   */
  method NextWeekdayOccurrence(weekday: int, weekOfMonth: int, fromDate: Option<Date>) returns (key: string)
    requires fromDate.Some? ==> Valid(fromDate.value)
    ensures fromDate.None? ==> key == InvalidKey
    ensures fromDate.Some? ==> key == FormatDateKey(NextOccurrence(weekday, weekOfMonth, fromDate.value))
  {
    if fromDate.None? {
      return InvalidKey;
    }
    var today := fromDate.value;
    var currentYear := today.year;
    var currentMonth := today.month;
    var targetDate := NthWeekdayDate(currentYear, currentMonth, weekday, weekOfMonth);
    if Time(targetDate) <= Time(today) {
      currentMonth := currentMonth + 1;
      if currentMonth > 11 {
        currentMonth := 0;
      }
      targetDate := NthWeekdayDate(currentYear, currentMonth, weekday, weekOfMonth);
    }
    key := FormatDateKey(targetDate);
  }

  /**
   * Outside December the result is the pattern's date in the month of `from` or the month after,
   * strictly after `from`: exactly one month is skipped when this month's date has passed.
   */
  lemma NextOccurrenceAfter(w: int, occ: int, from: Date)
    requires Valid(from) && !(0 <= from.year <= 99) && from.month < 11
    requires 0 <= w <= 6 && 1 <= occ <= 5
    ensures var r := NextOccurrence(w, occ, from);
      Time(from) < Time(r) && r.year == from.year && Weekday(r) == w
      && (r.month == from.month || r.month == from.month + 1)
      && (r.month == from.month + 1 <==> Time(NthWeekdayDate(from.year, from.month, w, occ)) <= Time(from))
  {
    var y := from.year;
    NthWeekdayDateInMonth(y, from.month, w, occ);
    NthWeekdayDateInMonth(y, from.month + 1, w, occ);
    NthWeekdayFacts(y, from.month, w, occ);
    NthWeekdayFacts(y, from.month + 1, w, occ);
    var r := NthWeekdayDate(y, from.month + 1, w, occ);
    TimeMonotone(from, r);
  }

  /**
   * In December, while this month's date is still ahead, the result is that date: strictly after
   * `from`, in December of the same year, on the weekday.
   */
  lemma DecemberStillAhead(w: int, occ: int, from: Date)
    requires Valid(from) && !(0 <= from.year <= 99) && from.month == 11
    requires 0 <= w <= 6 && 1 <= occ <= 5
    requires Time(from) < Time(NthWeekdayDate(from.year, 11, w, occ))
    ensures var r := NextOccurrence(w, occ, from);
      Time(from) < Time(r) && r.year == from.year && r.month == 11 && Weekday(r) == w
  {
    NthWeekdayDateInMonth(from.year, 11, w, occ);
    NthWeekdayFacts(from.year, 11, w, occ);
  }

  /**
   * The December wrap: when December's date has passed, the result is in January of the SAME
   * year, so it lies before `from`.
   */
  lemma DecemberWrapsToSameYear(w: int, occ: int, from: Date)
    requires Valid(from) && !(0 <= from.year <= 99) && from.month == 11
    requires 0 <= w <= 6 && 1 <= occ <= 5
    requires Time(NthWeekdayDate(from.year, 11, w, occ)) <= Time(from)
    ensures var r := NextOccurrence(w, occ, from);
      r.year == from.year && r.month == 0 && Time(r) < Time(from)
  {
    NthWeekdayDateInMonth(from.year, 0, w, occ);
    NthWeekdayFacts(from.year, 0, w, occ);
    TimeMonotone(NextOccurrence(w, occ, from), from);
  }

  /** The evidently intended next occurrence: wrapping past December moves into the next year. */
  function NextOccurrenceFixed(w: int, occ: int, from: Date): Date
    requires 0 <= from.month < 12
  {
    var here := NthWeekdayDate(from.year, from.month, w, occ);
    if Time(here) <= Time(from) then NthWeekdayDate(from.year, from.month + 1, w, occ)
    else here
  }

  /** The corrected form is strictly after `from` in every month, December included. */
  lemma NextOccurrenceFixedAfter(w: int, occ: int, from: Date)
    requires Valid(from) && !(0 <= from.year <= 99) && !(0 <= from.year + 1 <= 99)
    requires 0 <= w <= 6 && 1 <= occ <= 5
    ensures Time(from) < Time(NextOccurrenceFixed(w, occ, from))
    ensures Weekday(NextOccurrenceFixed(w, occ, from)) == w
  {
    var y, m := from.year, from.month;
    NthWeekdayDateInMonth(y, m, w, occ);
    NthWeekdayFacts(y, m, w, occ);
    var here := NthWeekdayDate(y, m, w, occ);
    if Time(here) <= Time(from) {
      var ny, nm := if m == 11 then y + 1 else y, if m == 11 then 0 else m + 1;
      assert MakeDate(y, m + 1, NthWeekdayDay(y, m + 1, w, occ)) == MakeDate(ny, nm, NthWeekdayDay(ny, nm, w, occ)) by {
        assert MonthIndexValue(y, m + 1) == MonthIndexValue(ny, nm);
        SameMonthIndexSameDay(y, m + 1, ny, nm, w, occ);
      }
      NthWeekdayDateInMonth(ny, nm, w, occ);
      NthWeekdayFacts(ny, nm, w, occ);
      TimeMonotone(from, Date(ny, nm, NthWeekdayDay(ny, nm, w, occ)));
    }
  }

  /** Two (year, month) pairs naming the same month index give the same pattern day. */
  lemma SameMonthIndexSameDay(y1: int, m1: int, y2: int, m2: int, w: int, occ: int)
    requires !(0 <= y1 <= 99) && !(0 <= y2 <= 99)
    requires MonthIndexValue(y1, m1) == MonthIndexValue(y2, m2)
    ensures NthWeekdayDay(y1, m1, w, occ) == NthWeekdayDay(y2, m2, w, occ)
  {
    assert MonthIndexValue(y1, m1 + 1) == MonthIndexValue(y2, m2 + 1);
  }

  // ----- pattern in a viewed month (calendar) -----

  /** Both weekday-pattern fields are present. */
  predicate HasWeekdayPattern(t: Task) {
    t.recurringWeekday.Some? && t.recurringWeekOfMonth.Some?
  }

  /**
   * The day `getRecurringDateForMonth` picks: the weekday pattern when both of its fields are
   * present, else a present `recurringDay` (0 included) clamped into [1, days in month], else none.
   */
  function RecurringDayForMonth(t: Task, y: int, m: int): Option<int> {
    if HasWeekdayPattern(t) then
      Some(NthWeekdayDay(y, m, t.recurringWeekday.value, t.recurringWeekOfMonth.value))
    else if t.recurringDay.Some? then
      var daysInTargetMonth := MakeDate(y, m + 1, 0).day;
      Some(Max(1, Min(t.recurringDay.value, daysInTargetMonth)))
    else None
  }

  function Max(a: int, b: int): int { if a < b then b else a }
  function Min(a: int, b: int): int { if a < b then a else b }

  /** `getRecurringDateForMonth`: the picked day as a `YYYY-MM-DD` key of the viewed month. */
  function RecurringDateForMonth(t: Task, y: int, m: int): (r: Option<string>)
    ensures r.Some? <==> HasWeekdayPattern(t) || t.recurringDay.Some?
    ensures r.Some? ==> r.value == FormatDateParts(y, m, RecurringDayForMonth(t, y, m).value)
  {
    var day := RecurringDayForMonth(t, y, m);
    if day.None? then None else Some(FormatDateParts(y, m, day.value))
  }

  /**
   * Every date the projector synthesizes lies inside the viewed month, provided a weekday
   * pattern is a weekday 0..6 with occurrence 1..5.
   */
  lemma RecurringDayInMonth(t: Task, y: int, m: int)
    requires !(0 <= y <= 99) && 0 <= m < 12
    requires HasWeekdayPattern(t) ==> 0 <= t.recurringWeekday.value <= 6 && 1 <= t.recurringWeekOfMonth.value <= 5
    requires HasWeekdayPattern(t) || t.recurringDay.Some?
    ensures RecurringDayForMonth(t, y, m).Some?
    ensures 1 <= RecurringDayForMonth(t, y, m).value <= DaysInMonth(y, m)
    ensures Valid(Date(y, m, RecurringDayForMonth(t, y, m).value))
  {
    if HasWeekdayPattern(t) {
      NthWeekdayFacts(y, m, t.recurringWeekday.value, t.recurringWeekOfMonth.value);
    } else {
      LastDayOfMonth(y, m);
    }
  }

  /**
   * The day-of-month form is clamped: for a day pattern alone the day is `recurringDay` bounded
   * by 1 and the month's length, so day 31 in February gives 29 in leap years and 28 otherwise.
   */
  lemma DayPatternClamped(t: Task, y: int, m: int)
    requires !(0 <= y <= 99) && 0 <= m < 12
    requires !HasWeekdayPattern(t) && t.recurringDay.Some?
    ensures RecurringDayForMonth(t, y, m) == Some(Max(1, Min(t.recurringDay.value, DaysInMonth(y, m))))
    ensures m == 1 && t.recurringDay.value == 31 ==>
      RecurringDayForMonth(t, y, m) == Some(if IsLeapYear(y) then 29 else 28)
  {
    LastDayOfMonth(y, m);
  }

  /** The weekday pattern takes precedence over a day pattern set on the same task. */
  lemma WeekdayPatternFirst(t: Task, y: int, m: int)
    requires HasWeekdayPattern(t)
    ensures RecurringDayForMonth(t, y, m)
         == Some(NthWeekdayDay(y, m, t.recurringWeekday.value, t.recurringWeekOfMonth.value))
  {
  }

  // ----- successor of a completed recurring task (task list) -----

  /**
   * The due date `toggleTask` gives the successor of a completed recurring task, given the
   * current day `now`: the next weekday occurrence after the task's own due date (after `now`
   * when it has none); else, for a truthy `recurringDay`, that day in the month after `now`,
   * rolled over by `new Date`; else no successor.
   */
  function SuccessorDueDate(t: Task, now: Date): Option<string>
    requires Valid(now)
  {
    if HasWeekdayPattern(t) then
      var from := if t.dueDate.Some? && t.dueDate.value != "" then ParseDueDate(t.dueDate.value) else Some(now);
      Some(if from.None? then InvalidKey
           else FormatDateKey(NextOccurrence(t.recurringWeekday.value, t.recurringWeekOfMonth.value, from.value)))
    else if t.recurringDay.Some? && t.recurringDay.value != 0 then
      Some(DaySuccessorKey(now, t.recurringDay.value))
    else None
  }

  /** `new Date(now.getFullYear(), now.getMonth() + 1, day)` as a key: rolled over when the month is short. */
  function DaySuccessorKey(now: Date, day: int): string {
    FormatDateKey(MakeDate(now.year, now.month + 1, day))
  }

  /** A successor is made exactly for a weekday pattern or a non-zero day pattern. */
  lemma SuccessorExists(t: Task, now: Date)
    requires Valid(now)
    ensures SuccessorDueDate(t, now).Some? <==> HasWeekdayPattern(t) || (t.recurringDay.Some? && t.recurringDay.value != 0)
  {
  }

  /** With a weekday pattern and a formatted due date, the successor is the next occurrence after that date. */
  lemma SuccessorAfterDueDate(t: Task, now: Date, due: Date)
    requires Valid(now) && Valid(due) && due.year >= 100
    requires HasWeekdayPattern(t) && t.dueDate == Some(FormatDateKey(due))
    ensures SuccessorDueDate(t, now)
         == Some(FormatDateKey(NextOccurrence(t.recurringWeekday.value, t.recurringWeekOfMonth.value, due)))
  {
    ParseFormatted(due);
  }

  /** The day form rolls over instead of clamping: day 31 after an October lands on the first of December. */
  lemma DaySuccessorRollsOver(t: Task, now: Date)
    requires Valid(now) && now.year >= 100 && now.month == 9
    requires !HasWeekdayPattern(t) && t.recurringDay == Some(31)
    ensures SuccessorDueDate(t, now) == Some(FormatDateKey(Date(now.year, 11, 1)))
  {
    var mi := MonthIndexValue(now.year, 10);
    assert mi / 12 == now.year && mi % 12 == 10;
    assert (mi + 1) / 12 == now.year && (mi + 1) % 12 == 11;
    assert RollDay(mi, 31) == RollDay(mi + 1, 1);
  }

  /**
   * `recurringDay = 0` is read two ways: completing such a task makes no successor, while the
   * calendar projects it onto the first of every month.
   */
  lemma RecurringDayZeroDiverges(t: Task, now: Date, y: int, m: int)
    requires Valid(now) && !(0 <= y <= 99) && 0 <= m < 12
    requires !HasWeekdayPattern(t) && t.recurringDay == Some(0)
    ensures SuccessorDueDate(t, now) == None
    ensures RecurringDayForMonth(t, y, m) == Some(1)
  {
    LastDayOfMonth(y, m);
  }

  // ----- pattern label -----

  const WeekdayNames: seq<string> := ["Sunday", "Monday", "Tuesday", "Wednesday", "Thursday", "Friday", "Saturday"]
  const OccurrenceNames: seq<string> := ["", "First", "Second", "Third", "Fourth", "Last"]

  /** Array indexing as JavaScript prints it: a missing element is `undefined`. */
  function NameAt(names: seq<string>, i: int): string {
    if 0 <= i < |names| then names[i] else "undefined"
  }

  /**
   * `getRecurringPattern`: `''` for a task that is not recurring, "<occurrence> <weekday>" for a
   * weekday pattern, "Day <n>" for a truthy day pattern, and "Monthly" otherwise.
   */
  function RecurringPattern(t: Task): (text: string)
    ensures text == "" <==> !t.isRecurring
    ensures t.isRecurring && HasWeekdayPattern(t) ==>
      text == NameAt(OccurrenceNames, t.recurringWeekOfMonth.value) + " " + NameAt(WeekdayNames, t.recurringWeekday.value)
    ensures t.isRecurring && !HasWeekdayPattern(t) && t.recurringDay.Some? && t.recurringDay.value != 0 ==>
      text == "Day " + IntToString(t.recurringDay.value)
    ensures t.isRecurring && !HasWeekdayPattern(t) && (t.recurringDay.None? || t.recurringDay.value == 0) ==>
      text == "Monthly"
  {
    if !t.isRecurring then ""
    else if HasWeekdayPattern(t) then
      NameAt(OccurrenceNames, t.recurringWeekOfMonth.value) + " " + NameAt(WeekdayNames, t.recurringWeekday.value)
    else if t.recurringDay.Some? && t.recurringDay.value != 0 then "Day " + IntToString(t.recurringDay.value)
    else "Monthly"
  }

  /**
   * The three kinds of label can be told apart: a day label starts with "Day " and is not "Monthly",
   * and a weekday label for an occurrence in 1..5 is neither.
   */
  lemma PatternLabelKinds(t: Task)
    requires t.isRecurring
    ensures !HasWeekdayPattern(t) && t.recurringDay.Some? && t.recurringDay.value != 0 ==>
      RecurringPattern(t)[..4] == "Day " && RecurringPattern(t) != "Monthly"
    ensures HasWeekdayPattern(t) && 1 <= t.recurringWeekOfMonth.value <= 5 ==>
      RecurringPattern(t) != "Monthly" && RecurringPattern(t)[..4] != "Day "
  {
    if HasWeekdayPattern(t) && 1 <= t.recurringWeekOfMonth.value <= 5 {
      var occ := OccurrenceNames[t.recurringWeekOfMonth.value];
      var text := RecurringPattern(t);
      assert text == occ + " " + NameAt(WeekdayNames, t.recurringWeekday.value);
      assert text[0] == occ[0];
      assert text[0] != 'D' && text[0] != 'M';
    } else if !HasWeekdayPattern(t) && t.recurringDay.Some? && t.recurringDay.value != 0 {
      var text := RecurringPattern(t);
      assert text[0] == 'D';
    }
  }

  /** The label of the pattern derived from a real date names its occurrence and weekday. */
  lemma PatternLabelOfDate(t: Task, date: Date)
    requires Valid(date) && !(0 <= date.year <= 99) && t.isRecurring
    requires t.recurringWeekday == Some(Weekday(date)) && t.recurringWeekOfMonth == Some(WeekOfMonth(date))
    ensures RecurringPattern(t) == OccurrenceNames[WeekOfMonth(date)] + " " + WeekdayNames[Weekday(date)]
  {
    WeekOfMonthRange(date);
  }
}
