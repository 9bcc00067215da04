/**
 * The calendar's month view (app/components/Calendar.tsx): `tasksByDate` buckets the tasks due in
 * the viewed month by their date, then groups the recurring tasks into series and adds one
 * generated occurrence per series whose pattern falls into that month; `previousMonth` and
 * `nextMonth` move the view.
 */
module Calendar {
  import opened Wrappers
  import opened Dates
  import opened DateText
  import opened TasksApi
  import opened Recurrence

  /** One entry of a day cell: the task shown and its date; generated entries are projected occurrences. */
  datatype CalendarItem = CalendarItem(task: Task, date: string, isGenerated: bool)

  /**
   * What identifies a series: title, priority and the three pattern fields. The source joins them
   * with `|`; only the title can hold a `|`, and it comes first, so the joined key and this record
   * identify the same tasks.
   */
  datatype SeriesKey = SeriesKey(title: string, priority: Priority, weekday: Option<int>,
                                 weekOfMonth: Option<int>, day: Option<int>)

  function KeyOf(t: Task): SeriesKey {
    SeriesKey(t.title, t.priority, t.recurringWeekday, t.recurringWeekOfMonth, t.recurringDay)
  }

  /** A task that joins a series: recurring, with at least one pattern field present. */
  predicate InSeries(t: Task) {
    t.isRecurring && !(t.recurringWeekday.None? && t.recurringWeekOfMonth.None? && t.recurringDay.None?)
  }

  /** A truthy due date. */
  predicate HasDueDate(t: Task) {
    t.dueDate.Some? && t.dueDate.value != ""
  }

  // ----- day cells -----

  /** `grouped[date] || []`. */
  function Cell(grouped: map<string, seq<CalendarItem>>, date: string): seq<CalendarItem> {
    if date in grouped then grouped[date] else []
  }

  /** `addItem`: appends the item to the cell of its date, creating the cell when needed. */
  function AddItem(grouped: map<string, seq<CalendarItem>>, item: CalendarItem): map<string, seq<CalendarItem>> {
    grouped[item.date := Cell(grouped, item.date) + [item]]
  }

  /** The cells that adding `items` one after the other to an empty record gives. */
  function Bucket(items: seq<CalendarItem>): map<string, seq<CalendarItem>> {
    if items == [] then map[]
    else AddItem(Bucket(items[..|items| - 1]), items[|items| - 1])
  }

  /** The items dated `date`, in order. */
  function OnDate(items: seq<CalendarItem>, date: string): (r: seq<CalendarItem>)
    ensures forall it :: it in r <==> it in items && it.date == date
  {
    if items == [] then []
    else
      var it := items[|items| - 1];
      assert forall x :: x in items <==> x in items[..|items| - 1] || x == it by {
        assert items == items[..|items| - 1] + [it];
      }
      OnDate(items[..|items| - 1], date) + (if it.date == date then [it] else [])
  }

  /** Adding one more item extends the bucketing of the items before it. */
  lemma BucketSnoc(items: seq<CalendarItem>, it: CalendarItem)
    ensures Bucket(items + [it]) == AddItem(Bucket(items), it)
  {
    assert (items + [it])[..|items|] == items;
  }

  /** Each cell lists exactly the items of its date, in the order they were added; a date without items has no cell. */
  lemma {:induction false} BucketCells(items: seq<CalendarItem>, date: string)
    ensures Cell(Bucket(items), date) == OnDate(items, date)
    ensures date in Bucket(items) <==> OnDate(items, date) != []
  {
    if items != [] {
      BucketCells(items[..|items| - 1], date);
    }
  }

  // ----- the tasks due in the month -----

  /** The task's due date lies in month `m` of year `y`: it starts with `${monthKey}-`. */
  predicate DueIn(t: Task, y: int, m: int) {
    HasDueDate(t) && StartsWith(t.dueDate.value, MonthPrefix(y, m))
  }

  /** The first pass of `tasksByDate`: one item per task due in the month, in list order. */
  function RealItems(tasks: seq<Task>, y: int, m: int): seq<CalendarItem> {
    if tasks == [] then []
    else
      var t := tasks[|tasks| - 1];
      RealItems(tasks[..|tasks| - 1], y, m) + (if DueIn(t, y, m) then [CalendarItem(t, t.dueDate.value, false)] else [])
  }

  /** The first pass lists exactly the tasks due in the month, each on its own due date. */
  lemma {:induction false} RealItemsExact(tasks: seq<Task>, y: int, m: int)
    ensures forall it :: it in RealItems(tasks, y, m) <==>
      !it.isGenerated && it.task in tasks && DueIn(it.task, y, m) && it.date == it.task.dueDate.value
  {
    if tasks != [] {
      var init := tasks[..|tasks| - 1];
      RealItemsExact(init, y, m);
      assert tasks == init + [tasks[|tasks| - 1]];
    }
  }

  // ----- series -----

  /** The keys of `recurringGroups`, in the order the series first appear. */
  function SeriesKeys(tasks: seq<Task>): seq<SeriesKey> {
    if tasks == [] then []
    else
      var t := tasks[|tasks| - 1];
      var keys := SeriesKeys(tasks[..|tasks| - 1]);
      if InSeries(t) && KeyOf(t) !in keys then keys + [KeyOf(t)] else keys
  }

  /** The group of series `k`: its tasks, in list order. */
  function Members(tasks: seq<Task>, k: SeriesKey): seq<Task> {
    if tasks == [] then []
    else
      var t := tasks[|tasks| - 1];
      Members(tasks[..|tasks| - 1], k) + (if InSeries(t) && KeyOf(t) == k then [t] else [])
  }

  /** A series is listed once, and exactly when one of its tasks is in the list. */
  lemma {:induction false} SeriesKeysExact(tasks: seq<Task>)
    ensures forall i, j :: 0 <= i < j < |SeriesKeys(tasks)| ==> SeriesKeys(tasks)[i] != SeriesKeys(tasks)[j]
    ensures forall k :: k in SeriesKeys(tasks) <==> exists t :: t in tasks && InSeries(t) && KeyOf(t) == k
  {
    if tasks != [] {
      var init := tasks[..|tasks| - 1];
      SeriesKeysExact(init);
      assert tasks == init + [tasks[|tasks| - 1]];
    }
  }

  /** A group holds exactly the tasks of its series. */
  lemma {:induction false} MembersExact(tasks: seq<Task>, k: SeriesKey)
    ensures forall t :: t in Members(tasks, k) <==> t in tasks && InSeries(t) && KeyOf(t) == k
  {
    if tasks != [] {
      var init := tasks[..|tasks| - 1];
      MembersExact(init, k);
      assert tasks == init + [tasks[|tasks| - 1]];
    }
  }

  /** Every listed series has a non-empty group, and a series not listed has none. */
  lemma GroupsNonEmpty(tasks: seq<Task>, k: SeriesKey)
    ensures k in SeriesKeys(tasks) <==> Members(tasks, k) != []
  {
    SeriesKeysExact(tasks);
    MembersExact(tasks, k);
    if Members(tasks, k) != [] {
      assert Members(tasks, k)[0] in Members(tasks, k);
    }
  }

  // ----- one series in the viewed month -----

  /*
   * From here on `monthOf` reads the month index of a due date and `dateIn` gives a task's pattern
   * date in the viewed month; the month view passes `MonthIndexFromDate` (`getMonthIndexFromDate`)
   * and `PatternDates(y, m)` (`getRecurringDateForMonth`). Stating the series logic for any such
   * readers keeps the date arithmetic out of its proofs; the lemmas at the end of the module put
   * the real readers back.
   */

  /** The group's truthy due dates, in order. */
  function DatedDueDates(group: seq<Task>): (r: seq<string>)
    ensures forall d :: d in r <==> exists t :: t in group && HasDueDate(t) && t.dueDate.value == d
  {
    if group == [] then []
    else
      assert forall t :: t in group <==> t == group[0] || t in group[1..];
      (if HasDueDate(group[0]) then [group[0].dueDate.value] else []) + DatedDueDates(group[1..])
  }

  /** `getMonthIndexFromDate(date) ?? viewMonthValue`. */
  function MonthOr(date: string, view: int, monthOf: string -> Option<int>): int {
    monthOf(date).GetOr(view)
  }

  /** `Math.min(...dates.map(...))`: the first month of the series. */
  function EarliestMonth(dates: seq<string>, view: int, monthOf: string -> Option<int>): int
    requires dates != []
  {
    if |dates| == 1 then MonthOr(dates[0], view, monthOf)
    else Min(MonthOr(dates[0], view, monthOf), EarliestMonth(dates[1..], view, monthOf))
  }

  /** The earliest month is the smallest of the dates' months. */
  lemma {:induction false} EarliestIsMin(dates: seq<string>, view: int, monthOf: string -> Option<int>)
    requires dates != []
    ensures forall d :: d in dates ==> EarliestMonth(dates, view, monthOf) <= MonthOr(d, view, monthOf)
    ensures exists d :: d in dates && EarliestMonth(dates, view, monthOf) == MonthOr(d, view, monthOf)
  {
    if |dates| > 1 {
      EarliestIsMin(dates[1..], view, monthOf);
      assert forall d :: d in dates ==> d == dates[0] || d in dates[1..];
      var d' :| d' in dates[1..] && EarliestMonth(dates[1..], view, monthOf) == MonthOr(d', view, monthOf);
      assert d' in dates;
    } else {
      assert dates[0] in dates;
    }
  }

  /** One step of the `reduce`: a task with a later (string-greater) due date replaces the one so far. */
  function Later(latest: Task, t: Task): Task {
    if HasDueDate(t) && (!HasDueDate(latest) || StrLess(latest.dueDate.value, t.dueDate.value)) then t else latest
  }

  function LatestOf(latest: Task, rest: seq<Task>): Task
    decreases |rest|
  {
    if rest == [] then latest else LatestOf(Later(latest, rest[0]), rest[1..])
  }

  /** `sourceTask`: the group's task with the latest due date, the first one on ties, `group[0]` if none is dated. */
  function Representative(group: seq<Task>): Task
    requires group != []
  {
    LatestOf(group[0], group)
  }

  /** `t`'s due date is not before `latest`'s: dated whenever `t` is, and not string-smaller. */
  predicate NotBefore(latest: Task, t: Task) {
    HasDueDate(t) ==> HasDueDate(latest) && !StrLess(latest.dueDate.value, t.dueDate.value)
  }

  lemma LaterIsLatest(latest: Task, t: Task)
    ensures Later(latest, t) == latest || Later(latest, t) == t
    ensures NotBefore(Later(latest, t), latest) && NotBefore(Later(latest, t), t)
  {
    if HasDueDate(latest) {
      StrLessIrreflexive(latest.dueDate.value);
    }
    if HasDueDate(t) {
      StrLessIrreflexive(t.dueDate.value);
      if HasDueDate(latest) {
        StrLessTotal(latest.dueDate.value, t.dueDate.value);
        if StrLess(latest.dueDate.value, t.dueDate.value) && StrLess(t.dueDate.value, latest.dueDate.value) {
          StrLessTransitive(t.dueDate.value, latest.dueDate.value, t.dueDate.value);
        }
      }
    }
  }

  /** `NotBefore` chains: a task not before one not before `t` is itself not before `t`. */
  lemma NotBeforeTransitive(a: Task, b: Task, c: Task)
    requires NotBefore(a, b) && NotBefore(b, c)
    ensures NotBefore(a, c)
  {
    if HasDueDate(c) && StrLess(a.dueDate.value, c.dueDate.value) {
      StrLessTotal(a.dueDate.value, b.dueDate.value);
      if a.dueDate.value != b.dueDate.value {
        StrLessTransitive(b.dueDate.value, a.dueDate.value, c.dueDate.value);
      }
    }
  }

  lemma {:induction false} LatestOfFacts(latest: Task, rest: seq<Task>)
    ensures LatestOf(latest, rest) == latest || LatestOf(latest, rest) in rest
    ensures NotBefore(LatestOf(latest, rest), latest)
    ensures forall t :: t in rest ==> NotBefore(LatestOf(latest, rest), t)
    decreases |rest|
  {
    if rest != [] {
      var next := Later(latest, rest[0]);
      var r := LatestOf(next, rest[1..]);
      assert LatestOf(latest, rest) == r;
      LatestOfFacts(next, rest[1..]);
      LaterIsLatest(latest, rest[0]);
      NotBeforeTransitive(r, next, latest);
      NotBeforeTransitive(r, next, rest[0]);
      assert rest == [rest[0]] + rest[1..];
    } else if HasDueDate(latest) {
      StrLessIrreflexive(latest.dueDate.value);
    }
  }

  /** The representative is a task of the group whose due date no other task's exceeds. */
  lemma RepresentativeIsLatest(group: seq<Task>)
    requires group != []
    ensures Representative(group) in group
    ensures forall t :: t in group ==> NotBefore(Representative(group), t)
  {
    LatestOfFacts(group[0], group);
  }

  /**
   * The `reduce` replaces only on a strictly later date: its result is the start value, or a dated
   * task later than the start that no earlier task of `rest` shares its due date with.
   */
  lemma {:induction false} LatestOfFirst(latest: Task, rest: seq<Task>)
    ensures var r := LatestOf(latest, rest);
      r == latest || exists i :: 0 <= i < |rest| && r == rest[i] && FirstLater(latest, rest, i)
    decreases |rest|
  {
    if rest != [] {
      var next := Later(latest, rest[0]);
      var r := LatestOf(next, rest[1..]);
      assert LatestOf(latest, rest) == r;
      LatestOfFirst(next, rest[1..]);
      if r == next {
        if next != latest {
          assert r == rest[0] && FirstLater(latest, rest, 0);
        }
      } else {
        var i' :| 0 <= i' < |rest[1..]| && r == rest[1..][i'] && FirstLater(next, rest[1..], i');
        var d := r.dueDate.value;
        if next == rest[0] && next != latest {
          StrLessIrreflexive(d);
          if HasDueDate(latest) {
            StrLessTransitive(latest.dueDate.value, rest[0].dueDate.value, d);
          }
        } else if HasDueDate(rest[0]) && rest[0].dueDate.value == d {
          StrLessIrreflexive(d);
        }
        assert FirstLater(latest, rest, i' + 1);
      }
    }
  }

  /** `rest[i]` is dated, later than `latest`, and the first task of `rest` with its due date. */
  predicate FirstLater(latest: Task, rest: seq<Task>, i: int)
    requires 0 <= i < |rest|
  {
    && HasDueDate(rest[i])
    && (HasDueDate(latest) ==> StrLess(latest.dueDate.value, rest[i].dueDate.value))
    && forall j :: 0 <= j < i ==> rest[j].dueDate != rest[i].dueDate
  }

  /**
   * Ties and undated groups: the representative is the first task of the group with its due date,
   * and `group[0]` when no task is dated.
   */
  lemma RepresentativeIsFirst(group: seq<Task>)
    requires group != []
    ensures (forall t :: t in group ==> !HasDueDate(t)) ==> Representative(group) == group[0]
    ensures exists i :: 0 <= i < |group| && Representative(group) == group[i] &&
                        forall j :: 0 <= j < i ==> group[j].dueDate != group[i].dueDate
  {
    LatestOfFirst(group[0], group);
    if Representative(group) == group[0] {
      assert 0 <= 0 < |group| && Representative(group) == group[0];
    } else {
      var i :| 0 <= i < |group| && Representative(group) == group[i] && FirstLater(group[0], group, i);
      assert group[i] in group && HasDueDate(group[i]);
    }
  }

  /** Some task of the group is due on `date`. */
  predicate Dated(group: seq<Task>, date: string) {
    exists t :: t in group && t.dueDate == Some(date)
  }

  /**
   * The occurrence the calendar generates for one series in the month whose month index is
   * `view`: none when the series only starts after that month, none when the representative has
   * no pattern date or a task of the group is already due then; otherwise the representative,
   * not completed, on that date.
   */
  function Generated(group: seq<Task>, view: int, monthOf: string -> Option<int>, dateIn: Task -> Option<string>): Option<CalendarItem>
    requires group != []
  {
    var dates := DatedDueDates(group);
    if dates != [] && view < EarliestMonth(dates, view, monthOf) then None
    else
      var rep := Representative(group);
      var date := dateIn(rep);
      if date.None? || Dated(group, date.value) then None
      else Some(CalendarItem(rep.(dueDate := Some(date.value), completed := false), date.value, true))
  }

  /**
   * A generated occurrence is the group's representative, not completed, moved to its pattern
   * date; no task of the group is already due that day.
   */
  lemma GeneratedFacts(group: seq<Task>, view: int, monthOf: string -> Option<int>, dateIn: Task -> Option<string>)
    requires group != [] && Generated(group, view, monthOf, dateIn).Some?
    ensures var it := Generated(group, view, monthOf, dateIn).value;
      var rep := Representative(group);
      && it.isGenerated && rep in group
      && it.task == rep.(dueDate := Some(it.date), completed := false)
      && dateIn(rep) == Some(it.date)
      && forall t :: t in group ==> t.dueDate != Some(it.date)
  {
    RepresentativeIsLatest(group);
  }

  /**
   * No occurrence is generated before the series starts: when the group has dated tasks, one of
   * them lies in the viewed month or earlier (an unreadable date counts as the viewed month).
   */
  lemma GeneratedNotBeforeStart(group: seq<Task>, view: int, monthOf: string -> Option<int>, dateIn: Task -> Option<string>)
    requires group != [] && Generated(group, view, monthOf, dateIn).Some?
    ensures (forall t :: t in group ==> !HasDueDate(t))
      || exists t :: t in group && HasDueDate(t) && MonthOr(t.dueDate.value, view, monthOf) <= view
  {
    if exists t :: t in group && HasDueDate(t) {
      var dates := DatedDueDates(group);
      var t0 :| t0 in group && HasDueDate(t0);
      assert t0.dueDate.value in dates;
      EarliestIsMin(dates, view, monthOf);
      var d :| d in dates && EarliestMonth(dates, view, monthOf) == MonthOr(d, view, monthOf);
      var t :| t in group && HasDueDate(t) && t.dueDate.value == d;
      assert MonthOr(t.dueDate.value, view, monthOf) <= view;
    }
  }

  /**
   * Conversely, a series that has started by the viewed month, whose representative has a pattern
   * date on which no task of the group is due, generates its occurrence there.
   */
  lemma GeneratedWhenOpen(group: seq<Task>, view: int, monthOf: string -> Option<int>, dateIn: Task -> Option<string>)
    requires group != []
    requires (forall t :: t in group ==> !HasDueDate(t))
      || exists t :: t in group && HasDueDate(t) && MonthOr(t.dueDate.value, view, monthOf) <= view
    requires dateIn(Representative(group)).Some?
    requires forall t :: t in group ==> t.dueDate != dateIn(Representative(group))
    ensures var rep := Representative(group); var date := dateIn(rep).value;
      Generated(group, view, monthOf, dateIn) == Some(CalendarItem(rep.(dueDate := Some(date), completed := false), date, true))
  {
    var dates := DatedDueDates(group);
    if dates != [] {
      assert dates[0] in dates;
      var t0 :| t0 in group && HasDueDate(t0) && t0.dueDate.value == dates[0];
      var t :| t in group && HasDueDate(t) && MonthOr(t.dueDate.value, view, monthOf) <= view;
      assert t.dueDate.value in dates;
      EarliestIsMin(dates, view, monthOf);
    }
  }

  /** A series whose tasks are all dated after the viewed month generates nothing. */
  lemma NothingBeforeStart(group: seq<Task>, view: int, monthOf: string -> Option<int>, dateIn: Task -> Option<string>)
    requires group != [] && exists t :: t in group && HasDueDate(t)
    requires forall t :: t in group && HasDueDate(t) ==> MonthOr(t.dueDate.value, view, monthOf) > view
    ensures Generated(group, view, monthOf, dateIn).None?
  {
    if Generated(group, view, monthOf, dateIn).Some? {
      GeneratedNotBeforeStart(group, view, monthOf, dateIn);
    }
  }

  // ----- the second and third passes -----

  /** The occurrences generated for the series `keys`, in their order. */
  function GeneratedItems(tasks: seq<Task>, keys: seq<SeriesKey>, view: int,
                          monthOf: string -> Option<int>, dateIn: Task -> Option<string>): seq<CalendarItem>
    requires forall k :: k in keys ==> Members(tasks, k) != []
  {
    if keys == [] then []
    else
      var k := keys[|keys| - 1];
      var item := Generated(Members(tasks, k), view, monthOf, dateIn);
      GeneratedItems(tasks, keys[..|keys| - 1], view, monthOf, dateIn) + (if item.Some? then [item.value] else [])
  }

  lemma GroupsNonEmptyAll(tasks: seq<Task>)
    ensures forall k :: k in SeriesKeys(tasks) ==> Members(tasks, k) != []
  {
    forall k | k in SeriesKeys(tasks)
      ensures Members(tasks, k) != []
    {
      GroupsNonEmpty(tasks, k);
    }
  }

  /** Every item `tasksByDate` produces for month `m` of year `y`, in the order it adds them. */
  function CalendarItems(tasks: seq<Task>, y: int, m: int, monthOf: string -> Option<int>,
                         dateIn: Task -> Option<string>): seq<CalendarItem>
  {
    GroupsNonEmptyAll(tasks);
    RealItems(tasks, y, m) + GeneratedItems(tasks, SeriesKeys(tasks), MonthIndexValue(y, m), monthOf, dateIn)
  }

  /**
   * Each generated item belongs to one of the listed series and is due on a pattern date of one
   * of its tasks.
   */
  lemma {:induction false} GeneratedItemsFrom(tasks: seq<Task>, keys: seq<SeriesKey>, view: int,
                                              monthOf: string -> Option<int>, dateIn: Task -> Option<string>)
    requires forall k :: k in keys ==> Members(tasks, k) != []
    ensures forall it :: it in GeneratedItems(tasks, keys, view, monthOf, dateIn) ==>
      && it.isGenerated && KeyOf(it.task) in keys && it.task.dueDate == Some(it.date) && !it.task.completed
      && exists t :: t in tasks && dateIn(t) == Some(it.date)
  {
    if keys != [] {
      var k := keys[|keys| - 1];
      var init := keys[..|keys| - 1];
      GeneratedItemsFrom(tasks, init, view, monthOf, dateIn);
      var group := Members(tasks, k);
      var item := Generated(group, view, monthOf, dateIn);
      if item.Some? {
        GeneratedFacts(group, view, monthOf, dateIn);
        MembersExact(tasks, k);
        assert KeyOf(item.value.task) == k;
      }
    }
  }

  /** No two of the items are tasks of the same series. */
  predicate DistinctSeries(items: seq<CalendarItem>) {
    forall i, j :: 0 <= i < j < |items| ==> KeyOf(items[i].task) != KeyOf(items[j].task)
  }

  /** At most one occurrence is generated per series. */
  lemma {:induction false} OnePerSeries(tasks: seq<Task>, keys: seq<SeriesKey>, view: int,
                                        monthOf: string -> Option<int>, dateIn: Task -> Option<string>)
    requires forall k :: k in keys ==> Members(tasks, k) != []
    requires forall i, j :: 0 <= i < j < |keys| ==> keys[i] != keys[j]
    ensures DistinctSeries(GeneratedItems(tasks, keys, view, monthOf, dateIn))
  {
    if keys != [] {
      var k := keys[|keys| - 1];
      var init := keys[..|keys| - 1];
      var before := GeneratedItems(tasks, init, view, monthOf, dateIn);
      var g := GeneratedItems(tasks, keys, view, monthOf, dateIn);
      OnePerSeries(tasks, init, view, monthOf, dateIn);
      if |g| > |before| {
        var group := Members(tasks, k);
        var last := Generated(group, view, monthOf, dateIn).value;
        assert g == before + [last];
        assert KeyOf(last.task) == k by {
          MembersExact(tasks, k);
          GeneratedFacts(group, view, monthOf, dateIn);
        }
        assert forall i :: 0 <= i < |before| ==> KeyOf(before[i].task) != k by {
          GeneratedItemsFrom(tasks, init, view, monthOf, dateIn);
          assert k !in init;
          assert forall i :: 0 <= i < |before| ==> before[i] in before;
        }
        forall i, j | 0 <= i < j < |g|
          ensures KeyOf(g[i].task) != KeyOf(g[j].task)
        {
          assert g[i] == before[i];
          if j < |before| {
            assert g[j] == before[j];
            assert KeyOf(before[i].task) != KeyOf(before[j].task);
          } else {
            assert g[j] == last;
            assert KeyOf(before[i].task) != k;
          }
        }
      } else {
        assert g == before;
      }
    }
  }

  /** The month's view generates at most one occurrence per series. */
  lemma OneOccurrencePerSeries(tasks: seq<Task>, y: int, m: int, monthOf: string -> Option<int>, dateIn: Task -> Option<string>)
    ensures DistinctSeries(CalendarItems(tasks, y, m, monthOf, dateIn)[|RealItems(tasks, y, m)|..])
  {
    GroupsNonEmptyAll(tasks);
    SeriesKeysExact(tasks);
    var generated := GeneratedItems(tasks, SeriesKeys(tasks), MonthIndexValue(y, m), monthOf, dateIn);
    OnePerSeries(tasks, SeriesKeys(tasks), MonthIndexValue(y, m), monthOf, dateIn);
    assert CalendarItems(tasks, y, m, monthOf, dateIn)[|RealItems(tasks, y, m)|..] == generated;
  }

  /**
   * Every item shown carries its date as the task's due date, and that date lies in the viewed
   * month when the pattern dates do.
   */
  lemma ItemsDated(tasks: seq<Task>, y: int, m: int, monthOf: string -> Option<int>, dateIn: Task -> Option<string>)
    requires forall t :: dateIn(t).Some? ==> StartsWith(dateIn(t).value, MonthPrefix(y, m))
    ensures forall it :: it in CalendarItems(tasks, y, m, monthOf, dateIn) ==>
      it.task.dueDate == Some(it.date) && StartsWith(it.date, MonthPrefix(y, m))
  {
    RealItemsExact(tasks, y, m);
    GroupsNonEmptyAll(tasks);
    GeneratedItemsFrom(tasks, SeriesKeys(tasks), MonthIndexValue(y, m), monthOf, dateIn);
  }

  // ----- tasksByDate -----

  /** The first pass of `tasksByDate`: every task due in the month, on its own date. */
  method BucketDueTasks(tasks: seq<Task>, year: int, monthIndex: int) returns (grouped: map<string, seq<CalendarItem>>)
    ensures grouped == Bucket(RealItems(tasks, year, monthIndex))
  {
    grouped := map[];
    for i := 0 to |tasks|
      invariant grouped == Bucket(RealItems(tasks[..i], year, monthIndex))
    {
      var task := tasks[i];
      assert tasks[..i + 1][..i] == tasks[..i];
      assert tasks[..i + 1][i] == task;
      if HasDueDate(task) && StartsWith(task.dueDate.value, MonthPrefix(year, monthIndex)) {
        var item := CalendarItem(task, task.dueDate.value, false);
        BucketSnoc(RealItems(tasks[..i], year, monthIndex), item);
        grouped := AddItem(grouped, item);
      } else {
        assert RealItems(tasks[..i + 1], year, monthIndex) == RealItems(tasks[..i], year, monthIndex);
      }
    }
    assert tasks[..|tasks|] == tasks;
  }

  /** The series pass of `tasksByDate`: the series in order of first appearance, with their tasks. */
  method GroupSeries(tasks: seq<Task>) returns (keys: seq<SeriesKey>, groups: map<SeriesKey, seq<Task>>)
    ensures keys == SeriesKeys(tasks)
    ensures forall k :: k in groups <==> k in keys
    ensures forall k :: k in groups ==> groups[k] == Members(tasks, k)
  {
    keys := [];
    groups := map[];
    for i := 0 to |tasks|
      invariant keys == SeriesKeys(tasks[..i])
      invariant forall k :: k in groups <==> k in keys
      invariant forall k :: k in groups ==> groups[k] == Members(tasks[..i], k)
    {
      var task := tasks[i];
      assert tasks[..i + 1][..i] == tasks[..i];
      assert tasks[..i + 1][i] == task;
      if InSeries(task) {
        var key := KeyOf(task);
        if key in groups {
          groups := groups[key := groups[key] + [task]];
        } else {
          GroupsNonEmpty(tasks[..i], key);
          keys := keys + [key];
          groups := groups[key := [task]];
        }
      }
    }
    assert tasks[..|tasks|] == tasks;
  }

  /** The last pass of `tasksByDate`: at most one occurrence per series, added after the due tasks. */
  method AddOccurrences(grouped0: map<string, seq<CalendarItem>>, ghost dueItems: seq<CalendarItem>,
                        tasks: seq<Task>, keys: seq<SeriesKey>, groups: map<SeriesKey, seq<Task>>, view: int,
                        monthOf: string -> Option<int>, dateIn: Task -> Option<string>)
    returns (grouped: map<string, seq<CalendarItem>>)
    requires grouped0 == Bucket(dueItems)
    requires forall k :: k in keys ==> k in groups && groups[k] == Members(tasks, k) && groups[k] != []
    ensures grouped == Bucket(dueItems + GeneratedItems(tasks, keys, view, monthOf, dateIn))
  {
    grouped := grouped0;
    assert dueItems + [] == dueItems;
    for j := 0 to |keys|
      invariant grouped == Bucket(dueItems + GeneratedItems(tasks, keys[..j], view, monthOf, dateIn))
    {
      var item := Generated(groups[keys[j]], view, monthOf, dateIn);
      ghost var before := dueItems + GeneratedItems(tasks, keys[..j], view, monthOf, dateIn);
      GeneratedItemsStep(tasks, keys, j, view, monthOf, dateIn);
      if item.Some? {
        assert dueItems + GeneratedItems(tasks, keys[..j + 1], view, monthOf, dateIn) == before + [item.value];
        BucketSnoc(before, item.value);
        grouped := AddItem(grouped, item.value);
      } else {
        assert dueItems + GeneratedItems(tasks, keys[..j + 1], view, monthOf, dateIn) == before;
      }
    }
    assert keys[..|keys|] == keys;
  }

  /** One more series adds its occurrence, if any, at the end. */
  lemma GeneratedItemsStep(tasks: seq<Task>, keys: seq<SeriesKey>, j: int, view: int,
                           monthOf: string -> Option<int>, dateIn: Task -> Option<string>)
    requires 0 <= j < |keys|
    requires forall k :: k in keys ==> Members(tasks, k) != []
    ensures var item := Generated(Members(tasks, keys[j]), view, monthOf, dateIn);
      GeneratedItems(tasks, keys[..j + 1], view, monthOf, dateIn)
      == GeneratedItems(tasks, keys[..j], view, monthOf, dateIn) + (if item.Some? then [item.value] else [])
  {
    var next := keys[..j + 1];
    assert next[..|next| - 1] == keys[..j] && next[|next| - 1] == keys[j];
  }

  /**
   * `tasksByDate` for month `monthIndex` of `year`: adds an item for each task due in the month,
   * groups the recurring tasks into series, then adds the occurrence each series generates.
   */
  method TasksByDate(tasks: seq<Task>, year: int, monthIndex: int, monthOf: string -> Option<int>,
                     dateIn: Task -> Option<string>) returns (grouped: map<string, seq<CalendarItem>>)
    ensures grouped == Bucket(CalendarItems(tasks, year, monthIndex, monthOf, dateIn))
  {
    grouped := BucketDueTasks(tasks, year, monthIndex);
    var keys, groups := GroupSeries(tasks);
    GroupsNonEmptyAll(tasks);
    grouped := AddOccurrences(grouped, RealItems(tasks, year, monthIndex), tasks, keys, groups,
                              MonthIndexValue(year, monthIndex), monthOf, dateIn);
  }

  // ----- the month view with the real readers -----

  /** `getRecurringDateForMonth(task, y, m)` as a reader. */
  function PatternDates(y: int, m: int): Task -> Option<string> {
    t => RecurringDateForMonth(t, y, m)
  }

  /** Every pattern date of a month lies in that month. */
  lemma PatternDatesInMonth(y: int, m: int)
    ensures forall t :: PatternDates(y, m)(t).Some? ==> StartsWith(PatternDates(y, m)(t).value, MonthPrefix(y, m))
  {
    forall t | PatternDates(y, m)(t).Some?
      ensures StartsWith(PatternDates(y, m)(t).value, MonthPrefix(y, m))
    {
      FormattedStartsWithPrefix(y, m, RecurringDayForMonth(t, y, m).value);
    }
  }

  /** The items the month view shows for month `m` of year `y`. */
  function MonthItems(tasks: seq<Task>, y: int, m: int): seq<CalendarItem> {
    CalendarItems(tasks, y, m, MonthIndexFromDate, PatternDates(y, m))
  }

  /**
   * A day cell of the month view lists exactly the items of that day, in order: every item is on
   * its task's due date, inside the viewed month.
   */
  lemma CellsOfTheMonth(tasks: seq<Task>, y: int, m: int, date: string)
    ensures Cell(Bucket(MonthItems(tasks, y, m)), date) == OnDate(MonthItems(tasks, y, m), date)
    ensures forall it :: it in Cell(Bucket(MonthItems(tasks, y, m)), date) ==>
      it.date == date && it.task.dueDate == Some(date) && StartsWith(date, MonthPrefix(y, m))
  {
    BucketCells(MonthItems(tasks, y, m), date);
    PatternDatesInMonth(y, m);
    ItemsDated(tasks, y, m, MonthIndexFromDate, PatternDates(y, m));
  }

  /** Every task due in the viewed month is shown, as it is, on its due date. */
  lemma DueTaskShown(tasks: seq<Task>, y: int, m: int, t: Task)
    requires t in tasks && DueIn(t, y, m)
    ensures CalendarItem(t, t.dueDate.value, false) in Cell(Bucket(MonthItems(tasks, y, m)), t.dueDate.value)
  {
    RealItemsExact(tasks, y, m);
    BucketCells(MonthItems(tasks, y, m), t.dueDate.value);
  }

  /**
   * With well-formed patterns (weekday 0..6, occurrence 1..5) and a year outside 0..99, an
   * occurrence generated in the month view falls on a real day of the viewed month.
   */
  lemma GeneratedInMonth(group: seq<Task>, y: int, m: int)
    requires !(0 <= y <= 99) && 0 <= m < 12
    requires group != [] && Generated(group, MonthIndexValue(y, m), MonthIndexFromDate, PatternDates(y, m)).Some?
    requires forall t :: t in group && HasWeekdayPattern(t) ==>
      0 <= t.recurringWeekday.value <= 6 && 1 <= t.recurringWeekOfMonth.value <= 5
    ensures var it := Generated(group, MonthIndexValue(y, m), MonthIndexFromDate, PatternDates(y, m)).value;
      exists day :: 1 <= day <= DaysInMonth(y, m) && it.date == FormatDateKey(Date(y, m, day))
  {
    var rep := Representative(group);
    GeneratedFacts(group, MonthIndexValue(y, m), MonthIndexFromDate, PatternDates(y, m));
    RecurringDayInMonth(rep, y, m);
    var day := RecurringDayForMonth(rep, y, m).value;
    assert PatternDates(y, m)(rep) == Some(FormatDateKey(Date(y, m, day)));
  }

  // ----- month navigation -----

  /** `new Date(y, m, 1)` for any month number: the first of the month `m` rolls into. */
  lemma FirstOfMonth(y: int, m: int)
    requires !(0 <= y <= 99)
    ensures var mi := MonthIndexValue(y, m);
      MakeDate(y, m, 1) == Date(mi / 12, mi % 12, 1)
  {
  }

  /** The calendar's state: the day whose month is shown, and the tasks loaded from the store. */
  class CalendarView {
    var current: Date
    var tasks: seq<Task>

    /** The view opens on the current day `today` with the tasks `loaded`. */
    constructor(today: Date, loaded: seq<Task>)
      ensures current == today && tasks == loaded
    {
      current := today;
      tasks := loaded;
    }

    /** `tasksByDate` of the shown month: the day cells of `MonthItems`. */
    method Cells() returns (grouped: map<string, seq<CalendarItem>>)
      ensures grouped == Bucket(MonthItems(tasks, current.year, current.month))
    {
      grouped := TasksByDate(tasks, current.year, current.month, MonthIndexFromDate, PatternDates(current.year, current.month));
    }

    /** `previousMonth`: `new Date(year, month - 1)`, the first of the month before. */
    method PreviousMonth()
      modifies this`current
      ensures current == MakeDate(old(current).year, old(current).month - 1, 1)
    {
      current := MakeDate(current.year, current.month - 1, 1);
    }

    /** `nextMonth`: `new Date(year, month + 1)`, the first of the month after. */
    method NextMonth()
      modifies this`current
      ensures current == MakeDate(old(current).year, old(current).month + 1, 1)
    {
      current := MakeDate(current.year, current.month + 1, 1);
    }
  }

  /** Moving on one month from a date of a year outside 0..99 lands on the first of the following month. */
  lemma NextMonthStep(d: Date)
    requires Valid(d) && !(0 <= d.year <= 99)
    ensures var n := MakeDate(d.year, d.month + 1, 1);
      n.day == 1 && MonthIndexValue(n.year, n.month) == MonthIndexValue(d.year, d.month) + 1
  {
    FirstOfMonth(d.year, d.month + 1);
  }

  /** Moving back one month lands on the first of the month before. */
  lemma PreviousMonthStep(d: Date)
    requires Valid(d) && !(0 <= d.year <= 99)
    ensures var p := MakeDate(d.year, d.month - 1, 1);
      p.day == 1 && MonthIndexValue(p.year, p.month) == MonthIndexValue(d.year, d.month) - 1
  {
    FirstOfMonth(d.year, d.month - 1);
  }

  /** Back and forth returns to the first of the month shown, from the year 101 on. */
  lemma BackAndForth(d: Date)
    requires Valid(d) && d.year >= 101
    ensures var p := MakeDate(d.year, d.month - 1, 1);
      MakeDate(p.year, p.month + 1, 1) == Date(d.year, d.month, 1)
  {
    var p := MakeDate(d.year, d.month - 1, 1);
    PreviousMonthStep(d);
    NextMonthStep(p);
    var n := MakeDate(p.year, p.month + 1, 1);
    MonthIndexValueInverse(d.year, d.month);
    MonthIndexValueInverse(n.year, n.month);
  }
}
