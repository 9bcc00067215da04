/**
 * The task list's state and its handlers: adding a task (with the weekday pattern derived from
 * its date), completing a task (with the successor of a recurring one), deleting, the detail
 * view with its edit form and the edit diff, and the deliverable checklist of the selected task.
 *
 * The store calls are abstract: a handler receives whether the call succeeded and, for a
 * created task, the id the store gave it. The clock is the parameter `now`, and a fresh
 * deliverable id is a parameter as well.
 */
module TaskList {
  import opened Wrappers
  import opened Dates
  import opened DateText
  import opened TasksApi
  import opened Recurrence

  /** A duration text field as `parseFloat` reads it: blank, a number, or `NaN`. */
  datatype DurationText = Blank | Number(value: real) | NotANumber

  /** The five fields of the edit form. */
  datatype EditForm = EditForm(
    title: string, priority: Priority, dueDate: string, duration: DurationText, isRecurring: bool)

  /** What `saveTaskEdits` decides: one of its three refusals, nothing to send, or an update. */
  datatype EditOutcome = TitleRequired | DateRequired | DurationInvalid | NoChanges | Changes(u: TaskUpdates)

  // ----- the task list -----

  /** The position of the first task with id `id`, or -1. */
  function IndexOfId(tasks: seq<Task>, id: int): (i: int)
    ensures -1 <= i < |tasks|
    ensures i == -1 <==> forall j :: 0 <= j < |tasks| ==> tasks[j].id != id
    ensures i >= 0 ==> tasks[i].id == id && forall j :: 0 <= j < i ==> tasks[j].id != id
  {
    if tasks == [] then -1
    else if tasks[0].id == id then 0
    else
      var k := IndexOfId(tasks[1..], id);
      if k == -1 then -1 else k + 1
  }

  /** `tasks.find(t => t.id === id)`. */
  function FindTask(tasks: seq<Task>, id: int): Option<Task> {
    var i := IndexOfId(tasks, id);
    if i < 0 then None else Some(tasks[i])
  }

  /** `tasks.map(t => t.id === id ? { ...t, completed } : t)`. */
  function SetCompleted(tasks: seq<Task>, id: int, completed: bool): (r: seq<Task>)
    ensures |r| == |tasks|
    ensures forall i :: 0 <= i < |tasks| ==>
      r[i] == if tasks[i].id == id then tasks[i].(completed := completed) else tasks[i]
  {
    if tasks == [] then []
    else
      var head := if tasks[0].id == id then tasks[0].(completed := completed) else tasks[0];
      [head] + SetCompleted(tasks[1..], id, completed)
  }

  /** `tasks.map(task => task.id === id ? { ...task, deliverables } : task)`. */
  function SetDeliverables(tasks: seq<Task>, id: int, ds: seq<Deliverable>): (r: seq<Task>)
    ensures |r| == |tasks|
    ensures forall i :: 0 <= i < |tasks| ==>
      r[i] == if tasks[i].id == id then tasks[i].(deliverables := Some(ds)) else tasks[i]
  {
    if tasks == [] then []
    else
      var head := if tasks[0].id == id then tasks[0].(deliverables := Some(ds)) else tasks[0];
      [head] + SetDeliverables(tasks[1..], id, ds)
  }

  /** `tasks.map(task => task.id === id ? updated : task)`. */
  function Replace(tasks: seq<Task>, id: int, updated: Task): (r: seq<Task>)
    ensures |r| == |tasks|
    ensures forall i :: 0 <= i < |tasks| ==> r[i] == if tasks[i].id == id then updated else tasks[i]
  {
    if tasks == [] then []
    else [if tasks[0].id == id then updated else tasks[0]] + Replace(tasks[1..], id, updated)
  }

  /** `tasks.filter(task => task.id !== id)`. */
  function Without(tasks: seq<Task>, id: int): (r: seq<Task>)
    ensures |r| <= |tasks|
  {
    if tasks == [] then []
    else (if tasks[0].id != id then [tasks[0]] else []) + Without(tasks[1..], id)
  }

  /** The filter keeps exactly the tasks with another id. */
  lemma {:induction false} WithoutMembers(tasks: seq<Task>, id: int)
    ensures forall t :: t in Without(tasks, id) <==> t in tasks && t.id != id
  {
    if tasks != [] {
      WithoutMembers(tasks[1..], id);
      assert tasks == [tasks[0]] + tasks[1..];
    }
  }

  /** Filtering out an id no task has keeps the list as it is. */
  lemma {:induction false} WithoutAbsent(tasks: seq<Task>, id: int)
    requires forall t :: t in tasks ==> t.id != id
    ensures Without(tasks, id) == tasks
  {
    if tasks != [] {
      WithoutAbsent(tasks[1..], id);
      assert tasks == [tasks[0]] + tasks[1..];
    }
  }

  /** The filter works element by element: filtering a concatenation filters each part, in order. */
  lemma {:induction false} WithoutAppend(a: seq<Task>, b: seq<Task>, id: int)
    ensures Without(a + b, id) == Without(a, id) + Without(b, id)
  {
    if a == [] {
      assert a + b == b;
    } else {
      var head := if a[0].id != id then [a[0]] else [];
      assert (a + b)[0] == a[0] && (a + b)[1..] == a[1..] + b;
      assert Without(a + b, id) == head + Without(a[1..] + b, id);
      WithoutAppend(a[1..], b, id);
      assert Without(a, id) == head + Without(a[1..], id);
    }
  }

  /** On one task the filter keeps it exactly when its id differs. */
  lemma WithoutOne(t: Task, id: int)
    ensures Without([t], id) == if t.id != id then [t] else []
  {
    assert [t][1..] == [];
  }

  /** Filtering is idempotent. */
  lemma WithoutTwice(tasks: seq<Task>, id: int)
    ensures Without(Without(tasks, id), id) == Without(tasks, id)
  {
    WithoutMembers(tasks, id);
    WithoutAbsent(Without(tasks, id), id);
  }

  // ----- new tasks -----

  /**
   * The weekday pattern `addTask` and `saveTaskEdits` derive from a date text: the weekday and
   * week of month of `new Date(text + 'T00:00:00')`. For an invalid date both are `NaN`, which
   * the store keeps as null.
   */
  function DatePattern(text: string): (p: (Option<int>, Option<int>))
    ensures p.0.Some? <==> p.1.Some?
    ensures p.0.Some? ==> 0 <= p.0.value <= 6
  {
    var date := ParseDueDate(text);
    if date.None? then (None, None) else (Some(Weekday(date.value)), Some(WeekOfMonth(date.value)))
  }

  /** The duration a text field gives: `NaN` is stored as null, so only a number survives. */
  function DurationOf(d: DurationText): Option<real> {
    if d.Number? then Some(d.value) else None
  }

  /**
   * The task `addTask` sends (its id is the store's to choose): the title as typed, not completed;
   * a non-empty date becomes the due date, and for a recurring task also the weekday pattern.
   */
  function NewTaskData(title: string, priority: Priority, dueDate: string, duration: DurationText,
                       isRecurring: bool): (t: Task)
    ensures t.title == title && !t.completed && t.priority == priority && t.isRecurring == isRecurring
    ensures t.dueDate == (if dueDate == "" then None else Some(dueDate))
    ensures t.recurringDay.None? && t.deliverables.None? && t.duration == DurationOf(duration)
    ensures isRecurring && dueDate != "" ==> (t.recurringWeekday, t.recurringWeekOfMonth) == DatePattern(dueDate)
    ensures !(isRecurring && dueDate != "") ==> t.recurringWeekday.None? && t.recurringWeekOfMonth.None?
  {
    var pattern := if isRecurring && dueDate != "" then DatePattern(dueDate) else (None, None);
    Task(0, title, false, priority, if dueDate == "" then None else Some(dueDate), DurationOf(duration),
      isRecurring, None, pattern.0, pattern.1, None)
  }

  /**
   * The pattern `addTask` derives from the chosen date projects back onto that date: in the
   * date's own month the calendar places the new task on exactly that day.
   */
  lemma NewTaskPatternProjectsBack(title: string, priority: Priority, dueDate: string, duration: DurationText)
    requires ParseDueDate(dueDate).Some? && !(0 <= ParseDueDate(dueDate).value.year <= 99)
    ensures var t := NewTaskData(title, priority, dueDate, duration, true);
      var date := ParseDueDate(dueDate).value;
      HasWeekdayPattern(t) && RecurringDateForMonth(t, date.year, date.month) == Some(FormatDateKey(date))
  {
    var date := ParseDueDate(dueDate).value;
    PatternRoundTrip(date);
  }

  /**
   * The successor `toggleTask` sends: title, priority, the pattern fields and the duration of
   * the completed task, not completed, recurring, with the given due date and no deliverables.
   */
  function SuccessorTask(t: Task, dueDate: string): (s: Task)
    ensures s.title == t.title && s.priority == t.priority && s.duration == t.duration
    ensures s.recurringDay == t.recurringDay && s.recurringWeekday == t.recurringWeekday
    ensures s.recurringWeekOfMonth == t.recurringWeekOfMonth
    ensures !s.completed && s.isRecurring && s.dueDate == Some(dueDate) && s.deliverables.None?
  {
    Task(0, t.title, false, t.priority, Some(dueDate), t.duration, true,
      t.recurringDay, t.recurringWeekday, t.recurringWeekOfMonth, None)
  }

  /**
   * The successor date `toggleTask` computes for a completed recurring task: the next weekday
   * occurrence after its due date (after `now` when it has none), else the truthy day pattern in
   * the month after `now`; no date otherwise.
   */
  method NextDueDateOf(t: Task, now: Date) returns (next: Option<string>)
    requires Valid(now)
    ensures next == SuccessorDueDate(t, now)
  {
    if t.recurringWeekday.Some? && t.recurringWeekOfMonth.Some? {
      var from := if t.dueDate.Some? && t.dueDate.value != "" then ParseDueDate(t.dueDate.value) else Some(now);
      var key := NextWeekdayOccurrence(t.recurringWeekday.value, t.recurringWeekOfMonth.value, from);
      return Some(key);
    }
    if t.recurringDay.Some? && t.recurringDay.value != 0 {
      var key := DaySuccessorKey(now, t.recurringDay.value);
      return Some(key);
    }
    return None;
  }

  // ----- deliverables -----

  /** `task.deliverables || []`. */
  function DeliverablesOf(t: Task): seq<Deliverable> {
    t.deliverables.GetOr([])
  }

  /** The ids of a checklist, in order. */
  function Ids(ds: seq<Deliverable>): (r: seq<string>)
    ensures |r| == |ds| && forall i :: 0 <= i < |ds| ==> r[i] == ds[i].id
  {
    if ds == [] then [] else [ds[0].id] + Ids(ds[1..])
  }

  /** `toggleDeliverable`'s map: the matching items flip `completed`, the others stay. */
  function ToggleIn(ds: seq<Deliverable>, id: string): (r: seq<Deliverable>)
    ensures |r| == |ds|
    ensures forall i :: 0 <= i < |ds| ==>
      r[i] == if ds[i].id == id then ds[i].(completed := !ds[i].completed) else ds[i]
  {
    if ds == [] then []
    else [if ds[0].id == id then ds[0].(completed := !ds[0].completed) else ds[0]] + ToggleIn(ds[1..], id)
  }

  /** `removeDeliverable`'s filter: the items with another id, in order. */
  function RemoveFrom(ds: seq<Deliverable>, id: string): (r: seq<Deliverable>)
    ensures |r| <= |ds|
  {
    if ds == [] then []
    else (if ds[0].id != id then [ds[0]] else []) + RemoveFrom(ds[1..], id)
  }

  /** The filter keeps exactly the items with another id. */
  lemma {:induction false} RemoveMembers(ds: seq<Deliverable>, id: string)
    ensures forall d :: d in RemoveFrom(ds, id) <==> d in ds && d.id != id
  {
    if ds != [] {
      RemoveMembers(ds[1..], id);
      assert ds == [ds[0]] + ds[1..];
    }
  }

  /** Toggling the same item twice gives the checklist back. */
  lemma {:induction false} ToggleTwice(ds: seq<Deliverable>, id: string)
    ensures ToggleIn(ToggleIn(ds, id), id) == ds
  {
    if ds != [] {
      ToggleTwice(ds[1..], id);
      assert ToggleIn(ds, id)[1..] == ToggleIn(ds[1..], id);
    }
  }

  /** Toggling keeps the items' ids, titles and order. */
  lemma ToggleKeepsItems(ds: seq<Deliverable>, id: string)
    ensures Ids(ToggleIn(ds, id)) == Ids(ds)
    ensures forall i :: 0 <= i < |ds| ==> ToggleIn(ds, id)[i].title == ds[i].title
  {
  }

  /** Removing an id no item has keeps the checklist as it is. */
  lemma {:induction false} RemoveAbsent(ds: seq<Deliverable>, id: string)
    requires forall d :: d in ds ==> d.id != id
    ensures RemoveFrom(ds, id) == ds
  {
    if ds != [] {
      RemoveAbsent(ds[1..], id);
      assert ds == [ds[0]] + ds[1..];
    }
  }

  /** Removing a just-added item with a fresh id gives the checklist from before the addition. */
  lemma RemoveAfterAdd(ds: seq<Deliverable>, d: Deliverable)
    requires forall x :: x in ds ==> x.id != d.id
    ensures RemoveFrom(ds + [d], d.id) == ds
  {
    RemoveAppend(ds, [d], d.id);
    RemoveAbsent(ds, d.id);
  }

  lemma {:induction false} RemoveAppend(a: seq<Deliverable>, b: seq<Deliverable>, id: string)
    ensures RemoveFrom(a + b, id) == RemoveFrom(a, id) + RemoveFrom(b, id)
  {
    if a == [] {
      assert a + b == b;
    } else {
      var head := if a[0].id != id then [a[0]] else [];
      assert (a + b)[0] == a[0] && (a + b)[1..] == a[1..] + b;
      assert RemoveFrom(a + b, id) == head + RemoveFrom(a[1..] + b, id);
      RemoveAppend(a[1..], b, id);
      assert RemoveFrom(a, id) == head + RemoveFrom(a[1..], id);
    }
  }

  /** Removing twice removes nothing more. */
  lemma RemoveTwice(ds: seq<Deliverable>, id: string)
    ensures RemoveFrom(RemoveFrom(ds, id), id) == RemoveFrom(ds, id)
  {
    RemoveMembers(ds, id);
    RemoveAbsent(RemoveFrom(ds, id), id);
  }

  // ----- the edit diff -----

  /** `hydrateEditFields(task)`: the form shows the task (an absent due date as `''`). */
  function FormOf(t: Task): EditForm {
    EditForm(t.title, t.priority, t.dueDate.GetOr(""),
      if t.duration.Some? then Number(t.duration.value) else Blank, t.isRecurring)
  }

  /** How a pattern field is sent: `NaN` (no date) always differs and is sent as null. */
  function PatternPatch(current: Option<int>, derived: Option<int>): Patch<int> {
    if derived.None? then Clear
    else if current != derived then Set(derived.value)
    else Keep
  }

  /** The form as `saveTaskEdits` reads it: title and due date trimmed. */
  function Trimmed(e: EditForm): (f: EditForm)
    ensures f.title == Trim(e.title) && f.dueDate == Trim(e.dueDate)
    ensures f.priority == e.priority && f.duration == e.duration && f.isRecurring == e.isRecurring
  {
    e.(title := Trim(e.title), dueDate := Trim(e.dueDate))
  }

  /**
   * The update `saveTaskEdits` builds from the trimmed form `f` once its checks pass: the fields
   * the form changes (an emptied due date or duration as null) and, for a recurring task with a
   * date, the pattern `derived` from that date (its `DatePattern`) where it differs.
   */
  function EditUpdates(t: Task, f: EditForm, derived: (Option<int>, Option<int>)): TaskUpdates {
    var duration := DurationOf(f.duration);
    TaskUpdates(
      if f.title != t.title then Some(f.title) else None,
      None,
      if f.priority != t.priority then Some(f.priority) else None,
      if t.dueDate.GetOr("") != f.dueDate then (if f.dueDate == "" then Clear else Set(f.dueDate)) else Keep,
      if duration != t.duration then (if duration.None? then Clear else Set(duration.value)) else Keep,
      if f.isRecurring != t.isRecurring then Some(f.isRecurring) else None,
      Keep,
      if f.isRecurring && f.dueDate != "" then PatternPatch(t.recurringWeekday, derived.0) else Keep,
      if f.isRecurring && f.dueDate != "" then PatternPatch(t.recurringWeekOfMonth, derived.1) else Keep,
      Keep)
  }

  /**
   * `saveTaskEdits`' decision: a blank title, turning the recurring flag on without a date, and a
   * duration that is not a number are refused; otherwise the diff is sent unless it is empty.
   */
  function BuildEdits(t: Task, e: EditForm): (r: EditOutcome)
    ensures r == TitleRequired <==> Trim(e.title) == ""
    ensures r == DateRequired <==> Trim(e.title) != "" && e.isRecurring && !t.isRecurring && Trim(e.dueDate) == ""
    ensures r == DurationInvalid <==>
      Trim(e.title) != "" && !(e.isRecurring && !t.isRecurring && Trim(e.dueDate) == "") && e.duration.NotANumber?
    ensures r.Changes? ==> r.u == EditUpdates(t, Trimmed(e), DatePattern(Trim(e.dueDate))) && r.u != NoUpdates
    ensures r.NoChanges? ==> EditUpdates(t, Trimmed(e), DatePattern(Trim(e.dueDate))) == NoUpdates
  {
    if Trim(e.title) == "" then TitleRequired
    else if e.isRecurring && !t.isRecurring && Trim(e.dueDate) == "" then DateRequired
    else if e.duration.NotANumber? then DurationInvalid
    else
      var u := EditUpdates(t, Trimmed(e), DatePattern(Trim(e.dueDate)));
      if u == NoUpdates then NoChanges else Changes(u)
  }

  /**
   * The task agrees with the trimmed form `f`: title, priority, due date (absent read as `''`),
   * duration and recurring flag match, and a recurring task with a date has the pattern
   * `derived` from that date.
   */
  predicate Agrees(t: Task, f: EditForm, derived: (Option<int>, Option<int>)) {
    t.title == f.title && t.priority == f.priority && t.dueDate.GetOr("") == f.dueDate
    && t.duration == DurationOf(f.duration) && t.isRecurring == f.isRecurring
    && (f.isRecurring && f.dueDate != "" ==> (t.recurringWeekday, t.recurringWeekOfMonth) == derived)
  }

  /** A pattern field sent as `PatternPatch` reads back as the derived value. */
  lemma PatchPattern(current: Option<int>, derived: Option<int>)
    ensures PatchOption(current, PatternPatch(current, derived)) == derived
  {
  }

  /**
   * The diff is exact: applying it makes the task agree with the form, and it touches neither
   * completion, nor the day pattern, nor the deliverables.
   */
  lemma EditsApplied(t: Task, f: EditForm, derived: (Option<int>, Option<int>))
    requires !f.duration.NotANumber?
    ensures Agrees(ApplyUpdates(t, EditUpdates(t, f, derived)), f, derived)
    ensures var u := EditUpdates(t, f, derived); u.completed.None? && u.recurringDay.Keep? && u.deliverables.Keep?
  {
    if f.isRecurring && f.dueDate != "" {
      PatchPattern(t.recurringWeekday, derived.0);
      PatchPattern(t.recurringWeekOfMonth, derived.1);
    }
  }

  /** The diff holds only fields that differ from the task. */
  lemma EditsOnlyChanges(t: Task, f: EditForm, derived: (Option<int>, Option<int>))
    ensures var u := EditUpdates(t, f, derived);
      && (u.title.Some? ==> u.title.value != t.title)
      && (u.priority.Some? ==> u.priority.value != t.priority)
      && (!u.dueDate.Keep? ==> PatchOption(t.dueDate, u.dueDate).GetOr("") != t.dueDate.GetOr(""))
      && (!u.duration.Keep? ==> PatchOption(t.duration, u.duration) != t.duration)
      && (u.isRecurring.Some? ==> u.isRecurring.value != t.isRecurring)
      && (u.recurringWeekday.Set? ==> Some(u.recurringWeekday.value) != t.recurringWeekday)
      && (u.recurringWeekOfMonth.Set? ==> Some(u.recurringWeekOfMonth.value) != t.recurringWeekOfMonth)
  {
  }

  /** When the diff is empty, the task already agrees with the form. */
  lemma NoChangesAgree(t: Task, f: EditForm, derived: (Option<int>, Option<int>))
    requires !f.duration.NotANumber? && EditUpdates(t, f, derived) == NoUpdates
    ensures Agrees(t, f, derived)
  {
    NoUpdatesChangeNothing(t);
    EditsApplied(t, f, derived);
  }

  /**
   * Conversely a form the task already agrees with gives an empty diff, unless its date cannot be
   * read: then the derived pattern is `NaN` and is sent as null on every save.
   */
  lemma AgreeingFormSendsNothing(t: Task, f: EditForm, derived: (Option<int>, Option<int>))
    requires Agrees(t, f, derived)
    requires f.isRecurring && f.dueDate != "" ==> derived.0.Some? && derived.1.Some?
    ensures EditUpdates(t, f, derived) == NoUpdates
  {
  }

  /** With an unreadable date, saving a recurring task always sends the pattern fields as null. */
  lemma UnreadableDateClearsPattern(t: Task, e: EditForm)
    requires e.isRecurring && Trim(e.dueDate) != "" && ParseDueDate(Trim(e.dueDate)).None?
    ensures var u := EditUpdates(t, Trimmed(e), DatePattern(Trim(e.dueDate)));
      u.recurringWeekday == Clear && u.recurringWeekOfMonth == Clear
  {
  }

  /**
   * The state of the task list: the tasks, the new-task form, the selected task with its
   * checklist input, and the edit form with its mode.
   */
  class TaskListState {
    var tasks: seq<Task>
    var newTask: string
    var newPriority: Priority
    var newDueDate: string
    var newDuration: DurationText
    var isRecurring: bool
    var selectedTaskId: Option<int>
    var newDeliverable: string
    var isEditingTask: bool
    var edit: EditForm

    constructor()
      ensures tasks == [] && newTask == "" && newPriority == Medium && newDueDate == ""
      ensures newDuration == Blank && !isRecurring && selectedTaskId.None? && newDeliverable == ""
      ensures !isEditingTask && edit == EditForm("", Medium, "", Blank, false)
    {
      tasks := [];
      newTask := "";
      newPriority := Medium;
      newDueDate := "";
      newDuration := Blank;
      isRecurring := false;
      selectedTaskId := None;
      newDeliverable := "";
      isEditingTask := false;
      edit := EditForm("", Medium, "", Blank, false);
    }

    /** `selectedTask`: the first task with the selected id, if any. */
    function SelectedTask(): Option<Task>
      reads this
    {
      if selectedTaskId.None? then None else FindTask(tasks, selectedTaskId.value)
    }

    /**
     * `addTask`: with a non-blank title, sends the new task; when the store creates it under
     * `createdId`, prepends it and clears the form (the priority is kept). A refused create, or
     * a blank title, changes nothing.
     */
    method AddTask(createdId: Option<int>)
      modifies this`tasks, this`newTask, this`newDueDate, this`newDuration, this`isRecurring
      ensures Trim(old(newTask)) == "" || createdId.None? ==>
        tasks == old(tasks) && newTask == old(newTask) && newDueDate == old(newDueDate)
        && newDuration == old(newDuration) && isRecurring == old(isRecurring)
      ensures Trim(old(newTask)) != "" && createdId.Some? ==>
        tasks == [NewTaskData(old(newTask), newPriority, old(newDueDate), old(newDuration), old(isRecurring))
                    .(id := createdId.value)] + old(tasks)
        && newTask == "" && newDueDate == "" && newDuration == Blank && !isRecurring
    {
      if Trim(newTask) == "" {
        return;
      }
      var data := NewTaskData(newTask, newPriority, newDueDate, newDuration, isRecurring);
      if createdId.None? {
        return;
      }
      tasks := [data.(id := createdId.value)] + tasks;
      newTask := "";
      newDueDate := "";
      newDuration := Blank;
      isRecurring := false;
    }

    /**
     * `toggleTask(id)`: when the store accepts the new `completed` value, the matching tasks take
     * it; when a recurring task became completed and has a successor date, the successor the
     * store creates under `createdId` is prepended. The successor date is the next weekday
     * occurrence after the task's due date (after `now` without one), else the recurring day in
     * the month after `now`, rolled over.
     */
    method ToggleTask(id: int, now: Date, updateOk: bool, createdId: Option<int>)
      requires Valid(now)
      modifies this`tasks
      ensures FindTask(old(tasks), id).None? || !updateOk ==> tasks == old(tasks)
      ensures FindTask(old(tasks), id).Some? && updateOk ==>
        var t := FindTask(old(tasks), id).value;
        var next := if !t.completed && t.isRecurring then SuccessorDueDate(t, now) else None;
        tasks == (if next.Some? && createdId.Some? then [SuccessorTask(t, next.value).(id := createdId.value)] else [])
                 + SetCompleted(old(tasks), id, !t.completed)
    {
      var found := FindTask(tasks, id);
      if found.None? {
        return;
      }
      var task := found.value;
      var newCompleted := !task.completed;
      if !updateOk {
        return;
      }
      tasks := SetCompleted(tasks, id, newCompleted);
      if newCompleted && task.isRecurring {
        var next := NextDueDateOf(task, now);
        if next.Some? && createdId.Some? {
          tasks := [SuccessorTask(task, next.value).(id := createdId.value)] + tasks;
        }
      }
    }

    /**
     * `deleteTask(id)`: once the store deletes it, the task leaves the list; if it was selected,
     * the detail view closes. A refused delete changes nothing.
     */
    method DeleteTask(id: int, deleteOk: bool)
      modifies this`tasks, this`selectedTaskId, this`isEditingTask, this`newDeliverable
      ensures !deleteOk ==>
        tasks == old(tasks) && selectedTaskId == old(selectedTaskId)
        && isEditingTask == old(isEditingTask) && newDeliverable == old(newDeliverable)
      ensures deleteOk ==> tasks == Without(old(tasks), id)
      ensures deleteOk && old(selectedTaskId) == Some(id) ==>
        selectedTaskId.None? && !isEditingTask && newDeliverable == ""
      ensures deleteOk && old(selectedTaskId) != Some(id) ==>
        selectedTaskId == old(selectedTaskId) && isEditingTask == old(isEditingTask)
        && newDeliverable == old(newDeliverable)
    {
      if !deleteOk {
        return;
      }
      tasks := Without(tasks, id);
      if selectedTaskId == Some(id) {
        selectedTaskId := None;
        isEditingTask := false;
        newDeliverable := "";
      }
    }

    /** `hydrateEditFields(task)`. */
    method HydrateEditFields(t: Task)
      modifies this`edit
      ensures edit == FormOf(t)
    {
      edit := FormOf(t);
    }

    /** `openTask(id)`: selects an existing task, shows it (not editing) and fills the form from it. */
    method OpenTask(id: int)
      modifies this`selectedTaskId, this`newDeliverable, this`isEditingTask, this`edit
      ensures FindTask(tasks, id).None? ==>
        selectedTaskId == old(selectedTaskId)
        && newDeliverable == old(newDeliverable) && isEditingTask == old(isEditingTask) && edit == old(edit)
      ensures FindTask(tasks, id).Some? ==>
        selectedTaskId == Some(id) && newDeliverable == ""
        && !isEditingTask && edit == FormOf(FindTask(tasks, id).value)
      ensures FindTask(tasks, id).Some? ==> SelectedTask() == FindTask(tasks, id)
    {
      var task := FindTask(tasks, id);
      if task.None? {
        return;
      }
      selectedTaskId := Some(id);
      newDeliverable := "";
      isEditingTask := false;
      HydrateEditFields(task.value);
    }

    /** `closeTaskView`. */
    method CloseTaskView()
      modifies this`selectedTaskId, this`isEditingTask, this`newDeliverable
      ensures selectedTaskId.None? && !isEditingTask && newDeliverable == ""
      ensures SelectedTask().None?
    {
      selectedTaskId := None;
      isEditingTask := false;
      newDeliverable := "";
    }

    /** `startEditingTask`: with a task selected, refills the form from it and enters edit mode. */
    method StartEditingTask()
      modifies this`edit, this`isEditingTask
      ensures SelectedTask().None? ==> edit == old(edit) && isEditingTask == old(isEditingTask)
      ensures SelectedTask().Some? ==> edit == FormOf(SelectedTask().value) && isEditingTask
    {
      var selected := SelectedTask();
      if selected.None? {
        return;
      }
      HydrateEditFields(selected.value);
      isEditingTask := true;
    }

    /** `cancelTaskEdits`: with a task selected, discards the form's changes and leaves edit mode. */
    method CancelTaskEdits()
      modifies this`edit, this`isEditingTask
      ensures SelectedTask().None? ==> edit == old(edit) && isEditingTask == old(isEditingTask)
      ensures SelectedTask().Some? ==> edit == FormOf(SelectedTask().value) && !isEditingTask
    {
      var selected := SelectedTask();
      if selected.None? {
        return;
      }
      HydrateEditFields(selected.value);
      isEditingTask := false;
    }

    /**
     * `updateDeliverables(taskId, deliverables)`: the matching tasks take the new checklist at
     * once; the store is told afterwards.
     */
    method UpdateDeliverables(taskId: int, ds: seq<Deliverable>)
      modifies this`tasks
      ensures tasks == SetDeliverables(old(tasks), taskId, ds)
    {
      tasks := SetDeliverables(tasks, taskId, ds);
    }

    /**
     * `addDeliverable`: with a task selected and a non-blank input, appends the trimmed text as an
     * open item with the fresh id `freshId`, and clears the input.
     */
    method AddDeliverable(freshId: string)
      modifies this`tasks, this`newDeliverable
      ensures old(SelectedTask()).None? || Trim(old(newDeliverable)) == "" ==>
        tasks == old(tasks) && newDeliverable == old(newDeliverable)
      ensures old(SelectedTask()).Some? && Trim(old(newDeliverable)) != "" ==>
        var t := old(SelectedTask()).value;
        newDeliverable == ""
        && tasks == SetDeliverables(old(tasks), t.id,
             DeliverablesOf(t) + [Deliverable(freshId, Trim(old(newDeliverable)), false)])
    {
      var selected := SelectedTask();
      if selected.None? || Trim(newDeliverable) == "" {
        return;
      }
      var task := selected.value;
      var next := DeliverablesOf(task) + [Deliverable(freshId, Trim(newDeliverable), false)];
      newDeliverable := "";
      UpdateDeliverables(task.id, next);
    }

    /** `toggleDeliverable(id)`: flips the matching items of the selected task's checklist. */
    method ToggleDeliverable(deliverableId: string)
      modifies this`tasks
      ensures old(SelectedTask()).None? ==> tasks == old(tasks)
      ensures old(SelectedTask()).Some? ==>
        var t := old(SelectedTask()).value;
        tasks == SetDeliverables(old(tasks), t.id, ToggleIn(DeliverablesOf(t), deliverableId))
    {
      var selected := SelectedTask();
      if selected.None? {
        return;
      }
      var task := selected.value;
      UpdateDeliverables(task.id, ToggleIn(DeliverablesOf(task), deliverableId));
    }

    /** `removeDeliverable(id)`: drops the matching items of the selected task's checklist. */
    method RemoveDeliverable(deliverableId: string)
      modifies this`tasks
      ensures old(SelectedTask()).None? ==> tasks == old(tasks)
      ensures old(SelectedTask()).Some? ==>
        var t := old(SelectedTask()).value;
        tasks == SetDeliverables(old(tasks), t.id, RemoveFrom(DeliverablesOf(t), deliverableId))
    {
      var selected := SelectedTask();
      if selected.None? {
        return;
      }
      var task := selected.value;
      UpdateDeliverables(task.id, RemoveFrom(DeliverablesOf(task), deliverableId));
    }

    /**
     * `saveTaskEdits`: a refused form changes nothing; an empty diff only leaves edit mode; an
     * update the store accepts replaces the selected task by the updated one (the task read back
     * after the update, as `UpdateThroughStore` describes it), refills the form from it and leaves
     * edit mode. A refused update changes nothing.
     */
    method SaveTaskEdits(updateOk: bool)
      modifies this`tasks, this`edit, this`isEditingTask
      ensures old(SelectedTask()).None? ==>
        tasks == old(tasks) && edit == old(edit) && isEditingTask == old(isEditingTask)
      ensures old(SelectedTask()).Some? ==>
        var t := old(SelectedTask()).value;
        var outcome := BuildEdits(t, old(edit));
        (outcome.TitleRequired? || outcome.DateRequired? || outcome.DurationInvalid? || (outcome.Changes? && !updateOk) ==>
           tasks == old(tasks) && edit == old(edit) && isEditingTask == old(isEditingTask))
        && (outcome.NoChanges? ==> tasks == old(tasks) && edit == old(edit) && !isEditingTask)
        && (outcome.Changes? && updateOk ==>
              var updated := ApplyUpdates(t, outcome.u);
              tasks == Replace(old(tasks), t.id, updated) && edit == FormOf(updated) && !isEditingTask)
    {
      var selected := SelectedTask();
      if selected.None? {
        return;
      }
      var task := selected.value;
      var outcome := BuildEdits(task, edit);
      match outcome
      case TitleRequired =>
      case DateRequired =>
      case DurationInvalid =>
      case NoChanges =>
        isEditingTask := false;
      case Changes(u) =>
        if updateOk {
          var updated := ApplyUpdates(task, u);
          tasks := Replace(tasks, task.id, updated);
          HydrateEditFields(updated);
          isEditingTask := false;
        }
    }
  }
}
