/**
 * The task record and its mapping to and from the store's rows (lib/api/tasks.ts): the row is read
 * with `dbToTask`, a new task is written with `taskToDbInsert`, a partial update is sent as the
 * columns `taskToDbUpdate` emits. The store itself is an abstract collaborator; `ApplyColumns` states
 * what it is assumed to do with an update: write the columns that are present and leave the others.
 */
module TasksApi {
  import opened Wrappers

  datatype Priority = Low | Medium | High

  datatype Deliverable = Deliverable(id: string, title: string, completed: bool)

  /** The in-memory task; `None` stands for an `undefined` optional field. */
  datatype Task = Task(
    id: int,
    title: string,
    completed: bool,
    priority: Priority,
    dueDate: Option<string>,
    duration: Option<real>,
    isRecurring: bool,
    recurringDay: Option<int>,
    recurringWeekday: Option<int>,
    recurringWeekOfMonth: Option<int>,
    deliverables: Option<seq<Deliverable>>)

  /** One field of a partial update: absent (`undefined`), cleared (`null`), or given a value. */
  datatype Patch<T> = Keep | Clear | Set(value: T)

  /** `TaskUpdates`: title, completion, priority and the recurring flag cannot be cleared, the rest can. */
  datatype TaskUpdates = TaskUpdates(
    title: Option<string>,
    completed: Option<bool>,
    priority: Option<Priority>,
    dueDate: Patch<string>,
    duration: Patch<real>,
    isRecurring: Option<bool>,
    recurringDay: Patch<int>,
    recurringWeekday: Patch<int>,
    recurringWeekOfMonth: Patch<int>,
    deliverables: Patch<seq<Deliverable>>)

  const NoUpdates := TaskUpdates(None, None, None, Keep, Keep, None, Keep, Keep, Keep, Keep)

  // ----- the store's side -----

  /** What the `deliverables` column may hold when it is read back: null, an array, text, or any other value. */
  datatype Cell = NullCell | ArrayCell(items: seq<Deliverable>) | TextCell(text: string) | OtherCell

  /** What `JSON.parse` makes of a text: an error, an array, or some other value. */
  datatype JsonParse = ParseFailed | ParsedArray(items: seq<Deliverable>) | ParsedOther

  /** The columns of a `tasks` row other than its id; `None` is SQL null. */
  datatype Columns = Columns(
    title: string,
    completed: bool,
    priority: Priority,
    dueDate: Option<string>,
    duration: Option<real>,
    isRecurring: bool,
    recurringDay: Option<int>,
    recurringWeekday: Option<int>,
    recurringWeekOfMonth: Option<int>,
    deliverables: Cell)

  datatype Row = Row(id: int, columns: Columns)

  /** The columns an update record may name. */
  datatype Column =
    | TitleCol | CompletedCol | PriorityCol | DueDateCol | DurationCol | IsRecurringCol
    | RecurringDayCol | RecurringWeekdayCol | RecurringWeekOfMonthCol | DeliverablesCol

  /** The column's name in the `tasks` table. */
  function ColumnName(c: Column): string {
    match c
    case TitleCol => "title"
    case CompletedCol => "completed"
    case PriorityCol => "priority"
    case DueDateCol => "due_date"
    case DurationCol => "duration"
    case IsRecurringCol => "is_recurring"
    case RecurringDayCol => "recurring_day"
    case RecurringWeekdayCol => "recurring_weekday"
    case RecurringWeekOfMonthCol => "recurring_week_of_month"
    case DeliverablesCol => "deliverables"
  }

  /** A value written into a column of an update record. */
  datatype Value = Text(s: string) | Bool(b: bool) | Prio(p: Priority) | Real(r: real) | Int(i: int)
                 | Items(ds: seq<Deliverable>) | Null

  // ----- row to task -----

  /**
   * `normalizeDeliverables`: a falsy value gives `undefined`, an array is kept, a text gives its
   * parse when that is an array, and everything else gives `undefined`.
   */
  function NormalizeDeliverables(v: Cell, parse: string -> JsonParse): (r: Option<seq<Deliverable>>)
    ensures r.Some? <==> v.ArrayCell? || (v.TextCell? && v.text != "" && parse(v.text).ParsedArray?)
    ensures v.ArrayCell? ==> r == Some(v.items)
    ensures v.TextCell? && r.Some? ==> parse(v.text) == ParsedArray(r.value)
  {
    match v
    case NullCell => None
    case ArrayCell(items) => Some(items)
    case TextCell(text) =>
      if text == "" then None
      else (match parse(text) case ParsedArray(items) => Some(items) case _ => None)
    case OtherCell => None
  }

  /** `dbToTask`: a null or empty due date becomes `undefined`; null numbers become `undefined`, 0 is kept. */
  function DbToTask(row: Row, parse: string -> JsonParse): (t: Task)
    ensures t.id == row.id && t.title == row.columns.title && t.completed == row.columns.completed
    ensures t.priority == row.columns.priority && t.isRecurring == row.columns.isRecurring
    ensures t.dueDate.None? <==> row.columns.dueDate in {None, Some("")}
    ensures t.dueDate.Some? ==> t.dueDate == row.columns.dueDate
    ensures t.duration == row.columns.duration && t.recurringDay == row.columns.recurringDay
    ensures t.recurringWeekday == row.columns.recurringWeekday
    ensures t.recurringWeekOfMonth == row.columns.recurringWeekOfMonth
    ensures t.deliverables == NormalizeDeliverables(row.columns.deliverables, parse)
  {
    var c := row.columns;
    Task(row.id, c.title, c.completed, c.priority,
      if c.dueDate == Some("") then None else c.dueDate,
      c.duration, c.isRecurring, c.recurringDay, c.recurringWeekday, c.recurringWeekOfMonth,
      NormalizeDeliverables(c.deliverables, parse))
  }

  // ----- task to row -----

  /**
   * `taskToDbInsert`: the task's id is not written; an absent or empty due date is written as null,
   * absent numbers as null (0 is kept), absent deliverables as null.
   */
  function TaskToDbInsert(t: Task): (c: Columns)
    ensures c.title == t.title && c.completed == t.completed && c.priority == t.priority
    ensures c.isRecurring == t.isRecurring
    ensures c.dueDate == None <==> t.dueDate in {None, Some("")}
    ensures c.dueDate.Some? ==> c.dueDate == t.dueDate
    ensures c.duration == t.duration && c.recurringDay == t.recurringDay
    ensures c.recurringWeekday == t.recurringWeekday && c.recurringWeekOfMonth == t.recurringWeekOfMonth
    ensures c.deliverables == NullCell <==> t.deliverables.None?
    ensures t.deliverables.Some? ==> c.deliverables == ArrayCell(t.deliverables.value)
  {
    Columns(t.title, t.completed, t.priority,
      if t.dueDate == Some("") then None else t.dueDate,
      t.duration, t.isRecurring, t.recurringDay, t.recurringWeekday, t.recurringWeekOfMonth,
      if t.deliverables.None? then NullCell else ArrayCell(t.deliverables.value))
  }

  /** Reading back an inserted row gives the task back with the store's id, unless its due date was `''`. */
  lemma InsertThenRead(t: Task, id: int, parse: string -> JsonParse)
    requires t.dueDate != Some("")
    ensures DbToTask(Row(id, TaskToDbInsert(t)), parse) == t.(id := id)
  {
  }

  /** An empty due date does not survive the round trip: it comes back `undefined`. */
  lemma EmptyDueDateComesBackUndefined(t: Task, id: int, parse: string -> JsonParse)
    requires t.dueDate == Some("")
    ensures DbToTask(Row(id, TaskToDbInsert(t)), parse) == t.(id := id, dueDate := None)
  {
  }

  // ----- partial updates -----

  /** Whether the update mentions the field stored in column `c` (the field is not `undefined`). */
  predicate Mentions(u: TaskUpdates, c: Column) {
    match c
    case TitleCol => u.title.Some?
    case CompletedCol => u.completed.Some?
    case PriorityCol => u.priority.Some?
    case DueDateCol => !u.dueDate.Keep?
    case DurationCol => !u.duration.Keep?
    case IsRecurringCol => u.isRecurring.Some?
    case RecurringDayCol => !u.recurringDay.Keep?
    case RecurringWeekdayCol => !u.recurringWeekday.Keep?
    case RecurringWeekOfMonthCol => !u.recurringWeekOfMonth.Keep?
    case DeliverablesCol => !u.deliverables.Keep?
  }

  function PatchInt(p: Patch<int>): Value
    requires !p.Keep?
  {
    if p.Clear? then Null else Int(p.value)
  }

  /**
   * The value `taskToDbUpdate` writes for a mentioned field: `dueDate || null` turns `''` into null,
   * `?? null` keeps 0, `deliverables || null` keeps every array.
   */
  function Encode(u: TaskUpdates, c: Column): Value
    requires Mentions(u, c)
  {
    match c
    case TitleCol => Text(u.title.value)
    case CompletedCol => Bool(u.completed.value)
    case PriorityCol => Prio(u.priority.value)
    case DueDateCol => if u.dueDate.Clear? || u.dueDate.value == "" then Null else Text(u.dueDate.value)
    case DurationCol => if u.duration.Clear? then Null else Real(u.duration.value)
    case IsRecurringCol => Bool(u.isRecurring.value)
    case RecurringDayCol => PatchInt(u.recurringDay)
    case RecurringWeekdayCol => PatchInt(u.recurringWeekday)
    case RecurringWeekOfMonthCol => PatchInt(u.recurringWeekOfMonth)
    case DeliverablesCol => if u.deliverables.Clear? then Null else Items(u.deliverables.value)
  }

  /** The `k`-th column `taskToDbUpdate` considers, counting from 0. */
  function ColumnAt(k: nat): Column {
    match k
    case 0 => TitleCol
    case 1 => CompletedCol
    case 2 => PriorityCol
    case 3 => DueDateCol
    case 4 => DurationCol
    case 5 => IsRecurringCol
    case 6 => RecurringDayCol
    case 7 => RecurringWeekdayCol
    case 8 => RecurringWeekOfMonthCol
    case _ => DeliverablesCol
  }

  /** Where column `c` comes in that order. */
  function Position(c: Column): (k: nat)
    ensures k < 10 && ColumnAt(k) == c
  {
    match c
    case TitleCol => 0
    case CompletedCol => 1
    case PriorityCol => 2
    case DueDateCol => 3
    case DurationCol => 4
    case IsRecurringCol => 5
    case RecurringDayCol => 6
    case RecurringWeekdayCol => 7
    case RecurringWeekOfMonthCol => 8
    case DeliverablesCol => 9
  }

  /** The update record after the first `k` columns have been considered. */
  function Partial(u: TaskUpdates, k: nat): map<Column, Value> {
    if k == 0 then map[]
    else if Mentions(u, ColumnAt(k - 1)) then Partial(u, k - 1)[ColumnAt(k - 1) := Encode(u, ColumnAt(k - 1))]
    else Partial(u, k - 1)
  }

  /** The update record as a whole. */
  function UpdateColumns(u: TaskUpdates): map<Column, Value> {
    Partial(u, 10)
  }

  lemma {:induction false} PartialAt(u: TaskUpdates, k: nat, c: Column)
    requires k <= 10
    ensures c in Partial(u, k) <==> Position(c) < k && Mentions(u, c)
    ensures c in Partial(u, k) ==> Partial(u, k)[c] == Encode(u, c)
  {
    if k > 0 {
      PartialAt(u, k - 1, c);
      if ColumnAt(k - 1) == c {
        assert Position(c) == k - 1 by { ColumnAtInjective(k - 1, Position(c)); }
      }
    }
  }

  lemma ColumnAtInjective(i: nat, j: nat)
    requires i < 10 && j < 10 && ColumnAt(i) == ColumnAt(j)
    ensures i == j
  {
  }

  /**
   * A column is in the update record iff the update mentions its field (the field is not
   * `undefined`), and then it holds that field's encoding.
   */
  lemma UpdateColumnsAt(u: TaskUpdates, c: Column)
    ensures c in UpdateColumns(u) <==> Mentions(u, c)
    ensures c in UpdateColumns(u) ==> UpdateColumns(u)[c] == Encode(u, c)
  {
    PartialAt(u, 10, c);
  }

  /** `taskToDbUpdate`: fills the update record one field at a time, skipping every `undefined` field. */
  method TaskToDbUpdate(u: TaskUpdates) returns (updates: map<Column, Value>)
    ensures updates == UpdateColumns(u)
  {
    updates := map[];
    ghost var k := 0;
    if u.title.Some? { updates := updates[TitleCol := Text(u.title.value)]; }
    k := k + 1;
    assert updates == Partial(u, k);
    if u.completed.Some? { updates := updates[CompletedCol := Bool(u.completed.value)]; }
    k := k + 1;
    assert updates == Partial(u, k);
    if u.priority.Some? { updates := updates[PriorityCol := Prio(u.priority.value)]; }
    k := k + 1;
    assert updates == Partial(u, k);
    if !u.dueDate.Keep? {
      updates := updates[DueDateCol := if u.dueDate.Clear? || u.dueDate.value == "" then Null else Text(u.dueDate.value)];
    }
    k := k + 1;
    assert updates == Partial(u, k);
    if !u.duration.Keep? {
      updates := updates[DurationCol := if u.duration.Clear? then Null else Real(u.duration.value)];
    }
    k := k + 1;
    assert updates == Partial(u, k);
    if u.isRecurring.Some? { updates := updates[IsRecurringCol := Bool(u.isRecurring.value)]; }
    k := k + 1;
    assert updates == Partial(u, k);
    if !u.recurringDay.Keep? { updates := updates[RecurringDayCol := PatchInt(u.recurringDay)]; }
    k := k + 1;
    assert updates == Partial(u, k);
    if !u.recurringWeekday.Keep? { updates := updates[RecurringWeekdayCol := PatchInt(u.recurringWeekday)]; }
    k := k + 1;
    assert updates == Partial(u, k);
    if !u.recurringWeekOfMonth.Keep? {
      updates := updates[RecurringWeekOfMonthCol := PatchInt(u.recurringWeekOfMonth)];
    }
    k := k + 1;
    assert updates == Partial(u, k);
    if !u.deliverables.Keep? {
      updates := updates[DeliverablesCol := if u.deliverables.Clear? then Null else Items(u.deliverables.value)];
    }
    k := k + 1;
    assert updates == Partial(u, k);
  }

  /** `toggleTask(id, completed)`: the update sent names the `completed` column and nothing else. */
  method ToggleTaskUpdate(completed: bool) returns (updates: map<Column, Value>)
    ensures updates == map[CompletedCol := Bool(completed)]
  {
    var u := NoUpdates.(completed := Some(completed));
    updates := TaskToDbUpdate(u);
    forall c ensures c in updates <==> c == CompletedCol {
      UpdateColumnsAt(u, c);
    }
    UpdateColumnsAt(u, CompletedCol);
    assert updates.Keys == {CompletedCol};
  }

  /**
   * The store's side of an update, as the external interface describes it: each column present in
   * the record is overwritten (null clears a nullable column); every other column keeps its value.
   * A value of the wrong kind for its column, which `taskToDbUpdate` never produces, changes nothing.
   */
  function ApplyColumns(c: Columns, m: map<Column, Value>): Columns {
    Columns(
      if TitleCol in m && m[TitleCol].Text? then m[TitleCol].s else c.title,
      if CompletedCol in m && m[CompletedCol].Bool? then m[CompletedCol].b else c.completed,
      if PriorityCol in m && m[PriorityCol].Prio? then m[PriorityCol].p else c.priority,
      if DueDateCol in m then
        (match m[DueDateCol] case Text(s) => Some(s) case Null => None case _ => c.dueDate)
      else c.dueDate,
      if DurationCol in m then
        (match m[DurationCol] case Real(r) => Some(r) case Null => None case _ => c.duration)
      else c.duration,
      if IsRecurringCol in m && m[IsRecurringCol].Bool? then m[IsRecurringCol].b else c.isRecurring,
      ApplyInt(c.recurringDay, m, RecurringDayCol),
      ApplyInt(c.recurringWeekday, m, RecurringWeekdayCol),
      ApplyInt(c.recurringWeekOfMonth, m, RecurringWeekOfMonthCol),
      if DeliverablesCol in m then
        (match m[DeliverablesCol] case Items(ds) => ArrayCell(ds) case Null => NullCell case _ => c.deliverables)
      else c.deliverables)
  }

  function ApplyInt(old_: Option<int>, m: map<Column, Value>, col: Column): Option<int> {
    if col in m then (match m[col] case Int(i) => Some(i) case Null => None case _ => old_) else old_
  }

  function PatchOption<T>(old_: Option<T>, p: Patch<T>): Option<T> {
    match p
    case Keep => old_
    case Clear => None
    case Set(v) => Some(v)
  }

  /**
   * What an update means for the task: absent fields are untouched, cleared fields become
   * `undefined`, set fields take the new value, an empty due date reads back as `undefined`.
   */
  function ApplyUpdates(t: Task, u: TaskUpdates): Task {
    Task(t.id,
      u.title.GetOr(t.title),
      u.completed.GetOr(t.completed),
      u.priority.GetOr(t.priority),
      if u.dueDate == Set("") then None else PatchOption(t.dueDate, u.dueDate),
      PatchOption(t.duration, u.duration),
      u.isRecurring.GetOr(t.isRecurring),
      PatchOption(t.recurringDay, u.recurringDay),
      PatchOption(t.recurringWeekday, u.recurringWeekday),
      PatchOption(t.recurringWeekOfMonth, u.recurringWeekOfMonth),
      PatchOption(t.deliverables, u.deliverables))
  }

  /**
   * The partial-update contract of the store boundary: writing the columns `taskToDbUpdate` emits
   * and reading the row back gives the task read before, changed by exactly the fields the update
   * mentions.
   */
  lemma UpdateThroughStore(row: Row, u: TaskUpdates, parse: string -> JsonParse)
    ensures DbToTask(Row(row.id, ApplyColumns(row.columns, UpdateColumns(u))), parse)
         == ApplyUpdates(DbToTask(row, parse), u)
  {
    UpdateColumnsAt(u, TitleCol);
    UpdateColumnsAt(u, CompletedCol);
    UpdateColumnsAt(u, PriorityCol);
    UpdateColumnsAt(u, DueDateCol);
    UpdateColumnsAt(u, DurationCol);
    UpdateColumnsAt(u, IsRecurringCol);
    UpdateColumnsAt(u, RecurringDayCol);
    UpdateColumnsAt(u, RecurringWeekdayCol);
    UpdateColumnsAt(u, RecurringWeekOfMonthCol);
    UpdateColumnsAt(u, DeliverablesCol);
  }

  /** An update that mentions nothing leaves every task as it is. */
  lemma NoUpdatesChangeNothing(t: Task)
    ensures ApplyUpdates(t, NoUpdates) == t
  {
  }
}
