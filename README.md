# Task list and calendar: a verified model

The application keeps a list of tasks in a hosted store. Each task has:
- a title, a priority and a completion flag;
- an optional due date (`YYYY-MM-DD`) and an optional duration;
- a checklist of deliverables;
- for recurring tasks, a pattern. The pattern is either a weekday and week of month ("Second Monday",
  occurrence 5 meaning "last") or, in older rows, a day of the month.

This project models, in Dafny:
- The row mapping of the store client (`lib/api/tasks.ts`). Rows become tasks and tasks become
  inserted rows. Partial updates name only the columns they change, and the completion toggle is an
  update of one column.
- The task list component (`app/components/TaskList.tsx`):
  - the display order and the "Next" marker;
  - the weekday-pattern arithmetic and the date successor a completed recurring task gets;
  - adding tasks and deleting them;
  - the deliverable checklist;
  - the edit form's validation and the diff it sends.
- The calendar component (`app/components/Calendar.tsx`):
  - the due tasks of the shown month, bucketed by day;
  - the recurring series and the one virtual occurrence each series contributes to the month;
  - month navigation.

Modules, one per file:
- `Wrappers` (`wrappers.dfy`): `Option`.
- `Dates` (`dates.dfy`): proleptic Gregorian dates `Date(year, monthIndex 0..11, day)`.
  - Day numbers count from 1970-01-01, and the weekday is computed from them.
  - The roll-over of `new Date(y, m, d)` is `MakeDate`. It includes JavaScript's mapping of years
    0..99 to 1900..1999 (`FullYear`).
- `DateText` (`date_text.dfy`): the string side.
  - `formatDateKey`/`formatDateParts`, `padStart`, `String.prototype.trim`, `split`;
  - `parseDueDate` and `getMonthIndexFromDate`;
  - the order of `>` on strings, compared character by character (see "## Left out" for how it
    differs from JavaScript's order of UTF-16 code units).
- `TasksApi` (`tasks_api.dfy`): the task record, database rows, `normalizeDeliverables`, `dbToTask`,
  `taskToDbInsert`, `taskToDbUpdate`, and the update a store applies.
- `TaskOrdering` (`ordering.dfy`): `orderedTasks` and `nextTaskId`, each a method with a loop, proved
  against a specification function.
- `Recurrence` (`recurrence.dfy`):
  - `getWeekOfMonth` and both copies of `getNthWeekdayOfMonth`;
  - `calculateNextWeekdayOccurrence` and `getRecurringDateForMonth`;
  - the successor date of `toggleTask`;
  - `getRecurringPattern`.
- `TaskList` (`task_list.dfy`):
  - the list operations and the `saveTaskEdits` diff as functions;
  - the component state as the class `TaskListState`, whose methods update its fields as the React
    setters do.
- `Calendar` (`calendar.dfy`):
  - `tasksByDate` as three loop passes;
  - the class `CalendarView` holding the shown date, with `previousMonth`/`nextMonth`.

Conventions used throughout:
- **Outside effects are parameters.**
  - The current day (`now`, `today`) is a `Date`.
  - The outcome of each store call is a `bool` (accepted or refused).
  - The id the store assigns to a created task is an `Option<int>`, `None` when the insert fails.
  - A fresh deliverable id is a string.
  - `JSON.parse` is a function into `JsonParse`.
- **Readers are parameters.** The order, the "Next" marker and the series logic are stated for any
  reader of due days (`due`) and any readers of months and pattern dates (`monthOf`, `dateIn`). The
  callers pass the real ones (`DueDay`, `MonthIndexFromDate`, `PatternDates(y, m)`), and the lemmas
  at the end of `calendar.dfy` put the real readers back. This keeps the date-text arithmetic out of
  the list proofs.
- **Series key.** A recurring series is identified by a `SeriesKey` record rather than the
  `|`-joined string of the source. The joined string is injective on these fields: only the title
  can contain `|`, and it comes first.
- **Durations.** A duration text is `DurationText`, the three outcomes of `parseFloat`: blank, a
  number, or `NaN`. Its value is kept as an opaque `real`.

Behaviours kept as the code has them:
- **Day patterns on completion.** `toggleTask` builds `new Date(year, month + 1, recurringDay)`
  (`TaskList.tsx:264`), which rolls into the following month instead of clamping, so
  `SuccessorDueDate` rolls over (`DaySuccessorRollsOver`).
- **`recurringDay = 0`.** The task list treats 0 as "no day pattern" (a falsy test). The calendar
  clamps it to day 1. Both readings are modelled (`RecurringDayZeroDiverges`).
- **December.** `calculateNextWeekdayOccurrence` wraps December into January of the same year. The
  component (`ToggleTask`) is modelled as written; the corrected form is stated beside it (see
  Findings).

## Model

| member | source | states |
|---|---|---|
| Dates.DaysInMonth | app/components/Calendar.tsx:38 | month lengths 28..31, February has 29 days exactly in leap years, the 30-day months are April, June, September, November |
| Dates.Weekday | app/components/TaskList.tsx:167 | `getDay()` lies in 0..6 |
| Dates.FullYear | app/components/TaskList.tsx:36 | `new Date` reads years 0..99 as 1900..1999 and every other year as given |
| Dates.MakeDate | app/components/TaskList.tsx:36 | `new Date(y, m, d)` is a valid date whose day number is the first of the (rolled) month plus `d - 1` |
| Dates.RollDay | app/components/TaskList.tsx:166 | a day offset from the first of a month index rolls into a valid date at that day number |
| Dates.DaysInMonthIndex | app/components/Calendar.tsx:93 | the length of the month with a given month index is 28..31 |
| Dates.LeapYearsStep | app/components/TaskList.tsx:36 | the leap-year count grows by one exactly after a leap year |
| Dates.YearLength | app/components/TaskList.tsx:36 | a year has 366 days when leap, otherwise 365 |
| Dates.FirstDayStep | app/components/TaskList.tsx:166 | consecutive month indices start a month length apart |
| Dates.MakeDateInRange | app/components/TaskList.tsx:36 | an in-range day of a year outside 0..99 is not moved by `new Date` |
| Dates.LastDayOfMonth | app/components/TaskList.tsx:132 | `new Date(y, m + 1, 0)` is the last day of month `m` |
| Dates.MonthIndexValueInverse | app/components/Calendar.tsx:62 | `year * 12 + monthIndex` gives back year and month by division |
| Dates.MonthIndexValueOrder | app/components/Calendar.tsx:149 | month indices compare like (year, month) pairs |
| Dates.WeekdayShift | app/components/TaskList.tsx:167-169 | moving from day `d` to day `e` of a month moves the weekday by `e - d` modulo 7 |
| Dates.TimeMonotone | app/components/TaskList.tsx:151 | `<=` on dates follows (year, month, day) order |
| Dates.YearsMonotone | app/components/TaskList.tsx:151 | later years start later |
| DateText.DigitChar | app/components/TaskList.tsx:42 | a digit 0..9 becomes its numeral |
| DateText.NatToString | app/components/TaskList.tsx:41-44 | `String(n)` of a natural number is a non-empty run of digits |
| DateText.IntToString | app/components/TaskList.tsx:41 | `String(n)` is non-empty, all digits when `n >= 0` |
| DateText.PadStart2 | app/components/TaskList.tsx:42-43 | `padStart(2, '0')`: length at least 2, the text at the end, zeros before it |
| DateText.TrimStartFacts | app/components/TaskList.tsx:197 | leading trim removes exactly a whitespace prefix and stops at a non-space |
| DateText.TrimEndFacts | app/components/TaskList.tsx:197 | trailing trim removes exactly a whitespace suffix and stops at a non-space |
| DateText.TrimFacts | app/components/TaskList.tsx:399 | a trimmed text is empty exactly when the text is all whitespace, and otherwise starts and ends with a non-space |
| DateText.TrimIdempotent | app/components/TaskList.tsx:399 | trimming twice is trimming once |
| DateText.DigitsOfNat | app/components/TaskList.tsx:32-34 | `Number(String(n)) == n` |
| DateText.LeadingZero | app/components/TaskList.tsx:33 | a leading zero does not change the number read |
| DateText.NumberOfPadded | app/components/TaskList.tsx:42 | `Number` reads back a padded numeral as its value |
| DateText.NoWhitespaceDigits | app/components/TaskList.tsx:405 | trimming leaves a run of digits unchanged |
| DateText.IndexOf | app/components/TaskList.tsx:30 | the first position of a separator |
| DateText.Split | app/components/TaskList.tsx:31 | `split` returns at least one part |
| DateText.SplitCons | app/components/TaskList.tsx:31 | splitting a separator-free part followed by the separator gives that part first |
| DateText.ParseDueDate | app/components/TaskList.tsx:28-38 | `parseDueDate` gives a valid date or null, and null for the empty text |
| DateText.SplitKey | app/components/Calendar.tsx:65 | a key splits on `-` into year, month and the rest |
| DateText.DigitsHaveNoSeparator | app/components/TaskList.tsx:31 | a numeral holds no separator |
| DateText.ParseDueDateOfParts | app/components/TaskList.tsx:28-38 | three numeric parts with a non-zero year parse to `new Date(year, month - 1, day)` |
| DateText.DatePartOf | app/components/TaskList.tsx:30-31 | without a `T`, the whole text is the date part |
| DateText.NumberedParts | app/components/TaskList.tsx:32-36 | numbered parts become the rolled date |
| DateText.KeyParts | app/components/TaskList.tsx:40-45 | a formatted key has no `T` and splits into its three numerals |
| DateText.KeyText | app/components/TaskList.tsx:44 | the key is year, padded month and padded day joined by `-` |
| DateText.SplitKey3 | app/components/TaskList.tsx:31 | three separator-free parts joined by `-` split back into those parts |
| DateText.NoSeparatorInKey | app/components/TaskList.tsx:44 | numerals carry neither `-` nor `T` |
| DateText.ParseFormatted | app/components/TaskList.tsx:28-45 | round trip: `parseDueDate(formatDateKey(d)) == d` for every valid date from year 100 on |
| DateText.MonthIndexOfParts | app/components/Calendar.tsx:64-70 | `getMonthIndexFromDate` is `year * 12 + month - 1` of the first two numeric parts |
| DateText.MonthIndexOfFormatted | app/components/Calendar.tsx:52-70 | round trip: the month index read from `formatDateParts(y, m, d)` is that of `(y, m)` |
| DateText.FormattedStartsWithPrefix | app/components/Calendar.tsx:105-115 | every key formatted for a month starts with that month's `YYYY-MM-` prefix |
| DateText.StrLessIrreflexive | app/components/Calendar.tsx:156 | `a > a` never holds |
| DateText.StrLessTransitive | app/components/Calendar.tsx:156 | string `>` is transitive |
| DateText.StrLessTotal | app/components/Calendar.tsx:156 | two different strings are ordered one way or the other |
| TasksApi.NormalizeDeliverables | lib/api/tasks.ts:35-47 | an array is kept; a non-empty text is kept exactly when it parses to an array, as that array; everything else is undefined |
| TasksApi.DbToTask | lib/api/tasks.ts:50-62 | each field copied from its column; an empty due date becomes undefined; deliverables normalised |
| TasksApi.TaskToDbInsert | lib/api/tasks.ts:65-76 | each column from its field; an empty due date and missing deliverables are sent as null |
| TasksApi.InsertThenRead | lib/api/tasks.ts:50-76 | round trip: inserting a task and reading the row back gives the task with its id |
| TasksApi.EmptyDueDateComesBackUndefined | lib/api/tasks.ts:55-69 | an empty due date comes back undefined |
| TasksApi.Position | lib/api/tasks.ts:81-90 | every column has one of the ten positions |
| TasksApi.PartialAt | lib/api/tasks.ts:78-93 | after the first `k` tests the map holds exactly the mentioned columns among them, each with its encoded value |
| TasksApi.ColumnAtInjective | lib/api/tasks.ts:81-90 | the ten tests write ten different columns |
| TasksApi.UpdateColumnsAt | lib/api/tasks.ts:78-93 | a column is in the update exactly when the update mentions its field, with the encoded value |
| TasksApi.TaskToDbUpdate | lib/api/tasks.ts:78-93 | the ten guarded assignments build exactly `UpdateColumns` |
| TasksApi.ToggleTaskUpdate | lib/api/tasks.ts:157-159 | the toggle sends the `completed` column alone |
| TasksApi.UpdateThroughStore | lib/api/tasks.ts:127-141 | writing the update columns and reading back equals applying the update to the task read before |
| TasksApi.NoUpdatesChangeNothing | lib/api/tasks.ts:78-93 | an empty update changes nothing |
| TaskOrdering.DueDayNeedsText | app/components/TaskList.tsx:85-87 | a readable due day needs a non-empty due date |
| TaskOrdering.InsertPermutes | app/components/TaskList.tsx:70-72 | insertion adds exactly the element |
| TaskOrdering.InsertSorted | app/components/TaskList.tsx:70-72 | insertion keeps the order |
| TaskOrdering.WithKeyCons | app/components/TaskList.tsx:70-72 | the elements with one key, by cases on the head |
| TaskOrdering.InsertWithKey | app/components/TaskList.tsx:70-72 | insertion puts the new element before the others of equal key |
| TaskOrdering.SortPermutes | app/components/TaskList.tsx:70-72 | sorting is a permutation |
| TaskOrdering.SortSorted | app/components/TaskList.tsx:70-72 | sorting orders by the key |
| TaskOrdering.SortStable | app/components/TaskList.tsx:70-72 | sorting is stable: elements with one key keep their order |
| TaskOrdering.OrderedTasks | app/components/TaskList.tsx:47-75 | the loop and the sorts produce `Ordered` |
| TaskOrdering.LastSplit | app/components/TaskList.tsx:56 | the multiset of a sequence splits at its last element |
| TaskOrdering.SectionStep | app/components/TaskList.tsx:56-68 | each task goes into exactly one of the three lists |
| TaskOrdering.SectionsPartition | app/components/TaskList.tsx:56-68 | the three lists together are the tasks |
| TaskOrdering.OrderedIsPermutation | app/components/TaskList.tsx:74 | the display order lists every task exactly once |
| TaskOrdering.SectionMembers | app/components/TaskList.tsx:58-67 | every task of a list belongs to its bucket (undated, before today, from today on) |
| TaskOrdering.SortedSection | app/components/TaskList.tsx:70-72 | each sorted list ascends by its key and holds only its bucket |
| TaskOrdering.ConcatRuns | app/components/TaskList.tsx:74 | three sorted runs of increasing rank concatenate into one order |
| TaskOrdering.OrderedSorted | app/components/TaskList.tsx:47-75 | overdue before upcoming before undated; due day ascending, undated by descending id |
| TaskOrdering.OrderedStable | app/components/TaskList.tsx:70-72 | tasks of one section with equal keys keep the list order |
| TaskOrdering.NextTaskId | app/components/TaskList.tsx:77-96 | none exactly when no open task is due from today on; otherwise the id of the first such task with the earliest due day |
| Recurrence.JsRem | app/components/TaskList.tsx:168 | JavaScript `%`: the mathematical remainder for non-negative operands, non-positive for negative ones |
| Recurrence.WeekOfMonthRange | app/components/TaskList.tsx:127-139 | `getWeekOfMonth` is 1..5; 5 exactly when fewer than 7 days remain; otherwise `ceil(day / 7)` |
| Recurrence.WeekdayOfDay | app/components/TaskList.tsx:172-175 | the weekday of day `d` is the first's weekday plus `d - 1` |
| Recurrence.ForwardDistance | app/components/TaskList.tsx:174 | `(weekday - firstWeekday + 7) % 7` reaches the weekday from the first |
| Recurrence.BackwardDistance | app/components/TaskList.tsx:168 | `(lastWeekday - weekday + 7) % 7` steps back to the weekday from the last |
| Recurrence.DistanceOfShift | app/components/TaskList.tsx:174 | the forward distance to a shifted weekday is the shift |
| Recurrence.DistanceFromFirst | app/components/TaskList.tsx:174 | the forward distance from the first's weekday is the offset modulo 7 |
| Recurrence.NthWeekdayFacts | app/components/TaskList.tsx:163-178 | the nth weekday is a real day of the month with that weekday, in week `n` (or in the last seven days for 5) |
| Recurrence.NthWeekdayDateInMonth | app/components/TaskList.tsx:163-178 | `getNthWeekdayOfMonth` does not roll out of the month |
| Recurrence.PatternRoundTrip | app/components/TaskList.tsx:127-178 | round trip: the nth weekday of a date's own weekday and week of month is that date |
| Recurrence.RoundTripLast | app/components/TaskList.tsx:134-169 | the round trip for the last week |
| Recurrence.LastOccurrenceDay | app/components/TaskList.tsx:164-169 | the "Last" pattern day counts back from the month's last day by the weekday distance |
| Recurrence.BackFromLast | app/components/TaskList.tsx:168 | counting back from the last day's weekday to a weekday within the final seven days lands on that day |
| Recurrence.RoundTripWeek | app/components/TaskList.tsx:129-176 | the round trip for weeks 1..4 |
| Dates.ShiftMod | app/components/TaskList.tsx:174 | adding to a weekday commutes with `% 7` |
| Recurrence.NextWeekdayOccurrence | app/components/TaskList.tsx:142-160 | the key of `NextOccurrence` from the given date; `InvalidKey` (`NaN-NaN-NaN`, the key of an invalid date) when the due date cannot be read |
| Recurrence.NextOccurrenceAfter | app/components/TaskList.tsx:142-160 | before December: strictly after `fromDate`, same year, on the weekday, this month or next, next exactly when this month's date has passed |
| Recurrence.DecemberStillAhead | app/components/TaskList.tsx:142-160 | in December, while this month's date is still ahead, the result is that December date: strictly after `fromDate`, same year, on the weekday |
| Recurrence.DecemberWrapsToSameYear | app/components/TaskList.tsx:151-156 | as written, after December's date has passed the result is January of the same year, before `fromDate` |
| Recurrence.NextOccurrenceFixedAfter | app/components/TaskList.tsx:142-160 | corrected form: strictly after `fromDate` on the weekday, December included |
| Recurrence.SameMonthIndexSameDay | app/components/Calendar.tsx:72-84 | the nth weekday depends only on the month index |
| Recurrence.RecurringDateForMonth | app/components/Calendar.tsx:86-99 | a date exactly for a weekday pattern or a day pattern, formatted in the viewed month |
| Recurrence.RecurringDayInMonth | app/components/Calendar.tsx:86-96 | with a well-formed pattern the day is a real day of the viewed month |
| Recurrence.DayPatternClamped | app/components/Calendar.tsx:92-95 | a day pattern is clamped to 1..month length (day 31 in February is its last day) |
| Recurrence.WeekdayPatternFirst | app/components/Calendar.tsx:87-90 | a weekday pattern wins over a day pattern |
| Recurrence.SuccessorExists | app/components/TaskList.tsx:253-268 | a successor exactly for a weekday pattern or a non-zero day pattern |
| Recurrence.SuccessorAfterDueDate | app/components/TaskList.tsx:253-260 | with a formatted due date the successor is the next occurrence after that date |
| Recurrence.DaySuccessorRollsOver | app/components/TaskList.tsx:261-265 | day 31 after an October rolls over to the first of December |
| Recurrence.RecurringDayZeroDiverges | app/components/TaskList.tsx:261 | day 0 gives no successor in the list but day 1 in the calendar |
| Recurrence.RecurringPattern | app/components/TaskList.tsx:472-483 | the label is empty exactly for a non-recurring task; a weekday pattern gives "<occurrence> <weekday>" (`undefined` for an index outside the name lists); otherwise a truthy day gives "Day <n>", and a missing or zero day gives "Monthly" |
| Recurrence.PatternLabelKinds | app/components/TaskList.tsx:472-483 | a day label starts with "Day " and is not "Monthly"; a weekday label for occurrence 1..5 is neither |
| Recurrence.PatternLabelOfDate | app/components/TaskList.tsx:475-478 | the label of a pattern taken from a date names that date's occurrence and weekday |
| TaskList.IndexOfId | app/components/TaskList.tsx:237 | `-1` exactly when no task has the id, otherwise the first index with it |
| TaskList.SetCompleted | app/components/TaskList.tsx:247 | same length; tasks with the id take the flag, the others are unchanged |
| TaskList.SetDeliverables | app/components/TaskList.tsx:345-347 | same length; tasks with the id take the deliverables, the others are unchanged |
| TaskList.Replace | app/components/TaskList.tsx:454 | same length; tasks with the id become the updated task, the others are unchanged |
| TaskList.Without | app/components/TaskList.tsx:295 | the filter does not lengthen the list |
| TaskList.WithoutMembers | app/components/TaskList.tsx:295 | a task stays exactly when it is in the list with another id |
| TaskList.WithoutAppend | app/components/TaskList.tsx:295 | the filter works element by element: it distributes over concatenation, keeping the order of the tasks that stay |
| TaskList.WithoutOne | app/components/TaskList.tsx:295 | on a single task the filter keeps it exactly when its id differs |
| TaskList.WithoutAbsent | app/components/TaskList.tsx:295 | filtering an absent id keeps the list |
| TaskList.WithoutTwice | app/components/TaskList.tsx:295 | deleting twice is deleting once |
| TaskList.DatePattern | app/components/TaskList.tsx:207-209 | the weekday and week are both set or both missing (`NaN`); the weekday lies in 0..6 |
| TaskList.NewTaskData | app/components/TaskList.tsx:196-220 | title, priority, not completed; due date when given; pattern only for a recurring task with a date; duration only for a number |
| TaskList.NewTaskPatternProjectsBack | app/components/TaskList.tsx:205-213 | the pattern derived from the date puts the calendar occurrence of that month on the date itself |
| TaskList.SuccessorTask | app/components/TaskList.tsx:270-280 | the successor copies title, priority, pattern and duration, is open and recurring, with the new date |
| TaskList.NextDueDateOf | app/components/TaskList.tsx:250-268 | the branches compute `SuccessorDueDate` |
| TaskList.Ids | app/components/TaskList.tsx:377-381 | the ids of the checklist, in order |
| TaskList.ToggleIn | app/components/TaskList.tsx:377-381 | same length; the matching items flip, the others are unchanged |
| TaskList.RemoveFrom | app/components/TaskList.tsx:389-391 | the filter does not lengthen the checklist |
| TaskList.RemoveMembers | app/components/TaskList.tsx:389-391 | an item stays exactly when its id differs |
| TaskList.ToggleTwice | app/components/TaskList.tsx:377-381 | toggling twice restores the checklist |
| TaskList.ToggleKeepsItems | app/components/TaskList.tsx:377-381 | toggling keeps ids and titles |
| TaskList.RemoveAbsent | app/components/TaskList.tsx:389-391 | removing an absent id keeps the checklist |
| TaskList.RemoveAfterAdd | app/components/TaskList.tsx:361-391 | removing a just-added item with a fresh id restores the checklist |
| TaskList.RemoveAppend | app/components/TaskList.tsx:389-391 | removal distributes over concatenation |
| TaskList.RemoveTwice | app/components/TaskList.tsx:389-391 | removing twice is removing once |
| TaskList.Trimmed | app/components/TaskList.tsx:399-405 | the title and due date become their trimmed texts; priority, duration and the recurring flag are kept |
| TaskList.BuildEdits | app/components/TaskList.tsx:396-450 | title required iff the trimmed title is empty; date required iff turning recurrence on without a date; invalid iff the duration is `NaN`; otherwise the diff, non-empty exactly for `Changes` |
| TaskList.PatchPattern | app/components/TaskList.tsx:443-444 | sending the pattern field only when it differs leaves the derived value |
| TaskList.EditsApplied | app/components/TaskList.tsx:418-445 | after applying the diff the task agrees with the form; completion, day pattern and checklist are not touched |
| TaskList.EditsOnlyChanges | app/components/TaskList.tsx:420-444 | every field in the diff differs from the task |
| TaskList.NoChangesAgree | app/components/TaskList.tsx:447-450 | an empty diff means the task already agrees with the form |
| TaskList.AgreeingFormSendsNothing | app/components/TaskList.tsx:418-447 | a form the task agrees with sends nothing when its date is readable |
| TaskList.UnreadableDateClearsPattern | app/components/TaskList.tsx:438-444 | with an unreadable date both pattern fields are sent as null |
| TaskList.TaskListState.constructor | app/components/TaskList.tsx:8-22 | the initial state of the component |
| TaskList.TaskListState.AddTask | app/components/TaskList.tsx:196-234 | blank title or failed insert: nothing changes; otherwise the created task is prepended and the form reset |
| TaskList.TaskListState.ToggleTask | app/components/TaskList.tsx:236-290 | refused or unknown: nothing changes; otherwise the flag flips and a completed recurring task's successor is prepended |
| TaskList.TaskListState.DeleteTask | app/components/TaskList.tsx:292-305 | accepted: the task leaves the list and, if selected, the view closes; refused: nothing changes |
| TaskList.TaskListState.HydrateEditFields | app/components/TaskList.tsx:307-313 | the edit form is the task's |
| TaskList.TaskListState.OpenTask | app/components/TaskList.tsx:315-322 | a known task becomes selected with a fresh form; an unknown id changes nothing |
| TaskList.TaskListState.CloseTaskView | app/components/TaskList.tsx:324-328 | no selection, no edit mode, empty checklist input |
| TaskList.TaskListState.StartEditingTask | app/components/TaskList.tsx:330-334 | with a selection: the form is refilled and edit mode is on |
| TaskList.TaskListState.CancelTaskEdits | app/components/TaskList.tsx:336-340 | with a selection: the form is refilled and edit mode is off |
| TaskList.TaskListState.UpdateDeliverables | app/components/TaskList.tsx:344-347 | the task's checklist is replaced in place |
| TaskList.TaskListState.AddDeliverable | app/components/TaskList.tsx:358-372 | an open, trimmed item with the fresh id is appended and the input cleared |
| TaskList.TaskListState.ToggleDeliverable | app/components/TaskList.tsx:374-384 | the selected task's checklist is toggled |
| TaskList.TaskListState.RemoveDeliverable | app/components/TaskList.tsx:386-394 | the selected task's checklist loses the item |
| TaskList.TaskListState.SaveTaskEdits | app/components/TaskList.tsx:396-461 | refusals change nothing; no changes leaves edit mode; an accepted update replaces the task by the task read back and refills the form |
| Calendar.OnDate | app/components/Calendar.tsx:108-111 | the items on a date are exactly the items with that date |
| Calendar.BucketSnoc | app/components/Calendar.tsx:108-111 | `addItem` appends the item to its date's cell |
| Calendar.BucketCells | app/components/Calendar.tsx:108-111 | each cell holds the items of its date in order, and a date has a cell exactly when it has an item |
| Calendar.RealItemsExact | app/components/Calendar.tsx:113-117 | the first pass lists exactly the tasks due in the shown month, on their due dates |
| Calendar.SeriesKeysExact | app/components/Calendar.tsx:119-140 | each series once, exactly when a recurring task with a pattern has its key |
| Calendar.MembersExact | app/components/Calendar.tsx:119-140 | a group holds exactly the tasks of its series |
| Calendar.GroupsNonEmpty | app/components/Calendar.tsx:134-139 | a key is listed exactly when its group is non-empty |
| Calendar.DatedDueDates | app/components/Calendar.tsx:143-145 | the truthy due dates of a group |
| Calendar.EarliestIsMin | app/components/Calendar.tsx:148 | `Math.min` is a lower bound attained by one date |
| Calendar.LaterIsLatest | app/components/Calendar.tsx:154-158 | one reduce step keeps the later of the two |
| Calendar.NotBeforeTransitive | app/components/Calendar.tsx:156 | "not before" is transitive |
| Calendar.LatestOfFacts | app/components/Calendar.tsx:154-158 | the reduce picks a task of the group not before any other |
| Calendar.RepresentativeIsLatest | app/components/Calendar.tsx:154-158 | the source task is in the group with the latest due date |
| Calendar.LatestOfFirst | app/components/Calendar.tsx:154-158 | the reduce replaces only on a strictly later date: the result is the start value, or a later dated task that no earlier task shares its due date with |
| Calendar.RepresentativeIsFirst | app/components/Calendar.tsx:154-158 | the source task is the first task of the group with its due date, and `group[0]` when no task is dated |
| Calendar.GeneratedFacts | app/components/Calendar.tsx:160-172 | the occurrence is the source task, open, moved to its pattern date, and no task of the group is due that day |
| Calendar.GeneratedNotBeforeStart | app/components/Calendar.tsx:147-152 | a generating series with dates has one in the viewed month or earlier |
| Calendar.GeneratedWhenOpen | app/components/Calendar.tsx:147-172 | a series that has started by the viewed month, whose source task has a pattern date on which no task of the group is due, generates the open source task on that date |
| Calendar.NothingBeforeStart | app/components/Calendar.tsx:147-152 | a series dated only after the viewed month generates nothing |
| Calendar.GroupsNonEmptyAll | app/components/Calendar.tsx:134-139 | every listed series has a task |
| Calendar.GeneratedItemsFrom | app/components/Calendar.tsx:142-173 | every generated item is marked generated, belongs to a listed series, is open and due on a pattern date of a task |
| Calendar.OnePerSeries | app/components/Calendar.tsx:142-173 | no two generated items come from the same series |
| Calendar.OneOccurrencePerSeries | app/components/Calendar.tsx:101-176 | at most one virtual occurrence per series in a month |
| Calendar.ItemsDated | app/components/Calendar.tsx:113-173 | every item of the view lies in the viewed month |
| Calendar.BucketDueTasks | app/components/Calendar.tsx:113-117 | the first pass buckets the due tasks of the month |
| Calendar.GroupSeries | app/components/Calendar.tsx:119-140 | the grouping pass builds the series keys and their groups |
| Calendar.AddOccurrences | app/components/Calendar.tsx:142-173 | the last pass adds the generated occurrences after the due tasks |
| Calendar.GeneratedItemsStep | app/components/Calendar.tsx:142-173 | one more series adds exactly its generated occurrence, if any, at the end |
| Calendar.TasksByDate | app/components/Calendar.tsx:101-176 | `tasksByDate` is the bucketing of due items followed by generated items |
| Calendar.PatternDatesInMonth | app/components/Calendar.tsx:86-99 | pattern dates of a month carry its prefix |
| Calendar.CellsOfTheMonth | app/components/Calendar.tsx:178-180 | `getTasksForDate` lists exactly the month's items on that day, all within the month |
| Calendar.DueTaskShown | app/components/Calendar.tsx:113-117 | a task due in the shown month appears in its day's cell |
| Calendar.GeneratedInMonth | app/components/Calendar.tsx:160-172 | with well-formed patterns an occurrence falls on a real day of the shown month |
| Calendar.FirstOfMonth | app/components/Calendar.tsx:45-49 | `new Date(y, m)` is the first of the month `m` rolls into |
| Calendar.CalendarView.constructor | app/components/Calendar.tsx:14-15 | the view opens on today with the loaded tasks |
| Calendar.CalendarView.Cells | app/components/Calendar.tsx:101-106 | the cells are the bucketing of the shown month's items |
| Calendar.CalendarView.PreviousMonth | app/components/Calendar.tsx:44-46 | the shown date becomes the first of the previous month |
| Calendar.CalendarView.NextMonth | app/components/Calendar.tsx:48-50 | the shown date becomes the first of the next month |
| Calendar.NextMonthStep | app/components/Calendar.tsx:48-50 | next month is the first of month index + 1 |
| Calendar.PreviousMonthStep | app/components/Calendar.tsx:44-46 | previous month is the first of month index - 1 |
| Calendar.BackAndForth | app/components/Calendar.tsx:44-50 | previous then next returns to the first of the shown month |

## Left out

- Store I/O is not modelled: `getTasks`, `createTask`, `updateTask` and `deleteTask` over the hosted client. Their outcomes are parameters: an accepted/refused flag and the created id. `lib/supabase.ts` is not part of this model.
- `loadTasks` and its loading and error flags are left out, because they are I/O. The same goes for the re-load after a failed deliverables update (`TaskList.tsx:354`): the model keeps the optimistic local update.
- Alerts, console logging, scrolling to the "Next" task and all rendering are left out. This covers the calendar grid (`daysInMonth`, `firstDayOfMonth`), month names, priority colours and `formatDuration`, which works on floating point.
- `NotesList` is not part of this model.
- The clock is a parameter: `new Date()` and `today.setHours(0, 0, 0, 0)` become a `Date` at day granularity, with times compared as day numbers. Time zones and daylight saving are not modelled.
- `createDeliverableId` (clock and `Math.random`) is a fresh-id parameter.
- `JSON.parse` is a parameter function. Only whether it yields an array, and which one, matters.
- `calculateNextDueDate` (`TaskList.tsx:180-194`) is never called and is left out.
- Asynchronous interleavings are not modelled: a component method runs to completion, and the functional `setTasks(prev => ...)` updates see the state of that run.
- `DateText.ParseDueDate`: reading a date text models `Number` on decimal integer numerals only. A numeral may be signed and surrounded by white space, and a blank part reads as 0. Texts such as `"0x10"`, `"1e3"` or `"7.5"` are read as invalid. A date outside JavaScript's time range (more than 100,000,000 days from 1970-01-01, such as `"300000-01-01"`) still reads as a date here, where `parseDueDate` returns null because `getTime()` is `NaN` (`TaskList.tsx:37`).
- `TaskList.DatePattern`: `addTask` and `saveTaskEdits` read the form's date with `new Date(text + 'T00:00:00')` (`TaskList.tsx:207`, `TaskList.tsx:439`), JavaScript's ISO date-time parse. The model reads it with `ParseDueDate` instead. The two differ: for years 0000 to 0099 the ISO parse keeps the year ("0050-03-10" is in the year 50) while the model reads 1950, so the weekday and week differ; and a text `parseDueDate` accepts but that is not `YYYY-MM-DD` (an unpadded "2026-3-5", a text that already has a time part, a day past the month's end) is an invalid or implementation-defined date in JavaScript, where the model gets a date.
- `Recurrence.SuccessorDueDate`: `toggleTask` reads the completed task's due date with the same ISO parse (`TaskList.tsx:255`); the model reads it with `ParseDueDate`, with the differences just listed for `TaskList.DatePattern`.
- `DateText.StrLess`: JavaScript compares strings by UTF-16 code units; the model compares Dafny characters, which are Unicode scalar values. The two orders agree except between a character above U+FFFF and one in U+E000 to U+FFFF. Due dates are ASCII digits and `-`, where they agree.
- `TaskList.DurationOf`: a duration is a `real` taken from `parseFloat`. Its text parsing is not modelled; the text arrives already classified as blank, number or `NaN`.
- `TaskList.TaskListState.SaveTaskEdits`: "the duration differs" is `!==` on the stored number. `NaN` never reaches that test, because the form refuses it.
- Months are always `0..11` in stored dates. Years 0..99 are read as 1900..1999 as JavaScript does, and lemmas about round trips assume years outside that range (`ParseFormatted` from year 100).
- For an unreadable due date, `formatDateKey` formats an invalid date. That text is the constant `InvalidKey` (`NaN-NaN-NaN`).

## Findings

| source | as written | input that shows it | evidently intended | confidence | as-written member | corrected member |
|---|---|---|---|---|---|---|
| app/components/TaskList.tsx:143-156 | when December's occurrence has passed, `currentMonth` wraps to 0 but the year stays `currentYear`, so the next occurrence lands in January of the same year, before the completed task's date | a "Second Monday" task due 2026-12-20 completed: December's second Monday (2026-12-14) has passed, and the successor is due 2026-01-12 | the next occurrence lies after the due date: January of the following year (2027-01-11) | not executed | Recurrence.DecemberWrapsToSameYear | Recurrence.NextOccurrenceFixedAfter |
