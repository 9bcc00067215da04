/**
 * The task list's display order and its "Next" marker: overdue tasks by due date, then tasks
 * due today or later by due date, then tasks without a readable date by descending id; and the
 * first not-completed task with the earliest due date from today on.
 */
module TaskOrdering {
  import opened Wrappers
  import opened Dates
  import opened DateText
  import opened TasksApi

  datatype Bucket = Overdue | Upcoming | Undated

  /** `parseDueDate(task.dueDate)?.getTime()`, counted in days: the task's due day, if readable. */
  function DueDay(t: Task): Option<int> {
    var due := ParseDue(t.dueDate);
    if due.None? then None else Some(Time(due.value))
  }

  /** Only a non-empty due date can be read, so for `DueDay` the marker's text test is implied. */
  lemma DueDayNeedsText(t: Task)
    ensures DueDay(t).Some? ==> t.dueDate.Some? && t.dueDate.value != ""
  {
  }

  /*
   * Below, `due` reads a task's due day: the task list passes `DueDay`. Stating the order and the
   * marker for any such reader keeps the date parsing out of their proofs.
   */

  /** Which section a task is listed in, given the current day `today` (a day number). */
  function BucketOf(t: Task, today: int, due: Task -> Option<int>): Bucket {
    if due(t).None? then Undated
    else if due(t).value < today then Overdue
    else Upcoming
  }

  /**
   * The sort key within a section: the due day for dated tasks (`a.dueTime - b.dueTime`), the
   * negated id for undated ones (`b.id - a.id`).
   */
  function KeyOf(due: Task -> Option<int>): Task -> int {
    t => if due(t).None? then -t.id else due(t).value
  }

  /** The tasks of `tasks` in bucket `b`, in list order. */
  function Section(tasks: seq<Task>, today: int, due: Task -> Option<int>, b: Bucket): seq<Task>
  {
    if tasks == [] then []
    else
      var t := tasks[|tasks| - 1];
      Section(tasks[..|tasks| - 1], today, due, b) + (if BucketOf(t, today, due) == b then [t] else [])
  }

  // ----- stable sort by an integer key (`Array.prototype.sort` with a numeric comparator) -----

  predicate SortedBy<T>(s: seq<T>, key: T -> int) {
    forall i, j :: 0 <= i < j < |s| ==> key(s[i]) <= key(s[j])
  }

  /** Insert `x` before the first element whose key is not smaller. */
  function Insert<T>(x: T, s: seq<T>, key: T -> int): seq<T> {
    if s == [] || key(x) <= key(s[0]) then [x] + s else [s[0]] + Insert(x, s[1..], key)
  }

  /** Stable sort by ascending key: each element goes in front of the later ones with the same key. */
  function Sort<T>(s: seq<T>, key: T -> int): seq<T> {
    if s == [] then [] else Insert(s[0], Sort(s[1..], key), key)
  }

  /** The elements whose key is `k`, in order. */
  function WithKey<T>(s: seq<T>, key: T -> int, k: int): seq<T> {
    if s == [] then [] else (if key(s[0]) == k then [s[0]] else []) + WithKey(s[1..], key, k)
  }

  lemma {:induction false} InsertPermutes<T>(x: T, s: seq<T>, key: T -> int)
    ensures multiset(Insert(x, s, key)) == multiset{x} + multiset(s)
  {
    if s != [] && key(x) > key(s[0]) {
      InsertPermutes(x, s[1..], key);
      assert s == [s[0]] + s[1..];
    }
  }

  lemma {:induction false} InsertSorted<T>(x: T, s: seq<T>, key: T -> int)
    requires SortedBy(s, key)
    ensures SortedBy(Insert(x, s, key), key)
  {
    if s != [] && key(x) > key(s[0]) {
      InsertSorted(x, s[1..], key);
      var r := Insert(x, s[1..], key);
      InsertPermutes(x, s[1..], key);
      forall i | 0 <= i < |r| ensures key(s[0]) <= key(r[i]) {
        assert r[i] in multiset(r);
        assert r[i] == x || r[i] in s[1..];
      }
    }
  }

  lemma WithKeyCons<T>(x: T, s: seq<T>, key: T -> int, k: int)
    ensures WithKey([x] + s, key, k) == (if key(x) == k then [x] else []) + WithKey(s, key, k)
  {
    assert ([x] + s)[0] == x && ([x] + s)[1..] == s;
  }

  lemma {:induction false} InsertWithKey<T>(x: T, s: seq<T>, key: T -> int, k: int)
    requires SortedBy(s, key)
    ensures WithKey(Insert(x, s, key), key, k) == (if key(x) == k then [x] else []) + WithKey(s, key, k)
  {
    if s == [] || key(x) <= key(s[0]) {
      WithKeyCons(x, s, key, k);
    } else {
      var tail := s[1..];
      assert SortedBy(tail, key) by {
        forall i, j | 0 <= i < j < |tail| ensures key(tail[i]) <= key(tail[j]) {
          assert tail[i] == s[i + 1] && tail[j] == s[j + 1];
        }
      }
      var r := Insert(x, tail, key);
      assert Insert(x, s, key) == [s[0]] + r;
      InsertWithKey(x, tail, key, k);
      WithKeyCons(s[0], r, key, k);
      assert s == [s[0]] + tail;
      WithKeyCons(s[0], tail, key, k);
      var head := if key(s[0]) == k then [s[0]] else [];
      var mine := if key(x) == k then [x] else [];
      assert head == [] || mine == [];
      assert head + (mine + WithKey(tail, key, k)) == mine + (head + WithKey(tail, key, k));
    }
  }

  /** The sort permutes its input. */
  lemma {:induction false} SortPermutes<T>(s: seq<T>, key: T -> int)
    ensures multiset(Sort(s, key)) == multiset(s)
  {
    if s != [] {
      SortPermutes(s[1..], key);
      InsertPermutes(s[0], Sort(s[1..], key), key);
      assert s == [s[0]] + s[1..];
    }
  }

  /** The sort orders by ascending key. */
  lemma {:induction false} SortSorted<T>(s: seq<T>, key: T -> int)
    ensures SortedBy(Sort(s, key), key)
  {
    if s != [] {
      SortSorted(s[1..], key);
      InsertSorted(s[0], Sort(s[1..], key), key);
    }
  }

  /** The sort is stable: elements with equal keys keep their input order. */
  lemma {:induction false} SortStable<T>(s: seq<T>, key: T -> int, k: int)
    ensures WithKey(Sort(s, key), key, k) == WithKey(s, key, k)
  {
    if s != [] {
      SortStable(s[1..], key, k);
      SortSorted(s[1..], key);
      InsertWithKey(s[0], Sort(s[1..], key), key, k);
    }
  }

  // ----- orderedTasks -----

  /** The display order `orderedTasks` produces. */
  function Ordered(tasks: seq<Task>, today: int, due: Task -> Option<int>): seq<Task>
  {
    Sort(Section(tasks, today, due, Overdue), KeyOf(due))
      + Sort(Section(tasks, today, due, Upcoming), KeyOf(due))
      + Sort(Section(tasks, today, due, Undated), KeyOf(due))
  }

  /**
   * `orderedTasks`: one pass puts every task into the overdue, upcoming or undated list, in list
   * order; each list is then sorted by its key and the three are concatenated. The lists hold the
   * tasks alone: the due time paired with each is `KeyOf(due)` of the task.
   */
  method OrderedTasks(tasks: seq<Task>, today: Date, due: Task -> Option<int>) returns (ordered: seq<Task>)
    requires Valid(today)
    ensures ordered == Ordered(tasks, Time(today), due)
  {
    var past: seq<Task> := [];
    var upcoming: seq<Task> := [];
    var undated: seq<Task> := [];
    var todayTime := Time(today);
    for i := 0 to |tasks|
      invariant past == Section(tasks[..i], todayTime, due, Overdue)
      invariant upcoming == Section(tasks[..i], todayTime, due, Upcoming)
      invariant undated == Section(tasks[..i], todayTime, due, Undated)
    {
      var task := tasks[i];
      assert tasks[..i + 1][..i] == tasks[..i];
      var dueTime := due(task);
      if dueTime.None? {
        undated := undated + [task];
      } else if dueTime.value < todayTime {
        past := past + [task];
      } else {
        upcoming := upcoming + [task];
      }
    }
    assert tasks[..|tasks|] == tasks;
    ordered := Sort(past, KeyOf(due)) + Sort(upcoming, KeyOf(due)) + Sort(undated, KeyOf(due));
  }

  lemma LastSplit<T>(s: seq<T>)
    requires s != []
    ensures multiset(s) == multiset(s[..|s| - 1]) + multiset{s[|s| - 1]}
  {
    assert s == s[..|s| - 1] + [s[|s| - 1]];
  }

  /** The last task joins the section of its own bucket and no other. */
  lemma SectionStep(tasks: seq<Task>, today: int, due: Task -> Option<int>, b: Bucket)
    requires tasks != []
    ensures var t := tasks[|tasks| - 1];
      multiset(Section(tasks, today, due, b))
        == multiset(Section(tasks[..|tasks| - 1], today, due, b)) + (if BucketOf(t, today, due) == b then multiset{t} else multiset{})
  {
  }

  /** Every task of the list lies in exactly one section. */
  lemma {:induction false} SectionsPartition(tasks: seq<Task>, today: int, due: Task -> Option<int>)
    ensures multiset(Section(tasks, today, due, Overdue)) + multiset(Section(tasks, today, due, Upcoming))
          + multiset(Section(tasks, today, due, Undated)) == multiset(tasks)
  {
    if tasks != [] {
      var init, t := tasks[..|tasks| - 1], tasks[|tasks| - 1];
      SectionsPartition(init, today, due);
      LastSplit(tasks);
      SectionStep(tasks, today, due, Overdue);
      SectionStep(tasks, today, due, Upcoming);
      SectionStep(tasks, today, due, Undated);
    }
  }

  /** `orderedTasks` lists every task exactly as often as the input does. */
  lemma OrderedIsPermutation(tasks: seq<Task>, today: int, due: Task -> Option<int>)
    ensures multiset(Ordered(tasks, today, due)) == multiset(tasks)
  {
    SectionsPartition(tasks, today, due);
    SortPermutes(Section(tasks, today, due, Overdue), KeyOf(due));
    SortPermutes(Section(tasks, today, due, Upcoming), KeyOf(due));
    SortPermutes(Section(tasks, today, due, Undated), KeyOf(due));
  }

  /** A section holds only tasks of its bucket. */
  lemma {:induction false} SectionMembers(tasks: seq<Task>, today: int, due: Task -> Option<int>, b: Bucket)
    ensures forall t :: t in Section(tasks, today, due, b) ==> BucketOf(t, today, due) == b
  {
    if tasks != [] {
      SectionMembers(tasks[..|tasks| - 1], today, due, b);
    }
  }

  function Rank(b: Bucket): int {
    match b
    case Overdue => 0
    case Upcoming => 1
    case Undated => 2
  }

  /** The sorted section `b`: ascending keys, and every task of bucket `b`. */
  lemma SortedSection(tasks: seq<Task>, today: int, due: Task -> Option<int>, b: Bucket)
    ensures var s := Sort(Section(tasks, today, due, b), KeyOf(due));
      SortedBy(s, KeyOf(due)) && forall t :: t in s ==> BucketOf(t, today, due) == b
  {
    var sec := Section(tasks, today, due, b);
    SortSorted(sec, KeyOf(due));
    SortPermutes(sec, KeyOf(due));
    SectionMembers(tasks, today, due, b);
    var s := Sort(sec, KeyOf(due));
    forall t | t in s ensures BucketOf(t, today, due) == b {
      assert t in multiset(sec);
    }
  }

  /**
   * Three runs, each sorted by `key`, whose elements have rank 0, 1 and 2: their concatenation
   * ascends by rank, and by key within one rank.
   */
  lemma ConcatRuns<T>(a: seq<T>, b: seq<T>, c: seq<T>, rank: T -> int, key: T -> int)
    requires SortedBy(a, key) && SortedBy(b, key) && SortedBy(c, key)
    requires forall x :: x in a ==> rank(x) == 0
    requires forall x :: x in b ==> rank(x) == 1
    requires forall x :: x in c ==> rank(x) == 2
    ensures var o := a + b + c;
      forall i, j :: 0 <= i < j < |o| ==>
        rank(o[i]) < rank(o[j]) || (rank(o[i]) == rank(o[j]) && key(o[i]) <= key(o[j]))
  {
    var o := a + b + c;
    forall i, j | 0 <= i < j < |o|
      ensures rank(o[i]) < rank(o[j]) || (rank(o[i]) == rank(o[j]) && key(o[i]) <= key(o[j]))
    {
      if j < |a| {
        assert o[i] == a[i] && o[j] == a[j];
      } else if i < |a| {
        assert o[i] == a[i] && o[j] in b + c;
      } else if j < |a| + |b| {
        assert o[i] == b[i - |a|] && o[j] == b[j - |a|];
      } else if i < |a| + |b| {
        assert o[i] == b[i - |a|] && o[j] == c[j - |a| - |b|];
      } else {
        assert o[i] == c[i - |a| - |b|] && o[j] == c[j - |a| - |b|];
      }
    }
  }

  /**
   * The order: sections come overdue, upcoming, undated; inside a section keys ascend (due day,
   * or descending id for undated tasks).
   */
  lemma OrderedSorted(tasks: seq<Task>, today: int, due: Task -> Option<int>)
    ensures var o := Ordered(tasks, today, due);
      forall i, j :: 0 <= i < j < |o| ==>
        Rank(BucketOf(o[i], today, due)) < Rank(BucketOf(o[j], today, due))
        || (Rank(BucketOf(o[i], today, due)) == Rank(BucketOf(o[j], today, due)) && KeyOf(due)(o[i]) <= KeyOf(due)(o[j]))
  {
    var key := KeyOf(due);
    var a := Sort(Section(tasks, today, due, Overdue), key);
    var b := Sort(Section(tasks, today, due, Upcoming), key);
    var c := Sort(Section(tasks, today, due, Undated), key);
    var rank := t => Rank(BucketOf(t, today, due));
    assert SortedBy(a, key) && forall x :: x in a ==> rank(x) == 0 by { SortedSection(tasks, today, due, Overdue); }
    assert SortedBy(b, key) && forall x :: x in b ==> rank(x) == 1 by { SortedSection(tasks, today, due, Upcoming); }
    assert SortedBy(c, key) && forall x :: x in c ==> rank(x) == 2 by { SortedSection(tasks, today, due, Undated); }
    ConcatRuns(a, b, c, rank, key);
  }

  /** Tasks of one section with equal keys appear in the order the input lists them. */
  lemma OrderedStable(tasks: seq<Task>, today: int, due: Task -> Option<int>, b: Bucket, k: int)
    ensures WithKey(Sort(Section(tasks, today, due, b), KeyOf(due)), KeyOf(due), k)
         == WithKey(Section(tasks, today, due, b), KeyOf(due), k)
  {
    SortStable(Section(tasks, today, due, b), KeyOf(due), k);
  }

  // ----- nextTaskId -----

  /** A task that may carry the "Next" marker: open, with a non-empty, readable due day from `today` on. */
  predicate Candidate(t: Task, today: int, due: Task -> Option<int>)
  {
    t.dueDate.Some? && t.dueDate.value != "" && !t.completed && due(t).Some? && due(t).value >= today
  }

  /**
   * Among the first `n` tasks, task `i` is the one marked "Next": a candidate whose due day is not
   * later than any other candidate's, and strictly earlier than that of every candidate before it.
   */
  predicate IsNext(tasks: seq<Task>, n: int, today: int, due: Task -> Option<int>, i: int)
    requires n <= |tasks|
  {
    0 <= i < n && Candidate(tasks[i], today, due)
    && (forall j :: 0 <= j < n && Candidate(tasks[j], today, due) ==> due(tasks[i]).value <= due(tasks[j]).value)
    && (forall j :: 0 <= j < i && Candidate(tasks[j], today, due) ==> due(tasks[i]).value < due(tasks[j]).value)
  }

  /**
   * `nextTaskId`: the id of the first candidate with the earliest due day (a later task replaces
   * the current pick only when strictly earlier), or none when there is no candidate.
   */
  method NextTaskId(tasks: seq<Task>, today: Date, due: Task -> Option<int>) returns (nextId: Option<int>)
    requires Valid(today)
    ensures nextId.None? <==> forall i :: 0 <= i < |tasks| ==> !Candidate(tasks[i], Time(today), due)
    ensures nextId.Some? ==> exists i :: IsNext(tasks, |tasks|, Time(today), due, i) && nextId.value == tasks[i].id
  {
    var todayTime := Time(today);
    nextId := None;
    var nextTime: Option<int> := None;  // None stands for +infinity
    ghost var pick := 0;
    for i := 0 to |tasks|
      invariant nextTime.None? <==> nextId.None?
      invariant nextTime.None? <==> forall j :: 0 <= j < i ==> !Candidate(tasks[j], todayTime, due)
      invariant nextTime.Some? ==> IsNext(tasks, i, todayTime, due, pick)
      invariant nextTime.Some? ==> nextId == Some(tasks[pick].id) && nextTime == due(tasks[pick])
    {
      var task := tasks[i];
      if task.dueDate.None? || task.dueDate.value == "" || task.completed {
        continue;
      }
      var parsed := due(task);
      if parsed.None? {
        continue;
      }
      var dueTime := parsed.value;
      if dueTime >= todayTime && (nextTime.None? || dueTime < nextTime.value) {
        nextTime := Some(dueTime);
        nextId := Some(task.id);
        pick := i;
      }
    }
  }
}
