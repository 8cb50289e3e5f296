/** `generate_timetable` of the earlier prototype (smart_timetable_app.py): a
    deterministic first-fit. Each assignment is expanded into `weekly_lectures`
    tasks; tasks longer than one hour are placed first, then one-hour tasks, each
    at the first (day, slot) in DAYS x SLOT_TIMES order where neither its teacher
    nor its classroom is busy. */
module ProtoGenerate {
  import opened Common
  import opened ProtoStore

  /** A row of the assignments-JOIN-subjects query. */
  datatype Assignment = Assignment(
    assignId: nat, teacherId: Option<nat>, subjectId: nat, classYear: string, classroomId: Option<nat>,
    weekly: int, isLab: int, duration: int)

  /** A task dictionary. */
  datatype Task = Task(
    assignId: nat, teacherId: Option<nat>, subjectId: nat, classYear: string, classroomId: Option<nat>,
    isLab: int, duration: int)

  function TaskOf(a: Assignment): Task {
    Task(a.assignId, a.teacherId, a.subjectId, a.classYear, a.classroomId, a.isLab, a.duration)
  }

  function Repeat(t: Task, n: nat): (r: seq<Task>)
    ensures |r| == n && forall x :: x in r ==> x == t
  {
    if n == 0 then [] else Repeat(t, n - 1) + [t]
  }

  /** The tasks list the expansion loop builds: `range(weekly_lectures)` copies
      of each assignment's task, assignment by assignment. */
  function BuildTasks(assigns: seq<Assignment>): (r: seq<Task>)
    ensures forall t :: t in r ==> exists a :: a in assigns && a.weekly > 0 && t == TaskOf(a)
  {
    if assigns == [] then []
    else
      var a := assigns[|assigns| - 1];
      BuildTasks(assigns[..|assigns| - 1]) + Repeat(TaskOf(a), if a.weekly > 0 then a.weekly else 0)
  }

  /** The expansion loop. */
  method ExpandTasks(assigns: seq<Assignment>) returns (tasks: seq<Task>)
    ensures tasks == BuildTasks(assigns)
  {
    tasks := [];
    for k := 0 to |assigns|
      invariant tasks == BuildTasks(assigns[..k])
    {
      var a := assigns[k];
      var count := if a.weekly > 0 then a.weekly else 0;
      for n := 0 to count
        invariant tasks == BuildTasks(assigns[..k]) + Repeat(TaskOf(a), n)
      {
        tasks := tasks + [TaskOf(a)];
      }
      assert assigns[..k + 1][..k] == assigns[..k];
    }
    assert assigns[..|assigns|] == assigns;
  }

  ghost predicate UniqueAssignIds(assigns: seq<Assignment>) {
    forall i, j :: 0 <= i < j < |assigns| ==> assigns[i].assignId != assigns[j].assignId
  }

  lemma RepeatCount(t: Task, n: nat, x: Task)
    ensures multiset(Repeat(t, n))[x] == if x == t then n else 0
  {
    if n > 0 {
      RepeatCount(t, n - 1, x);
    }
  }

  /** With `assign_id` a primary key, every assignment yields exactly
      `weekly_lectures` copies of its task (none when it is not positive). */
  lemma {:induction false} TaskMultiplicity(assigns: seq<Assignment>, a: Assignment)
    requires UniqueAssignIds(assigns) && a in assigns
    ensures multiset(BuildTasks(assigns))[TaskOf(a)] == if a.weekly > 0 then a.weekly else 0
  {
    var init, last := assigns[..|assigns| - 1], assigns[|assigns| - 1];
    assert assigns == init + [last];
    RepeatCount(TaskOf(last), if last.weekly > 0 then last.weekly else 0, TaskOf(a));
    if a == last {
      forall b | b in init ensures b.assignId != a.assignId {
        var i :| 0 <= i < |init| && init[i] == b;
        assert assigns[i] == b;
      }
      AbsentHasNoTasks(init, a);
    } else {
      TaskMultiplicity(init, a);
      assert a.assignId != last.assignId by {
        var i :| 0 <= i < |init| && init[i] == a;
        assert assigns[i] == a;
      }
    }
  }

  lemma AbsentHasNoTasks(assigns: seq<Assignment>, a: Assignment)
    requires forall b :: b in assigns ==> b.assignId != a.assignId
    ensures multiset(BuildTasks(assigns))[TaskOf(a)] == 0
  {
    assert TaskOf(a) !in BuildTasks(assigns);
  }

  /** `[t for t in tasks if t['duration'] > 1]`. */
  function Labs(tasks: seq<Task>): (r: seq<Task>)
    ensures forall t :: t in r ==> t in tasks && t.duration > 1
  {
    if tasks == [] then []
    else if tasks[0].duration > 1 then [tasks[0]] + Labs(tasks[1..])
    else Labs(tasks[1..])
  }

  /** `[t for t in tasks if t['duration'] == 1]`. */
  function Lectures(tasks: seq<Task>): (r: seq<Task>)
    ensures forall t :: t in r ==> t in tasks && t.duration == 1
  {
    if tasks == [] then []
    else if tasks[0].duration == 1 then [tasks[0]] + Lectures(tasks[1..])
    else Lectures(tasks[1..])
  }

  /** The two filters keep every copy of a task of the right duration and no
      other: tasks shorter than an hour are in neither list, so never placed. */
  lemma {:induction false} SplitCounts(tasks: seq<Task>, x: Task)
    ensures multiset(Labs(tasks))[x] == if x.duration > 1 then multiset(tasks)[x] else 0
    ensures multiset(Lectures(tasks))[x] == if x.duration == 1 then multiset(tasks)[x] else 0
  {
    if tasks != [] {
      SplitCounts(tasks[1..], x);
      assert tasks == [tasks[0]] + tasks[1..];
    }
  }

  /** The period tried at column `i`: a duration-2 task takes column i's start
      to column i+1's end and cannot start in the last column; any other
      duration takes column i alone. */
  function CellPeriod(duration: int, i: nat): (p: Option<Period>)
    requires i < |SlotTimes|
  {
    if duration == 2 then
      if i + 1 >= |SlotTimes| then None else Some(Period(SlotTimes[i].start, SlotTimes[i + 1].end))
    else Some(SlotTimes[i])
  }

  /** A two-hour task at the third column runs 11:00 to 13:30, across the lunch
      gap; a three-hour task gets a single column; nothing starts in the last
      column for a two-hour task. */
  lemma CellPeriodShapes(i: nat)
    requires i < |SlotTimes|
    ensures CellPeriod(2, 2) == Some(Period(660, 810))
    ensures CellPeriod(2, |SlotTimes| - 1) == None
    ensures CellPeriod(3, i) == Some(SlotTimes[i])
    ensures i + 1 < |SlotTimes| ==> CellPeriod(2, i).value.end - CellPeriod(2, i).value.start >= 120
  {
  }

  /** A cell of the search: a day index into DAYS and a column of SLOT_TIMES. */
  datatype Cell = Cell(day: nat, column: nat)

  predicate ValidCell(e: Cell) {
    e.day < |Days| && e.column < |SlotTimes|
  }

  /** `e` comes before `f` in the DAYS x SLOT_TIMES search order. */
  predicate Earlier(e: Cell, f: Cell) {
    e.day < f.day || (e.day == f.day && e.column < f.column)
  }

  /** Task `t` fits at cell `e`: the period exists, and neither the teacher nor
      the classroom query finds a row. */
  predicate Fits(rows: seq<Slot>, t: Task, e: Cell)
    requires ValidCell(e)
  {
    var p := CellPeriod(t.duration, e.column);
    p.Some? &&
    !Busy(rows, None, Days[e.day], p.value.start, p.value.end, TeacherCol, t.teacherId) &&
    !Busy(rows, None, Days[e.day], p.value.start, p.value.end, RoomCol, t.classroomId)
  }

  /** The first cell at or after (d, i), in DAYS x SLOT_TIMES order, that
      `ok` accepts. */
  function SearchFrom(ok: Cell -> bool, d: nat, i: nat): (r: Option<Cell>)
    requires d <= |Days| && i <= |SlotTimes|
    ensures r.Some? ==> ValidCell(r.value)
    decreases |Days| - d, |SlotTimes| - i
  {
    if d == |Days| then None
    else if i == |SlotTimes| then SearchFrom(ok, d + 1, 0)
    else if ok(Cell(d, i)) then Some(Cell(d, i))
    else SearchFrom(ok, d, i + 1)
  }

  /** A cell the search from (d, i) finds is accepted, lies at or after
      (d, i), and no cell between is accepted. */
  lemma {:induction false} SearchFinds(ok: Cell -> bool, d: nat, i: nat)
    requires d <= |Days| && i <= |SlotTimes|
    requires SearchFrom(ok, d, i).Some?
    ensures var f := SearchFrom(ok, d, i).value;
      ok(f) && !Earlier(f, Cell(d, i)) &&
      forall e :: ValidCell(e) && !Earlier(e, Cell(d, i)) && Earlier(e, f) ==> !ok(e)
    decreases |Days| - d, |SlotTimes| - i
  {
    if i == |SlotTimes| {
      SearchFinds(ok, d + 1, 0);
      forall e | ValidCell(e) ensures Earlier(e, Cell(d, i)) == Earlier(e, Cell(d + 1, 0)) {
      }
    } else if !ok(Cell(d, i)) {
      SearchFinds(ok, d, i + 1);
      forall e | ValidCell(e) && e != Cell(d, i) ensures Earlier(e, Cell(d, i)) == Earlier(e, Cell(d, i + 1)) {
      }
    }
  }

  /** The search from (d, i) finds nothing only when no cell at or after
      (d, i) is accepted. */
  lemma {:induction false} SearchMisses(ok: Cell -> bool, d: nat, i: nat)
    requires d <= |Days| && i <= |SlotTimes|
    requires SearchFrom(ok, d, i).None?
    ensures forall e :: ValidCell(e) && !Earlier(e, Cell(d, i)) ==> !ok(e)
    decreases |Days| - d, |SlotTimes| - i
  {
    if d == |Days| {
    } else if i == |SlotTimes| {
      SearchMisses(ok, d + 1, 0);
      forall e | ValidCell(e) && !Earlier(e, Cell(d, i)) ensures !ok(e) {
        assert !Earlier(e, Cell(d + 1, 0));
      }
    } else {
      SearchMisses(ok, d, i + 1);
      forall e | ValidCell(e) && !Earlier(e, Cell(d, i)) ensures !ok(e) {
        if e != Cell(d, i) {
          assert !Earlier(e, Cell(d, i + 1));
        }
      }
    }
  }

  /** The first cell, in search order, where `t` fits, if any. */
  function FirstFit(rows: seq<Slot>, t: Task): (r: Option<Cell>)
    ensures r.Some? ==> ValidCell(r.value) && Fits(rows, t, r.value) &&
                        forall e :: ValidCell(e) && Earlier(e, r.value) ==> !Fits(rows, t, e)
    ensures r.None? ==> forall e :: ValidCell(e) ==> !Fits(rows, t, e)
  {
    var ok := (e: Cell) => ValidCell(e) && Fits(rows, t, e);
    var r := SearchFrom(ok, 0, 0);
    if r.Some? then SearchFinds(ok, 0, 0); r
    else SearchMisses(ok, 0, 0); r
  }

  /** The row `place_task` inserts for `t` at cell `e`. */
  function TaskSlot(t: Task, e: Cell): Slot
    requires ValidCell(e) && CellPeriod(t.duration, e.column).Some?
  {
    var p := CellPeriod(t.duration, e.column).value;
    Slot(0, Days[e.day], p.start, p.end, t.teacherId, Some(t.subjectId), t.classroomId, t.classYear)
  }

  /** A row that `place_task` could have written for task `t`. */
  ghost predicate FromTask(r: Slot, t: Task) {
    && r.teacherId == t.teacherId && r.subjectId == Some(t.subjectId)
    && r.classroomId == t.classroomId && r.classYear == t.classYear
    && exists e :: ValidCell(e) && CellPeriod(t.duration, e.column) == Some(Period(r.start, r.end)) &&
                   r.day == Days[e.day]
  }

  /** A row that `place_task` could have written for one of `tasks`. */
  ghost predicate FromSome(r: Slot, tasks: seq<Task>) {
    exists t :: t in tasks && FromTask(r, t)
  }

  /** Placing a task where it fits keeps the store free of teacher and room clashes. */
  lemma PlacedKeepsNoClash(rows: seq<Slot>, t: Task, e: Cell, id: nat)
    requires NoClash(rows) && ValidCell(e) && Fits(rows, t, e)
    ensures NoClash(rows + [TaskSlot(t, e).(slotId := id)])
  {
    AppendFreeKeepsNoClash(rows, TaskSlot(t, e).(slotId := id));
  }

  /** The class year is not checked: a second class-TE task with another
      teacher and room lands on top of the first. */
  lemma ClassOverlapNotChecked()
    ensures var rows := [Slot(1, MON, 540, 600, Some(1), Some(1), Some(1), "TE")];
            var t := Task(2, Some(2), 2, "TE", Some(2), 0, 1);
            FirstFit(rows, t) == Some(Cell(0, 0)) && TaskSlot(t, Cell(0, 0)).classYear == rows[0].classYear &&
            Overlaps(rows[0].start, rows[0].end, TaskSlot(t, Cell(0, 0)).start, TaskSlot(t, Cell(0, 0)).end)
  {
    var rows := [Slot(1, MON, 540, 600, Some(1), Some(1), Some(1), "TE")];
    var t := Task(2, Some(2), 2, "TE", Some(2), 0, 1);
    assert !Hits(rows[0], TeacherCol, Some(2)) && !Hits(rows[0], RoomCol, Some(2));
    assert Fits(rows, t, Cell(0, 0));
  }

  /** `place_task`: the nested day / slot loops, skipping a cell when the
      period does not exist or a query finds a row, and inserting at the first
      cell that passes. It inserts at exactly the first cell where `t`
      fits, or nothing when there is none. */
  method PlaceTask(store: SlotTable, t: Task) returns (placed: bool)
    requires store.Valid()
    modifies store
    ensures store.Valid()
    ensures placed <==> FirstFit(old(store.rows), t).Some?
    ensures placed ==> store.rows == old(store.rows) + [TaskSlot(t, FirstFit(old(store.rows), t).value).(slotId := old(store.nextId))]
    ensures placed ==> store.nextId == old(store.nextId) + 1
    ensures !placed ==> store.rows == old(store.rows) && store.nextId == old(store.nextId)
  {
    for d := 0 to |Days|
      invariant store.rows == old(store.rows) && store.nextId == old(store.nextId)
      invariant forall e :: ValidCell(e) && Earlier(e, Cell(d, 0)) ==> !Fits(store.rows, t, e)
    {
      for i := 0 to |SlotTimes|
        invariant store.rows == old(store.rows) && store.nextId == old(store.nextId)
        invariant forall e :: ValidCell(e) && Earlier(e, Cell(d, i)) ==> !Fits(store.rows, t, e)
      {
        var p := CellPeriod(t.duration, i);
        if p.None? {
          continue;
        }
        if Busy(store.rows, None, Days[d], p.value.start, p.value.end, TeacherCol, t.teacherId) {
          continue;
        }
        if Busy(store.rows, None, Days[d], p.value.start, p.value.end, RoomCol, t.classroomId) {
          continue;
        }
        assert Fits(store.rows, t, Cell(d, i));
        var id := store.Insert(TaskSlot(t, Cell(d, i)));
        return true;
      }
    }
    return false;
  }

  /** The table the placement loops thread: its rows and the next AUTOINCREMENT id. */
  datatype Table = Table(rows: seq<Slot>, nextId: nat)

  /** `place_task` on table `t`: the task's row at its first fitting cell,
      under the next id, or `t` unchanged when it fits nowhere. */
  function PlaceStep(t: Table, task: Task): Table {
    var c := FirstFit(t.rows, task);
    if c.None? then t else Table(t.rows + [TaskSlot(task, c.value).(slotId := t.nextId)], t.nextId + 1)
  }

  /** The tasks placed one after the other, each against the rows of those
      before it. */
  function Placements(t: Table, tasks: seq<Task>): Table {
    if tasks == [] then t else PlaceStep(Placements(t, tasks[..|tasks| - 1]), tasks[|tasks| - 1])
  }

  /** The table `generate_timetable` leaves: from an empty table, the tasks
      longer than an hour, then the one-hour tasks. */
  function Generated(nextId: nat, assigns: seq<Assignment>): Table {
    var tasks := BuildTasks(assigns);
    Placements(Placements(Table([], nextId), Labs(tasks)), Lectures(tasks))
  }

  /** A placement step adds a row exactly when the task fits some cell of the
      grid, and that row sits at the earliest such cell. */
  lemma PlaceStepSpec(t: Table, task: Task)
    ensures PlaceStep(t, task) == t <==> forall e :: ValidCell(e) ==> !Fits(t.rows, task, e)
    ensures PlaceStep(t, task) != t ==>
      exists e :: ValidCell(e) && Fits(t.rows, task, e) &&
        (forall e' :: ValidCell(e') && Earlier(e', e) ==> !Fits(t.rows, task, e')) &&
        PlaceStep(t, task).rows == t.rows + [TaskSlot(task, e).(slotId := t.nextId)]
  {
    var c := FirstFit(t.rows, task);
    if c.Some? {
      assert |PlaceStep(t, task).rows| == |t.rows| + 1;
      assert Fits(t.rows, task, c.value);
    }
  }

  /** Places every task of `tasks` in order; unplaced tasks are skipped. */
  method PlaceAll(store: SlotTable, tasks: seq<Task>)
    requires store.Valid() && NoClash(store.rows)
    modifies store
    ensures store.Valid() && NoClash(store.rows)
    ensures Table(store.rows, store.nextId) == Placements(Table(old(store.rows), old(store.nextId)), tasks)
    ensures |old(store.rows)| <= |store.rows| <= |old(store.rows)| + |tasks|
    ensures store.rows[..|old(store.rows)|] == old(store.rows)
    ensures forall k :: |old(store.rows)| <= k < |store.rows| ==> FromSome(store.rows[k], tasks)
  {
    ghost var start := store.rows;
    ghost var startTable := Table(store.rows, store.nextId);
    for n := 0 to |tasks|
      invariant store.Valid() && NoClash(store.rows)
      invariant Table(store.rows, store.nextId) == Placements(startTable, tasks[..n])
      invariant |start| <= |store.rows| <= |start| + n
      invariant store.rows[..|start|] == start
      invariant forall k :: |start| <= k < |store.rows| ==> FromSome(store.rows[k], tasks)
    {
      ghost var before := store.rows;
      assert tasks[..n + 1][..n] == tasks[..n];
      var placed := PlaceTask(store, tasks[n]);
      if placed {
        var c := FirstFit(before, tasks[n]).value;
        PlacedKeepsNoClash(before, tasks[n], c, store.rows[|before|].slotId);
        assert FromTask(store.rows[|before|], tasks[n]);
        assert FromSome(store.rows[|before|], tasks);
        assert store.rows[..|before|] == before;
      }
    }
    assert tasks[..|tasks|] == tasks;
  }

  /** `generate_timetable`: clear the table, expand the assignments, place the
      tasks longer than an hour, then the one-hour tasks. The store is free of
      teacher and classroom clashes; the table it leaves is `Generated` of the
      assignments: the first rows come from the long tasks and the rest from the
      one-hour tasks, at most one row per task. */
  method GenerateTimetable(store: SlotTable, assigns: seq<Assignment>) returns (ghost labCount: nat)
    requires store.Valid()
    modifies store
    ensures store.Valid() && NoClash(store.rows)
    ensures Table(store.rows, store.nextId) == Generated(old(store.nextId), assigns)
    ensures labCount <= |Labs(BuildTasks(assigns))|
    ensures labCount <= |store.rows| <= labCount + |Lectures(BuildTasks(assigns))|
    ensures forall k :: 0 <= k < labCount ==> FromSome(store.rows[k], Labs(BuildTasks(assigns)))
    ensures forall k :: labCount <= k < |store.rows| ==> FromSome(store.rows[k], Lectures(BuildTasks(assigns)))
  {
    store.Clear();
    var tasks := ExpandTasks(assigns);
    var labs := Labs(tasks);
    var lectures := Lectures(tasks);
    PlaceAll(store, labs);
    labCount := |store.rows|;
    ghost var labRows := store.rows;
    PlaceAll(store, lectures);
    assert forall k :: 0 <= k < labCount ==> store.rows[k] == labRows[k] by {
      assert store.rows[..labCount] == labRows;
    }
  }
}
