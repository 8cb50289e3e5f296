/** Bulk generation of the current revision (app.py, `generate_timetable`):
    courses expand into two-slot lab tasks and one-slot lecture tasks, labs are
    placed first in lab rooms, then lectures in theory rooms, each insert only
    after the teacher / classroom / class queries found the interval free.
    Every random draw of the source is an input (`Draws`): the properties hold
    for every outcome of the draws. */
module CurrentGenerate {
  import opened Common
  import opened CurrentStore

  /** A row of `courses` joined with its subject. `isLab` is the raw column:
      any non-zero value counts as a lab. */
  datatype Course = Course(
    courseId: nat, classId: nat, subjectId: nat, teacherId: nat,
    weeklyLectures: int, isLab: int)

  datatype Classroom = Classroom(classroomId: nat, isLab: int)

  /** An entry of `teacher_lab_times`: the day and end time of a teacher's lab. */
  datatype LabTime = LabTime(day: Day, endTime: Minutes)

  /** The random draws of one run.
      - labDays(k): `random.sample(DAYS, len(DAYS))` for the k-th lab task;
      - labRoom(k, day, i): `random.choice(lab_rooms)` for lab task k at slot i of
        `day`, as an index taken modulo the number of lab rooms;
      - lectureDays(k): the day order of the k-th lecture task after sample and
        shuffle;
      - lectureSlots(k, day): `random.shuffle` of `range(len(SLOT_TIMES))`;
      - lectureRoom(k, day, i): `random.choice(theory_rooms)`, as an index modulo
        the number of theory rooms. */
  datatype Draws = Draws(
    labDays: nat -> seq<Day>,
    labRoom: (nat, Day, nat) -> nat,
    lectureDays: nat -> seq<Day>,
    lectureSlots: (nat, Day) -> seq<nat>,
    lectureRoom: (nat, Day, nat) -> nat)

  const SlotRange: seq<nat> := [0, 1, 2, 3, 4, 5, 6]

  /** A shuffle of `range(len(SLOT_TIMES))`. */
  predicate IsSlotShuffle(s: seq<nat>) {
    multiset(s) == multiset(SlotRange)
  }

  ghost predicate SlotShuffles(draws: Draws) {
    forall k: nat, d: Day :: IsSlotShuffle(draws.lectureSlots(k, d))
  }


  // ---------------------------------------------------------------------------
  // Task expansion

  /** `range(n)` has this many elements, also for negative n. */
  function Times(n: int): nat {
    if n > 0 then n else 0
  }

  /** `weekly_lectures // 2` two-hour blocks; an odd trailing hour is dropped.
      For a positive divisor Dafny's division is Python's floor division. */
  function LabBlocks(weekly: int): (n: nat)
    ensures 2 * n <= Times(weekly) < 2 * n + 2
  {
    Times(weekly / 2)
  }

  /** The number of sessions a course asks for. */
  function TaskCount(c: Course): nat {
    if c.isLab != 0 then LabBlocks(c.weeklyLectures) else Times(c.weeklyLectures)
  }

  function Repeat(c: Course, n: nat): (r: seq<Course>)
    ensures |r| == n
  {
    if n == 0 then [] else Repeat(c, n - 1) + [c]
  }

  lemma {:induction false} RepeatOnly(c: Course, n: nat)
    ensures forall x :: x in Repeat(c, n) ==> x == c
  {
    if n > 0 {
      RepeatOnly(c, n - 1);
    }
  }

  /** The lab tasks of one course. */
  function LabPart(c: Course): seq<Course> {
    if c.isLab != 0 then Repeat(c, LabBlocks(c.weeklyLectures)) else []
  }

  /** The lecture tasks of one course. */
  function LecturePart(c: Course): seq<Course> {
    if c.isLab == 0 then Repeat(c, Times(c.weeklyLectures)) else []
  }

  /** `labs_to_schedule`: each lab course repeated `weekly_lectures // 2` times. */
  function LabTasks(courses: seq<Course>): seq<Course> {
    if courses == [] then []
    else LabTasks(courses[..|courses| - 1]) + LabPart(courses[|courses| - 1])
  }

  /** `lectures_to_schedule`: each theory course repeated `weekly_lectures` times. */
  function LectureTasks(courses: seq<Course>): seq<Course> {
    if courses == [] then []
    else LectureTasks(courses[..|courses| - 1]) + LecturePart(courses[|courses| - 1])
  }

  /** Every lab task is a lab course of `courses`, every lecture task a theory
      course of `courses`. */
  lemma {:induction false} TaskListsFromCourses(courses: seq<Course>)
    ensures forall x :: x in LabTasks(courses) ==> x in courses && x.isLab != 0
    ensures forall x :: x in LectureTasks(courses) ==> x in courses && x.isLab == 0
  {
    if courses != [] {
      var init, last := courses[..|courses| - 1], courses[|courses| - 1];
      TaskListsFromCourses(init);
      RepeatOnly(last, LabBlocks(last.weeklyLectures));
      RepeatOnly(last, Times(last.weeklyLectures));
      assert forall x :: x in init ==> x in courses;
    }
  }

  /** The loop over `courses` that fills the two task lists. */
  method ExpandTasks(courses: seq<Course>) returns (labs: seq<Course>, lectures: seq<Course>)
    ensures labs == LabTasks(courses) && lectures == LectureTasks(courses)
  {
    labs, lectures := [], [];
    for k := 0 to |courses|
      invariant labs == LabTasks(courses[..k]) && lectures == LectureTasks(courses[..k])
    {
      var c := courses[k];
      TaskListsSnoc(courses, k);
      if c.isLab != 0 {
        labs := AppendCopies(labs, c, LabBlocks(c.weeklyLectures));
      } else {
        lectures := AppendCopies(lectures, c, Times(c.weeklyLectures));
      }
    }
    assert courses[..|courses|] == courses;
  }

  /** `for _ in range(n): tasks.append(c)`. */
  method AppendCopies(tasks: seq<Course>, c: Course, n: nat) returns (r: seq<Course>)
    ensures r == tasks + Repeat(c, n)
  {
    r := tasks;
    for j := 0 to n
      invariant r == tasks + Repeat(c, j)
    {
      assert tasks + Repeat(c, j + 1) == tasks + Repeat(c, j) + [c];
      r := r + [c];
    }
  }

  /** Both lists of tasks, one course further. */
  lemma TaskListsSnoc(courses: seq<Course>, k: nat)
    requires k < |courses|
    ensures LabTasks(courses[..k + 1]) == LabTasks(courses[..k]) + LabPart(courses[k])
    ensures LectureTasks(courses[..k + 1]) == LectureTasks(courses[..k]) + LecturePart(courses[k])
  {
    assert courses[..k + 1][..k] == courses[..k];
  }

  function CountTasks(tasks: seq<Course>, courseId: nat): nat {
    if tasks == [] then 0
    else CountTasks(tasks[..|tasks| - 1], courseId) + (if tasks[|tasks| - 1].courseId == courseId then 1 else 0)
  }

  function CountRows(rows: seq<Row>, courseId: nat): nat {
    if rows == [] then 0
    else CountRows(rows[..|rows| - 1], courseId) + (if rows[|rows| - 1].courseId == courseId then 1 else 0)
  }

  lemma CountTasksAppend(a: seq<Course>, b: seq<Course>, courseId: nat)
    ensures CountTasks(a + b, courseId) == CountTasks(a, courseId) + CountTasks(b, courseId)
  {
    if b != [] {
      assert (a + b)[..|a + b| - 1] == a + b[..|b| - 1];
      CountTasksAppend(a, b[..|b| - 1], courseId);
    } else {
      assert a + b == a;
    }
  }

  lemma CountRepeat(c: Course, n: nat, courseId: nat)
    ensures CountTasks(Repeat(c, n), courseId) == if c.courseId == courseId then n else 0
  {
    if n > 0 {
      assert Repeat(c, n)[..n - 1] == Repeat(c, n - 1);
    }
  }

  lemma CountRowsAppend(rows: seq<Row>, r: Row, courseId: nat)
    ensures CountRows(rows + [r], courseId) == CountRows(rows, courseId) + (if r.courseId == courseId then 1 else 0)
  {
    assert (rows + [r])[..|rows|] == rows;
  }

  ghost predicate UniqueCourseIds(courses: seq<Course>) {
    forall i, j :: 0 <= i < j < |courses| ==> courses[i].courseId != courses[j].courseId
  }

  /** One course's own tasks: its task count under its id, none under another. */
  lemma CoursePartsCount(c: Course, courseId: nat)
    ensures CountTasks(LabPart(c), courseId) + CountTasks(LecturePart(c), courseId) ==
            if c.courseId == courseId then TaskCount(c) else 0
  {
    if c.isLab != 0 {
      var n := LabBlocks(c.weeklyLectures);
      assert LabPart(c) == Repeat(c, n) && LecturePart(c) == [];
      CountRepeat(c, n, courseId);
    } else {
      var n := Times(c.weeklyLectures);
      assert LabPart(c) == [] && LecturePart(c) == Repeat(c, n);
      CountRepeat(c, n, courseId);
    }
  }

  /** Both lists of tasks of `courses`, counted under one id: the last course's
      share comes on top of the others'. */
  lemma {:induction false} TaskListsCountSnoc(courses: seq<Course>, courseId: nat)
    requires courses != []
    ensures var init, last := courses[..|courses| - 1], courses[|courses| - 1];
      CountTasks(LabTasks(courses), courseId) + CountTasks(LectureTasks(courses), courseId) ==
      CountTasks(LabTasks(init), courseId) + CountTasks(LectureTasks(init), courseId) +
      (if last.courseId == courseId then TaskCount(last) else 0)
  {
    var init, last := courses[..|courses| - 1], courses[|courses| - 1];
    CountTasksAppend(LabTasks(init), LabPart(last), courseId);
    CountTasksAppend(LectureTasks(init), LecturePart(last), courseId);
    CoursePartsCount(last, courseId);
  }

  /** Each course contributes exactly its task count to the two task lists,
      so placing each task at most once bounds the sessions of the course. */
  lemma {:induction false} TaskListsCount(courses: seq<Course>, c: Course)
    requires UniqueCourseIds(courses) && c in courses
    ensures CountTasks(LabTasks(courses), c.courseId) + CountTasks(LectureTasks(courses), c.courseId) == TaskCount(c)
  {
    var n := |courses|;
    var j :| 0 <= j < n && courses[j] == c;
    if j == n - 1 {
      TaskListsCountLast(courses);
    } else {
      var init := courses[..n - 1];
      assert init[j] == c;
      assert courses[n - 1].courseId != c.courseId;
      TaskListsCount(init, c);
      TaskListsCountSnoc(courses, c.courseId);
    }
  }

  /** The last course's tasks are the only ones under its id. */
  lemma {:induction false} TaskListsCountLast(courses: seq<Course>)
    requires UniqueCourseIds(courses) && courses != []
    ensures var c := courses[|courses| - 1];
      CountTasks(LabTasks(courses), c.courseId) + CountTasks(LectureTasks(courses), c.courseId) == TaskCount(c)
  {
    var n := |courses|;
    var init, c := courses[..n - 1], courses[n - 1];
    forall i | 0 <= i < |init| ensures init[i].courseId != c.courseId {
      assert init[i] == courses[i];
    }
    CountAbsent(init, c.courseId);
    TaskListsCountSnoc(courses, c.courseId);
  }

  /** A course id that no course has gets no tasks. */
  lemma {:induction false} CountAbsent(courses: seq<Course>, courseId: nat)
    requires forall i :: 0 <= i < |courses| ==> courses[i].courseId != courseId
    ensures CountTasks(LabTasks(courses), courseId) + CountTasks(LectureTasks(courses), courseId) == 0
  {
    if courses != [] {
      var n := |courses|;
      CountAbsent(courses[..n - 1], courseId);
      TaskListsCountSnoc(courses, courseId);
    }
  }

  // ---------------------------------------------------------------------------
  // Rooms and courses

  /** `SELECT * FROM classrooms WHERE is_lab = 1`. */
  function LabRooms(rooms: seq<Classroom>): (r: seq<Classroom>)
    ensures forall x :: x in r <==> x in rooms && x.isLab == 1
  {
    if rooms == [] then []
    else (if rooms[0].isLab == 1 then [rooms[0]] else []) + LabRooms(rooms[1..])
  }

  /** `SELECT * FROM classrooms WHERE is_lab=0`. */
  function TheoryRooms(rooms: seq<Classroom>): (r: seq<Classroom>)
    ensures forall x :: x in r <==> x in rooms && x.isLab == 0
  {
    if rooms == [] then []
    else (if rooms[0].isLab == 0 then [rooms[0]] else []) + TheoryRooms(rooms[1..])
  }

  /** The course a row refers to. */
  function CourseOf(courses: seq<Course>, courseId: nat): (r: Option<Course>)
    ensures r.Some? ==> r.value in courses && r.value.courseId == courseId
    ensures r.None? ==> forall c :: c in courses ==> c.courseId != courseId
  {
    if courses == [] then None
    else if courses[0].courseId == courseId then Some(courses[0])
    else CourseOf(courses[1..], courseId)
  }

  lemma CourseOfUnique(courses: seq<Course>, c: Course)
    requires UniqueCourseIds(courses) && c in courses
    ensures CourseOf(courses, c.courseId) == Some(c)
  {
    if courses[0] != c {
      assert c in courses[1..];
      assert UniqueCourseIds(courses[1..]);
      CourseOfUnique(courses[1..], c);
    }
  }

  predicate IsLabRow(r: Row, courses: seq<Course>) {
    var c := CourseOf(courses, r.courseId);
    c.Some? && c.value.isLab != 0
  }

  // ---------------------------------------------------------------------------
  // Sessions

  /** A session of `duration` slots from slot `i`: from the start of slot i to
      the end of slot i + duration - 1, across any gap in between. */
  function SessionPeriod(i: nat, duration: nat): (p: Period)
    requires 1 <= duration && i + duration <= |SlotTimes|
    ensures p.start < p.end
  {
    Period(SlotTimes[i].start, SlotTimes[i + duration - 1].end)
  }

  /** A lab at slot index 2 runs 11:00-13:30, across the 12:00-12:30 gap. */
  lemma LabAtThirdSlotSpansGap()
    ensures SessionPeriod(2, 2) == Period(660, 810)
  {
  }

  function SessionRow(id: nat, c: Course, day: Day, p: Period, room: Classroom): Row {
    Row(id, c.classId, day, p.start, p.end, c.courseId, c.teacherId, Some(room.classroomId))
  }

  /** `schedule_session`: rejects a session running past the last slot, otherwise
      inserts it exactly when the three queries find it free. */
  method ScheduleSession(store: SlotTable, course: Course, day: Day, startSlot: nat, duration: nat,
                         room: Classroom) returns (ok: bool)
    requires store.Valid() && 1 <= duration
    modifies store
    ensures store.Valid()
    ensures ok <==> startSlot + duration <= |SlotTimes| &&
                    Free(old(store.rows), None,
                         SessionRow(old(store.nextId), course, day, SessionPeriod(startSlot, duration), room))
    ensures ok ==> store.nextId == old(store.nextId) + 1 &&
                   store.rows == old(store.rows) +
                     [SessionRow(old(store.nextId), course, day, SessionPeriod(startSlot, duration), room)]
    ensures !ok ==> store.rows == old(store.rows) && store.nextId == old(store.nextId)
    ensures NoClash(old(store.rows)) ==> NoClash(store.rows)
  {
    if startSlot + duration > |SlotTimes| {
      return false;
    }
    var p := SessionPeriod(startSlot, duration);
    var candidate := SessionRow(store.nextId, course, day, p, room);
    if Free(store.rows, None, candidate) {
      if NoClash(store.rows) {
        AppendFreeKeepsNoClash(store.rows, candidate);
      }
      var id := store.Insert(course.classId, day, p.start, p.end, course.courseId, course.teacherId,
                             Some(room.classroomId));
      return true;
    }
    return false;
  }

  // ---------------------------------------------------------------------------
  // Preference order

  /** Slot indices 0-2 lie before the lunch gap. */
  predicate MorningSlot(i: nat) {
    i <= 2
  }

  /** The elements of `s` that are (or are not) morning slots, in order. */
  function Select(s: seq<nat>, morning: bool): (r: seq<nat>)
    ensures |r| <= |s| && forall k :: 0 <= k < |r| ==> MorningSlot(r[k]) == morning
  {
    if s == [] then []
    else (if MorningSlot(s[0]) == morning then [s[0]] else []) + Select(s[1..], morning)
  }

  /** `slots_to_try.sort(key=...)`: Python's sort is stable and False sorts
      before True, so the key `i > 2` puts morning slots first and the key
      `i <= 2` puts afternoon slots first, each group in shuffled order. */
  function PreferenceOrder(shuffled: seq<nat>, pref: Option<string>): seq<nat> {
    if pref == Some("morning") then Select(shuffled, true) + Select(shuffled, false)
    else if pref == Some("afternoon") then Select(shuffled, false) + Select(shuffled, true)
    else shuffled
  }

  lemma {:induction false} SelectSplitsMultiset(s: seq<nat>)
    ensures multiset(Select(s, true)) + multiset(Select(s, false)) == multiset(s)
  {
    if s != [] {
      var rest := s[1..];
      SelectSplitsMultiset(rest);
      assert s == [s[0]] + rest;
      if MorningSlot(s[0]) {
        assert Select(s, true) == [s[0]] + Select(rest, true);
        assert Select(s, false) == Select(rest, false);
      } else {
        assert Select(s, true) == Select(rest, true);
        assert Select(s, false) == [s[0]] + Select(rest, false);
      }
    }
  }

  lemma {:induction false} SelectAppend(a: seq<nat>, b: seq<nat>, morning: bool)
    ensures Select(a + b, morning) == Select(a, morning) + Select(b, morning)
  {
    if a != [] {
      assert (a + b)[0] == a[0];
      assert (a + b)[1..] == a[1..] + b;
      SelectAppend(a[1..], b, morning);
      if MorningSlot(a[0]) == morning {
        assert Select(a + b, morning) == [a[0]] + Select(a[1..] + b, morning);
        assert Select(a, morning) == [a[0]] + Select(a[1..], morning);
      } else {
        assert Select(a + b, morning) == Select(a[1..] + b, morning);
        assert Select(a, morning) == Select(a[1..], morning);
      }
    } else {
      assert a + b == b;
    }
  }

  lemma {:induction false} SelectSelect(s: seq<nat>, morning: bool, other: bool)
    ensures Select(Select(s, morning), other) == if morning == other then Select(s, morning) else []
  {
    if s != [] {
      SelectSelect(s[1..], morning, other);
      var head := if MorningSlot(s[0]) == morning then [s[0]] else [];
      SelectAppend(head, Select(s[1..], morning), other);
    }
  }

  /** The preference order tries every shuffled slot exactly once. */
  lemma PreferenceOrderIsPermutation(shuffled: seq<nat>, pref: Option<string>)
    ensures multiset(PreferenceOrder(shuffled, pref)) == multiset(shuffled)
  {
    SelectSplitsMultiset(shuffled);
  }

  /** Within each group the shuffled order is kept (the sort is stable). */
  lemma PreferenceOrderIsStable(shuffled: seq<nat>, pref: Option<string>, morning: bool)
    ensures Select(PreferenceOrder(shuffled, pref), morning) == Select(shuffled, morning)
  {
    if pref == Some("morning") || pref == Some("afternoon") {
      SelectAppend(Select(shuffled, true), Select(shuffled, false), morning);
      SelectAppend(Select(shuffled, false), Select(shuffled, true), morning);
      SelectSelect(shuffled, true, morning);
      SelectSelect(shuffled, false, morning);
    }
  }

  /** Every slot tried after ordering a shuffle is a grid slot. */
  lemma PreferenceOrderInRange(shuffled: seq<nat>, pref: Option<string>, q: int)
    requires IsSlotShuffle(shuffled) && 0 <= q < |PreferenceOrder(shuffled, pref)|
    ensures PreferenceOrder(shuffled, pref)[q] < |SlotTimes|
  {
    var x := PreferenceOrder(shuffled, pref)[q];
    PreferenceOrderIsPermutation(shuffled, pref);
    assert x in multiset(PreferenceOrder(shuffled, pref));
    assert x in multiset(SlotRange);
  }

  /** A `morning` teacher tries slots 0-2 before 3-6; an `afternoon` teacher
      tries 3-6 before 0-2. */
  lemma PreferenceOrderGroups(shuffled: seq<nat>, pref: Option<string>, a: int, b: int)
    requires 0 <= a < b < |PreferenceOrder(shuffled, pref)|
    ensures pref == Some("morning") ==>
      !(!MorningSlot(PreferenceOrder(shuffled, pref)[a]) && MorningSlot(PreferenceOrder(shuffled, pref)[b]))
    ensures pref == Some("afternoon") ==>
      !(MorningSlot(PreferenceOrder(shuffled, pref)[a]) && !MorningSlot(PreferenceOrder(shuffled, pref)[b]))
  {
    var r := PreferenceOrder(shuffled, pref);
    if pref == Some("morning") || pref == Some("afternoon") {
      var first := if pref == Some("morning") then Select(shuffled, true) else Select(shuffled, false);
      if a < |first| {
        assert r[a] == first[a];
      } else {
        assert r[a] == r[|first|..][a - |first|];
      }
      if b < |first| {
        assert r[b] == first[b];
      } else {
        assert r[b] == r[|first|..][b - |first|];
      }
    }
  }

  // ---------------------------------------------------------------------------
  // The gap after a lab

  /** The 2-hour rule: on the day of the teacher's remembered lab, a lecture
      starting less than 120 minutes after that lab ends is skipped. */
  predicate TooSoonAfterLab(lab: Option<LabTime>, day: Day, start: Minutes) {
    lab.Some? && lab.value.day == day && start - lab.value.endTime < 120
  }

  /** On the grid the rule skips, on the day of a lab placed at start slot i
      (remembered with the end of slot i + 1), exactly the slots before i + 4:
      a lab from 12:30 or later leaves no lecture slot on its day. */
  lemma LabBlocksSlotsBelow(day: Day, i: nat, s: nat)
    requires i + 2 <= |SlotTimes| && s < |SlotTimes|
    ensures TooSoonAfterLab(Some(LabTime(day, SlotTimes[i + 1].end)), day, SlotTimes[s].start) <==> s < i + 4
  {
  }

  function Lookup(m: map<nat, LabTime>, t: nat): Option<LabTime> {
    if t in m then Some(m[t]) else None
  }

  /** `teacher_lab_times` as built from the placed rows: each lab row, in
      insertion order, overwrites its teacher's entry. */
  function LabMemory(rows: seq<Row>, courses: seq<Course>): map<nat, LabTime> {
    if rows == [] then map[]
    else
      var m := LabMemory(rows[..|rows| - 1], courses);
      var r := rows[|rows| - 1];
      if IsLabRow(r, courses) then m[r.teacherId := LabTime(r.day, r.end)] else m
  }

  /** Row i is a lab row of teacher t. */
  predicate LabBy(rows: seq<Row>, i: int, courses: seq<Course>, t: nat)
    requires 0 <= i < |rows|
  {
    IsLabRow(rows[i], courses) && rows[i].teacherId == t
  }

  /** A teacher is remembered exactly when they have a lab row. */
  lemma {:induction false} LabMemoryHas(rows: seq<Row>, courses: seq<Course>, t: nat)
    ensures t in LabMemory(rows, courses) <==> exists i :: 0 <= i < |rows| && LabBy(rows, i, courses, t)
  {
    if rows != [] {
      var n := |rows|;
      var init := rows[..n - 1];
      LabMemoryHas(init, courses, t);
      if !LabBy(rows, n - 1, courses, t) {
        assert t in LabMemory(rows, courses) <==> t in LabMemory(init, courses);
        if exists i :: 0 <= i < |init| && LabBy(init, i, courses, t) {
          var i :| 0 <= i < |init| && LabBy(init, i, courses, t);
          assert LabBy(rows, i, courses, t);
        }
        if exists i :: 0 <= i < n && LabBy(rows, i, courses, t) {
          var i :| 0 <= i < n && LabBy(rows, i, courses, t);
          assert LabBy(init, i, courses, t);
        }
      }
    }
  }

  /** Only the most recently placed lab of a teacher is remembered. */
  lemma {:induction false} LabMemoryIsLastLab(rows: seq<Row>, courses: seq<Course>, t: nat)
    requires t in LabMemory(rows, courses)
    ensures exists i :: 0 <= i < |rows| && LabBy(rows, i, courses, t) &&
                        LabMemory(rows, courses)[t] == LabTime(rows[i].day, rows[i].end) &&
                        forall j :: i < j < |rows| ==> !LabBy(rows, j, courses, t)
  {
    var n := |rows|;
    var init := rows[..n - 1];
    if LabBy(rows, n - 1, courses, t) {
      assert LabMemory(rows, courses)[t] == LabTime(rows[n - 1].day, rows[n - 1].end);
    } else {
      assert LabMemory(rows, courses)[t] == LabMemory(init, courses)[t];
      LabMemoryIsLastLab(init, courses, t);
      var i :| 0 <= i < |init| && LabBy(init, i, courses, t) &&
        LabMemory(init, courses)[t] == LabTime(init[i].day, init[i].end) &&
        forall j :: i < j < |init| ==> !LabBy(init, j, courses, t);
      assert LabBy(rows, i, courses, t);
      forall j | i < j < n ensures !LabBy(rows, j, courses, t) {
        if j < n - 1 {
          assert !LabBy(init, j, courses, t);
        }
      }
    }
  }

  lemma LabMemoryAppend(rows: seq<Row>, r: Row, courses: seq<Course>)
    ensures LabMemory(rows + [r], courses) ==
      if IsLabRow(r, courses) then LabMemory(rows, courses)[r.teacherId := LabTime(r.day, r.end)]
      else LabMemory(rows, courses)
  {
    assert (rows + [r])[..|rows|] == rows;
  }

  // ---------------------------------------------------------------------------
  // What a generated row looks like

  /** The row covers exactly `n` consecutive grid slots starting at slot `i`. */
  predicate SpansSlots(r: Row, i: nat, n: nat)
    requires 1 <= n && i + n <= |SlotTimes|
  {
    r.start == SlotTimes[i].start && r.end == SlotTimes[i + n - 1].end
  }

  /** A generated row belongs to a course of the snapshot, with its class and
      teacher; a lab row is a two-slot block in an `is_lab = 1` room, a lecture
      row a single slot in an `is_lab = 0` room. */
  ghost predicate Placed(r: Row, courses: seq<Course>, rooms: seq<Classroom>) {
    match CourseOf(courses, r.courseId)
    case None => false
    case Some(c) =>
      && r.classId == c.classId && r.teacherId == c.teacherId && r.classroomId.Some?
      && if c.isLab != 0 then
           (exists i: nat :: i + 2 <= |SlotTimes| && SpansSlots(r, i, 2)) &&
           Classroom(r.classroomId.value, 1) in rooms
         else
           (exists i: nat :: i + 1 <= |SlotTimes| && SpansSlots(r, i, 1)) &&
           Classroom(r.classroomId.value, 0) in rooms
  }

  /** No lecture row breaks the 2-hour rule against its teacher's remembered lab. */
  ghost predicate LectureGapKept(rows: seq<Row>, courses: seq<Course>) {
    forall i :: 0 <= i < |rows| && !IsLabRow(rows[i], courses) ==>
      !TooSoonAfterLab(Lookup(LabMemory(rows, courses), rows[i].teacherId), rows[i].day, rows[i].start)
  }

  /** A session placed for a course of the snapshot, in a room of the kind
      its course needs and as many slots long, has the shape `Placed` asks for. */
  lemma {:induction false} SessionPlaced(c: Course, courses: seq<Course>, rooms: seq<Classroom>, id: nat,
                                         day: Day, i: nat, n: nat, room: Classroom)
    requires UniqueCourseIds(courses) && c in courses
    requires n == (if c.isLab != 0 then 2 else 1) && i + n <= |SlotTimes|
    requires room in rooms && room.isLab == (if c.isLab != 0 then 1 else 0)
    ensures Placed(SessionRow(id, c, day, SessionPeriod(i, n), room), courses, rooms)
    ensures IsLabRow(SessionRow(id, c, day, SessionPeriod(i, n), room), courses) == (c.isLab != 0)
  {
    CourseOfUnique(courses, c);
    var row := SessionRow(id, c, day, SessionPeriod(i, n), room);
    assert SpansSlots(row, i, n);
    assert room == Classroom(row.classroomId.value, room.isLab);
  }

  lemma CountTasksSnoc(tasks: seq<Course>, c: Course, courseId: nat)
    ensures CountTasks(tasks + [c], courseId) == CountTasks(tasks, courseId) + (if c.courseId == courseId then 1 else 0)
  {
    assert (tasks + [c])[..|tasks|] == tasks;
  }

  /** One more task and at most one more row of its course keep every
      course's rows within its tasks. */
  lemma {:induction false} CountAfterTask(before: seq<Row>, after: seq<Row>, fixed: seq<Course>,
                                          done: seq<Course>, c: Course)
    requires forall cid :: CountRows(before, cid) <= CountTasks(fixed, cid) + CountTasks(done, cid)
    requires after == before || exists r :: after == before + [r] && r.courseId == c.courseId
    ensures forall cid :: CountRows(after, cid) <= CountTasks(fixed, cid) + CountTasks(done + [c], cid)
  {
    forall cid ensures CountRows(after, cid) <= CountTasks(fixed, cid) + CountTasks(done + [c], cid) {
      CountTasksSnoc(done, c, cid);
      if after != before {
        var r :| after == before + [r] && r.courseId == c.courseId;
        CountRowsAppend(before, r, cid);
      }
    }
  }

  /** A lecture placed outside its teacher's remembered lab window keeps the
      2-hour rule for every lecture row. */
  lemma {:induction false} GapKeptAfterLecture(before: seq<Row>, row: Row, courses: seq<Course>)
    requires LectureGapKept(before, courses) && !IsLabRow(row, courses)
    requires !TooSoonAfterLab(Lookup(LabMemory(before, courses), row.teacherId), row.day, row.start)
    ensures LectureGapKept(before + [row], courses)
  {
    var after := before + [row];
    LabMemoryAppend(before, row, courses);
    forall j | 0 <= j < |after| && !IsLabRow(after[j], courses)
      ensures !TooSoonAfterLab(Lookup(LabMemory(after, courses), after[j].teacherId), after[j].day, after[j].start)
    {
      if j < |before| {
        assert after[j] == before[j];
      }
    }
  }

  // ---------------------------------------------------------------------------
  // The first accepted try

  /** One try of the placement loops: a day and a slot index. */
  datatype Choice = Choice(day: Day, slot: nat)

  /** The first slot of `slots` that `ok` accepts on `day`. */
  function FirstSlot(ok: (Day, nat) -> bool, day: Day, slots: seq<nat>): (r: Option<nat>)
    ensures r.Some? ==> ok(day, r.value) && r.value in slots
  {
    if slots == [] then None
    else if ok(day, slots[0]) then Some(slots[0])
    else FirstSlot(ok, day, slots[1..])
  }

  /** The first try `ok` accepts, day by day in the order of `days` and, on each
      day, slot by slot in the order `order` gives for that day. */
  function FirstChoice(ok: (Day, nat) -> bool, order: Day -> seq<nat>, days: seq<Day>): (r: Option<Choice>)
    ensures r.Some? ==> ok(r.value.day, r.value.slot) && r.value.day in days && r.value.slot in order(r.value.day)
  {
    if days == [] then None
    else
      var s := FirstSlot(ok, days[0], order(days[0]));
      if s.Some? then Some(Choice(days[0], s.value)) else FirstChoice(ok, order, days[1..])
  }

  /** No slot is found exactly when every slot of the list is refused, and a
      slot that is found comes after refused slots only. */
  lemma {:induction false} FirstSlotSpec(ok: (Day, nat) -> bool, day: Day, slots: seq<nat>)
    ensures FirstSlot(ok, day, slots).None? <==> forall j :: 0 <= j < |slots| ==> !ok(day, slots[j])
    ensures FirstSlot(ok, day, slots).Some? ==>
      exists j :: 0 <= j < |slots| && slots[j] == FirstSlot(ok, day, slots).value &&
        forall j' :: 0 <= j' < j ==> !ok(day, slots[j'])
  {
    if slots != [] {
      var rest := slots[1..];
      FirstSlotSpec(ok, day, rest);
      if ok(day, slots[0]) {
        assert slots[0] == FirstSlot(ok, day, slots).value;
      } else if FirstSlot(ok, day, rest).Some? {
        var j :| 0 <= j < |rest| && rest[j] == FirstSlot(ok, day, rest).value &&
          forall j' :: 0 <= j' < j ==> !ok(day, rest[j']);
        assert slots[j + 1] == rest[j];
        forall j' | 0 <= j' < j + 1 ensures !ok(day, slots[j']) {
          if j' > 0 {
            assert slots[j'] == rest[j' - 1];
          }
        }
      } else {
        forall j | 0 <= j < |slots| ensures !ok(day, slots[j]) {
          if j > 0 {
            assert slots[j] == rest[j - 1];
          }
        }
      }
    }
  }

  /** No try is found exactly when every slot of every day is refused; a try
      that is found is on a day before which every slot was refused, at the
      first slot that day accepts. */
  lemma {:induction false} FirstChoiceSpec(ok: (Day, nat) -> bool, order: Day -> seq<nat>, days: seq<Day>)
    ensures FirstChoice(ok, order, days).None? <==>
      forall p, j :: 0 <= p < |days| && 0 <= j < |order(days[p])| ==> !ok(days[p], order(days[p])[j])
    ensures FirstChoice(ok, order, days).Some? ==>
      exists p :: 0 <= p < |days| && days[p] == FirstChoice(ok, order, days).value.day &&
        FirstSlot(ok, days[p], order(days[p])) == Some(FirstChoice(ok, order, days).value.slot) &&
        forall p', j :: 0 <= p' < p && 0 <= j < |order(days[p'])| ==> !ok(days[p'], order(days[p'])[j])
  {
    if days != [] {
      var rest := days[1..];
      FirstSlotSpec(ok, days[0], order(days[0]));
      FirstChoiceSpec(ok, order, rest);
      if FirstSlot(ok, days[0], order(days[0])).None? {
        if FirstChoice(ok, order, rest).Some? {
          var p :| 0 <= p < |rest| && rest[p] == FirstChoice(ok, order, rest).value.day &&
            FirstSlot(ok, rest[p], order(rest[p])) == Some(FirstChoice(ok, order, rest).value.slot) &&
            forall p', j :: 0 <= p' < p && 0 <= j < |order(rest[p'])| ==> !ok(rest[p'], order(rest[p'])[j]);
          assert days[p + 1] == rest[p];
          forall p', j | 0 <= p' < p + 1 && 0 <= j < |order(days[p'])| ensures !ok(days[p'], order(days[p'])[j]) {
            if p' > 0 {
              assert days[p'] == rest[p' - 1];
            }
          }
        } else {
          forall p, j | 0 <= p < |days| && 0 <= j < |order(days[p])| ensures !ok(days[p], order(days[p])[j]) {
            if p > 0 {
              assert days[p] == rest[p - 1];
            }
          }
        }
      }
    }
  }

  // ---------------------------------------------------------------------------
  // One task, one phase, the whole generation, as values

  /** The table the phases thread: its rows and the next AUTOINCREMENT id. */
  datatype Table = Table(rows: seq<Row>, nextId: nat)

  /** `random.choice(lab_rooms)` for lab task k at (day, i). */
  function LabRoomAt(rooms: seq<Classroom>, draws: Draws, k: nat, day: Day, i: nat): Classroom
    requires LabRooms(rooms) != []
  {
    LabRooms(rooms)[draws.labRoom(k, day, i) % |LabRooms(rooms)|]
  }

  /** `random.choice(theory_rooms)` for lecture task k at (day, i). */
  function TheoryRoomAt(rooms: seq<Classroom>, draws: Draws, k: nat, day: Day, i: nat): Classroom
    requires TheoryRooms(rooms) != []
  {
    TheoryRooms(rooms)[draws.lectureRoom(k, day, i) % |TheoryRooms(rooms)|]
  }

  /** The lab loop tries the same starts on every day. */
  function LabStartsOf(day: Day): seq<nat> {
    LabStarts
  }

  /** Lab task k succeeds at (day, i) in table `t` when the two-slot block stays
      on the grid and the three queries find it free in the drawn lab room. */
  function LabOk(t: Table, rooms: seq<Classroom>, lab: Course, k: nat, draws: Draws): (Day, nat) -> bool {
    (d: Day, i: nat) =>
      LabRooms(rooms) != [] && i + 2 <= |SlotTimes| &&
      Free(t.rows, None, SessionRow(t.nextId, lab, d, SessionPeriod(i, 2), LabRoomAt(rooms, draws, k, d, i)))
  }

  /** Lecture task k succeeds at (day, i) in table `t` when the slot is not too
      soon after the teacher's lab, there is a theory room, and the three
      queries find the slot free in the drawn theory room. */
  function LectureOk(t: Table, rooms: seq<Classroom>, lecture: Course, k: nat, labInfo: Option<LabTime>,
                     draws: Draws): (Day, nat) -> bool {
    (d: Day, i: nat) =>
      i < |SlotTimes| && !TooSoonAfterLab(labInfo, d, SlotTimes[i].start) && TheoryRooms(rooms) != [] &&
      Free(t.rows, None, SessionRow(t.nextId, lecture, d, SessionPeriod(i, 1), TheoryRoomAt(rooms, draws, k, d, i)))
  }

  /** The slots lecture task k tries on each day: the shuffle, in preference order. */
  function LectureOrder(draws: Draws, k: nat, pref: Option<string>): Day -> seq<nat> {
    d => PreferenceOrder(draws.lectureSlots(k, d), pref)
  }

  /** `teacher_prefs.get(teacher_id)`. */
  function TeacherPref(prefs: map<nat, string>, t: nat): Option<string> {
    if t in prefs then Some(prefs[t]) else None
  }

  /** Lab task k against table `t`: a two-slot row at its first successful try,
      or `t` unchanged when every try fails. */
  function LabStep(t: Table, rooms: seq<Classroom>, lab: Course, k: nat, draws: Draws): Table {
    var c := FirstChoice(LabOk(t, rooms, lab, k, draws), LabStartsOf, draws.labDays(k));
    if c.None? then t
    else
      var room := LabRoomAt(rooms, draws, k, c.value.day, c.value.slot);
      Table(t.rows + [SessionRow(t.nextId, lab, c.value.day, SessionPeriod(c.value.slot, 2), room)], t.nextId + 1)
  }

  /** The lab tasks placed one after the other, task k with draws k. */
  function LabPhase(t: Table, rooms: seq<Classroom>, labs: seq<Course>, draws: Draws): Table {
    if labs == [] then t
    else LabStep(LabPhase(t, rooms, labs[..|labs| - 1], draws), rooms, labs[|labs| - 1], |labs| - 1, draws)
  }

  /** Lecture task k against table `t`: a one-slot row at its first successful
      try, or `t` unchanged when every try fails. */
  function LectureStep(t: Table, rooms: seq<Classroom>, lecture: Course, k: nat, pref: Option<string>,
                       labInfo: Option<LabTime>, draws: Draws): Table {
    var c := FirstChoice(LectureOk(t, rooms, lecture, k, labInfo, draws), LectureOrder(draws, k, pref), draws.lectureDays(k));
    if c.None? then t
    else
      var room := TheoryRoomAt(rooms, draws, k, c.value.day, c.value.slot);
      Table(t.rows + [SessionRow(t.nextId, lecture, c.value.day, SessionPeriod(c.value.slot, 1), room)], t.nextId + 1)
  }

  /** The lecture tasks placed one after the other, task k with draws k, its
      teacher's preference and its teacher's remembered lab. */
  function LecturePhase(t: Table, rooms: seq<Classroom>, prefs: map<nat, string>, labTimes: map<nat, LabTime>,
                        lectures: seq<Course>, draws: Draws): Table {
    if lectures == [] then t
    else
      var n := |lectures| - 1;
      var teacher := lectures[n].teacherId;
      LectureStep(LecturePhase(t, rooms, prefs, labTimes, lectures[..n], draws), rooms, lectures[n], n,
                  TeacherPref(prefs, teacher), Lookup(labTimes, teacher), draws)
  }

  /** The table `generate_timetable` leaves: from an empty table, the lab phase,
      then the lecture phase with the lab memory of the lab phase. */
  function Generate(nextId: nat, courses: seq<Course>, rooms: seq<Classroom>, prefs: map<nat, string>,
                    draws: Draws): Table {
    var labbed := LabPhase(Table([], nextId), rooms, LabTasks(courses), draws);
    LecturePhase(labbed, rooms, prefs, LabMemory(labbed.rows, courses), LectureTasks(courses), draws)
  }

  /** A lab task adds no row exactly when every start of every drawn day is
      refused, and otherwise adds one row, at its first successful try. */
  lemma LabStepSpec(t: Table, rooms: seq<Classroom>, lab: Course, k: nat, draws: Draws)
    ensures var ok, days := LabOk(t, rooms, lab, k, draws), draws.labDays(k);
      && (LabStep(t, rooms, lab, k, draws) == t <==>
            forall p, j :: 0 <= p < |days| && 0 <= j < |LabStarts| ==> !ok(days[p], LabStarts[j]))
      && (LabStep(t, rooms, lab, k, draws) != t ==>
            var c := FirstChoice(ok, LabStartsOf, days).value;
            LabStep(t, rooms, lab, k, draws).rows ==
              t.rows + [SessionRow(t.nextId, lab, c.day, SessionPeriod(c.slot, 2), LabRoomAt(rooms, draws, k, c.day, c.slot))])
  {
    var ok, days := LabOk(t, rooms, lab, k, draws), draws.labDays(k);
    FirstChoiceSpec(ok, LabStartsOf, days);
    if FirstChoice(ok, LabStartsOf, days).Some? {
      var c := FirstChoice(ok, LabStartsOf, days).value;
      assert |LabStep(t, rooms, lab, k, draws).rows| == |t.rows| + 1;
      var p :| 0 <= p < |days| && days[p] == c.day;
      var j :| 0 <= j < |LabStarts| && LabStarts[j] == c.slot;
      assert ok(days[p], LabStarts[j]);
    } else {
      forall p, j | 0 <= p < |days| && 0 <= j < |LabStarts| ensures !ok(days[p], LabStarts[j]) {
        assert LabStartsOf(days[p]) == LabStarts;
      }
    }
  }

  /** A lecture task adds no row exactly when every slot of every drawn day is
      refused, and otherwise adds one row, at its first successful try. */
  lemma LectureStepSpec(t: Table, rooms: seq<Classroom>, lecture: Course, k: nat, pref: Option<string>,
                        labInfo: Option<LabTime>, draws: Draws)
    ensures var ok := LectureOk(t, rooms, lecture, k, labInfo, draws);
            var order, days := LectureOrder(draws, k, pref), draws.lectureDays(k);
      && (LectureStep(t, rooms, lecture, k, pref, labInfo, draws) == t <==>
            forall p, j :: 0 <= p < |days| && 0 <= j < |order(days[p])| ==> !ok(days[p], order(days[p])[j]))
      && (LectureStep(t, rooms, lecture, k, pref, labInfo, draws) != t ==>
            var c := FirstChoice(ok, order, days).value;
            LectureStep(t, rooms, lecture, k, pref, labInfo, draws).rows ==
              t.rows + [SessionRow(t.nextId, lecture, c.day, SessionPeriod(c.slot, 1), TheoryRoomAt(rooms, draws, k, c.day, c.slot))])
  {
    var ok := LectureOk(t, rooms, lecture, k, labInfo, draws);
    var order, days := LectureOrder(draws, k, pref), draws.lectureDays(k);
    FirstChoiceSpec(ok, order, days);
    if FirstChoice(ok, order, days).Some? {
      assert |LectureStep(t, rooms, lecture, k, pref, labInfo, draws).rows| == |t.rows| + 1;
    }
  }

  /** One more lab task: the phase of the longer list is one step further. */
  lemma LabPhaseSnoc(t: Table, rooms: seq<Classroom>, labs: seq<Course>, k: nat, draws: Draws)
    requires k < |labs|
    ensures LabPhase(t, rooms, labs[..k + 1], draws) == LabStep(LabPhase(t, rooms, labs[..k], draws), rooms, labs[k], k, draws)
  {
    assert labs[..k + 1][..k] == labs[..k];
  }

  /** One more lecture task: the phase of the longer list is one step further. */
  lemma LecturePhaseSnoc(t: Table, rooms: seq<Classroom>, prefs: map<nat, string>, labTimes: map<nat, LabTime>,
                         lectures: seq<Course>, k: nat, draws: Draws)
    requires k < |lectures|
    ensures var teacher := lectures[k].teacherId;
      LecturePhase(t, rooms, prefs, labTimes, lectures[..k + 1], draws) ==
      LectureStep(LecturePhase(t, rooms, prefs, labTimes, lectures[..k], draws), rooms, lectures[k], k,
                  TeacherPref(prefs, teacher), Lookup(labTimes, teacher), draws)
  {
    assert lectures[..k + 1][..k] == lectures[..k];
  }

  // ---------------------------------------------------------------------------
  // generate_timetable

  /** Places the lab tasks: for each, the days in drawn order and slot starts
      0..5, a random lab room each time, the first free two-slot block wins and
      overwrites the teacher's `teacher_lab_times` entry. */
  method PlaceLabs(store: SlotTable, courses: seq<Course>, rooms: seq<Classroom>, labs: seq<Course>,
                   draws: Draws) returns (labTimes: map<nat, LabTime>)
    requires store.Valid() && store.rows == [] && NoClash(store.rows)
    requires UniqueCourseIds(courses)
    requires forall x :: x in labs ==> x in courses && x.isLab != 0
    requires labs != [] ==> LabRooms(rooms) != []
    modifies store
    ensures store.Valid() && store.nextId >= old(store.nextId)
    ensures Table(store.rows, store.nextId) == LabPhase(Table(old(store.rows), old(store.nextId)), rooms, labs, draws)
    ensures NoClash(store.rows)
    ensures forall r :: r in store.rows ==> Placed(r, courses, rooms) && IsLabRow(r, courses)
    ensures forall cid :: CountRows(store.rows, cid) <= CountTasks(labs, cid)
    ensures labTimes == LabMemory(store.rows, courses)
  {
    labTimes := map[];
    ghost var start := Table(store.rows, store.nextId);
    for k := 0 to |labs|
      invariant store.Valid() && store.nextId >= old(store.nextId)
      invariant Table(store.rows, store.nextId) == LabPhase(start, rooms, labs[..k], draws)
      invariant NoClash(store.rows)
      invariant forall r :: r in store.rows ==> Placed(r, courses, rooms) && IsLabRow(r, courses)
      invariant forall cid :: CountRows(store.rows, cid) <= CountTasks([], cid) + CountTasks(labs[..k], cid)
      invariant labTimes == LabMemory(store.rows, courses)
    {
      var lab := labs[k];
      assert lab in courses;
      assert labs[..k + 1] == labs[..k] + [lab];
      LabPhaseSnoc(start, rooms, labs, k, draws);
      ghost var before := store.rows;
      ghost var id := store.nextId;
      var placed, day, i, room := PlaceLab(store, rooms, lab, k, draws);
      if placed {
        var row := SessionRow(id, lab, day, SessionPeriod(i, 2), room);
        SessionPlaced(lab, courses, rooms, id, day, i, 2, room);
        LabMemoryAppend(before, row, courses);
        labTimes := labTimes[lab.teacherId := LabTime(day, SlotTimes[i + 1].end)];
      }
      CountAfterTask(before, store.rows, [], labs[..k], lab);
    }
    assert labs[..|labs|] == labs;
  }

  /** One lab task: the days in drawn order and slot starts 0..5, a random lab
      room each time; the first try that `schedule_session` accepts wins. */
  method PlaceLab(store: SlotTable, rooms: seq<Classroom>, lab: Course, k: nat, draws: Draws)
    returns (placed: bool, day: Day, i: nat, room: Classroom)
    requires store.Valid() && LabRooms(rooms) != []
    modifies store
    ensures store.Valid()
    ensures var c := FirstChoice(LabOk(Table(old(store.rows), old(store.nextId)), rooms, lab, k, draws),
                                 LabStartsOf, draws.labDays(k));
      && (placed <==> c.Some?)
      && (placed ==> c == Some(Choice(day, i)) && room == LabRoomAt(rooms, draws, k, day, i))
    ensures Table(store.rows, store.nextId) == LabStep(Table(old(store.rows), old(store.nextId)), rooms, lab, k, draws)
    ensures NoClash(old(store.rows)) ==> NoClash(store.rows)
    ensures placed ==>
      && day in draws.labDays(k) && i + 2 <= |SlotTimes| && room in rooms && room.isLab == 1
      && store.rows == old(store.rows) + [SessionRow(old(store.nextId), lab, day, SessionPeriod(i, 2), room)]
  {
    placed, day, i, room := false, MON, 0, Classroom(0, 1);
    ghost var ok := LabOk(Table(store.rows, store.nextId), rooms, lab, k, draws);
    var labRooms := LabRooms(rooms);
    var days := draws.labDays(k);
    for p := 0 to |days|
      invariant store.Valid() && store.nextId == old(store.nextId)
      invariant !placed && store.rows == old(store.rows)
      invariant FirstChoice(ok, LabStartsOf, days) == FirstChoice(ok, LabStartsOf, days[p..])
    {
      day := days[p];
      assert days[p..][0] == day && days[p..][1..] == days[p + 1..];
      for s := 0 to |SlotTimes| - 1
        invariant store.Valid() && store.nextId == old(store.nextId)
        invariant !placed && store.rows == old(store.rows)
        invariant FirstSlot(ok, day, LabStarts) == FirstSlot(ok, day, LabStarts[s..])
      {
        i := s;
        assert LabStarts[s..][0] == i && LabStarts[s..][1..] == LabStarts[s + 1..];
        room := labRooms[draws.labRoom(k, day, i) % |labRooms|];
        placed := ScheduleSession(store, lab, day, i, 2, room);
        if placed {
          return;
        }
      }
    }
  }

  /** `generate_timetable`: empties the table, expands the courses, places the
      labs, then the lectures. The table it leaves is `Generate` of the inputs;
      no teacher, classroom or class is double-booked, every row has the shape
      its course asks for, no course has more rows than tasks, and no lecture
      breaks the 2-hour rule. */
  method GenerateTimetable(store: SlotTable, courses: seq<Course>, rooms: seq<Classroom>,
                           prefs: map<nat, string>, draws: Draws)
    requires store.Valid()
    requires UniqueCourseIds(courses)
    requires LabTasks(courses) != [] ==> LabRooms(rooms) != []
    requires SlotShuffles(draws)
    modifies store
    ensures store.Valid() && store.nextId >= old(store.nextId)
    ensures Table(store.rows, store.nextId) == Generate(old(store.nextId), courses, rooms, prefs, draws)
    ensures NoClash(store.rows)
    ensures forall r :: r in store.rows ==> Placed(r, courses, rooms)
    ensures forall c :: c in courses ==> CountRows(store.rows, c.courseId) <= TaskCount(c)
    ensures LectureGapKept(store.rows, courses)
  {
    store.Clear();
    var labs, lectures := ExpandTasks(courses);
    TaskListsFromCourses(courses);
    var labTimes := PlaceLabs(store, courses, rooms, labs, draws);
    PlaceLectures(store, courses, rooms, prefs, labs, lectures, labTimes, draws);
    forall c | c in courses ensures CountRows(store.rows, c.courseId) <= TaskCount(c) {
      TaskListsCount(courses, c);
    }
  }

  /** One lecture task: the days in drawn order and, on each, the shuffled slots
      in preference order; the first try that succeeds wins. The new table is
      `LectureStep` of the old one, whose reading as "the first successful try,
      or no row when every try fails" is `LectureStepSpec`. */
  method PlaceLecture(store: SlotTable, rooms: seq<Classroom>, lecture: Course, k: nat,
                      pref: Option<string>, labInfo: Option<LabTime>, draws: Draws)
    returns (placed: bool, day: Day, i: nat, room: Classroom)
    requires store.Valid()
    requires SlotShuffles(draws)
    modifies store
    ensures store.Valid()
    ensures Table(store.rows, store.nextId) ==
            LectureStep(Table(old(store.rows), old(store.nextId)), rooms, lecture, k, pref, labInfo, draws)
    ensures NoClash(old(store.rows)) ==> NoClash(store.rows)
    ensures !placed ==> store.rows == old(store.rows) && store.nextId == old(store.nextId)
    ensures placed ==>
      && i < |SlotTimes| && room in rooms && room.isLab == 0
      && !TooSoonAfterLab(labInfo, day, SlotTimes[i].start)
      && store.nextId == old(store.nextId) + 1
      && store.rows == old(store.rows) + [SessionRow(old(store.nextId), lecture, day, SessionPeriod(i, 1), room)]
  {
    placed, day, i, room := false, MON, 0, Classroom(0, 0);
    ghost var ok := LectureOk(Table(store.rows, store.nextId), rooms, lecture, k, labInfo, draws);
    ghost var order := LectureOrder(draws, k, pref);
    var days := draws.lectureDays(k);
    for p := 0 to |days|
      invariant store.Valid() && store.nextId == old(store.nextId)
      invariant !placed && store.rows == old(store.rows)
      invariant FirstChoice(ok, order, days) == FirstChoice(ok, order, days[p..])
    {
      day := days[p];
      assert days[p..][0] == day && days[p..][1..] == days[p + 1..];
      var shuffled := draws.lectureSlots(k, day);
      var slots := PreferenceOrder(shuffled, pref);
      assert slots == order(day);
      forall q | 0 <= q < |slots| ensures slots[q] < |SlotTimes| {
        PreferenceOrderInRange(shuffled, pref, q);
      }
      placed, i, room := PlaceOnDay(store, rooms, lecture, k, day, slots, labInfo, draws);
      if placed {
        return;
      }
    }
  }

  /** The slots of one day, in the order given: slots too soon after the
      teacher's lab are skipped, and the first slot found free in a random
      theory room wins. */
  method PlaceOnDay(store: SlotTable, rooms: seq<Classroom>, lecture: Course, k: nat, day: Day,
                    slots: seq<nat>, labInfo: Option<LabTime>, draws: Draws)
    returns (placed: bool, i: nat, room: Classroom)
    requires store.Valid()
    requires forall q :: 0 <= q < |slots| ==> slots[q] < |SlotTimes|
    modifies store
    ensures store.Valid()
    ensures var s := FirstSlot(LectureOk(Table(old(store.rows), old(store.nextId)), rooms, lecture, k, labInfo, draws),
                               day, slots);
      && (placed <==> s.Some?)
      && (placed ==> s == Some(i) && TheoryRooms(rooms) != [] && room == TheoryRoomAt(rooms, draws, k, day, i))
    ensures NoClash(old(store.rows)) ==> NoClash(store.rows)
    ensures !placed ==> store.rows == old(store.rows) && store.nextId == old(store.nextId)
    ensures placed ==>
      && i in slots && i < |SlotTimes| && room in rooms && room.isLab == 0
      && !TooSoonAfterLab(labInfo, day, SlotTimes[i].start)
      && store.nextId == old(store.nextId) + 1
      && store.rows == old(store.rows) + [SessionRow(old(store.nextId), lecture, day, SessionPeriod(i, 1), room)]
  {
    placed, i, room := false, 0, Classroom(0, 0);
    ghost var ok := LectureOk(Table(store.rows, store.nextId), rooms, lecture, k, labInfo, draws);
    var theoryRooms := TheoryRooms(rooms);
    for q := 0 to |slots|
      invariant store.Valid() && store.nextId == old(store.nextId)
      invariant !placed && store.rows == old(store.rows)
      invariant FirstSlot(ok, day, slots) == FirstSlot(ok, day, slots[q..])
    {
      i := slots[q];
      assert slots[q..][0] == i && slots[q..][1..] == slots[q + 1..];
      if TooSoonAfterLab(labInfo, day, SlotTimes[i].start) || theoryRooms == [] {
        continue;
      }
      room := theoryRooms[draws.lectureRoom(k, day, i) % |theoryRooms|];
      placed := ScheduleSession(store, lecture, day, i, 1, room);
      if placed {
        return;
      }
    }
  }

  /** The lecture phase: each lecture task is placed at most once, with the lab
      memory of the lab phase, which no lecture row changes. */
  method PlaceLectures(store: SlotTable, courses: seq<Course>, rooms: seq<Classroom>,
                       prefs: map<nat, string>, labs: seq<Course>, lectures: seq<Course>,
                       labTimes: map<nat, LabTime>, draws: Draws)
    requires store.Valid() && NoClash(store.rows)
    requires UniqueCourseIds(courses)
    requires forall x :: x in lectures ==> x in courses && x.isLab == 0
    requires SlotShuffles(draws)
    requires forall r :: r in store.rows ==> Placed(r, courses, rooms) && IsLabRow(r, courses)
    requires forall cid :: CountRows(store.rows, cid) <= CountTasks(labs, cid)
    requires labTimes == LabMemory(store.rows, courses)
    modifies store
    ensures store.Valid() && store.nextId >= old(store.nextId)
    ensures Table(store.rows, store.nextId) ==
            LecturePhase(Table(old(store.rows), old(store.nextId)), rooms, prefs, labTimes, lectures, draws)
    ensures NoClash(store.rows)
    ensures forall r :: r in store.rows ==> Placed(r, courses, rooms)
    ensures forall cid :: CountRows(store.rows, cid) <= CountTasks(labs, cid) + CountTasks(lectures, cid)
    ensures LectureGapKept(store.rows, courses)
  {
    ghost var start := Table(store.rows, store.nextId);
    for k := 0 to |lectures|
      invariant store.Valid() && store.nextId >= old(store.nextId)
      invariant Table(store.rows, store.nextId) == LecturePhase(start, rooms, prefs, labTimes, lectures[..k], draws)
      invariant NoClash(store.rows)
      invariant forall r :: r in store.rows ==> Placed(r, courses, rooms)
      invariant forall cid :: CountRows(store.rows, cid) <= CountTasks(labs, cid) + CountTasks(lectures[..k], cid)
      invariant labTimes == LabMemory(store.rows, courses)
      invariant LectureGapKept(store.rows, courses)
    {
      var lecture := lectures[k];
      assert lecture in courses;
      assert lectures[..k + 1] == lectures[..k] + [lecture];
      LecturePhaseSnoc(start, rooms, prefs, labTimes, lectures, k, draws);
      ghost var before := store.rows;
      ghost var id := store.nextId;
      var teacherId := lecture.teacherId;
      var pref := TeacherPref(prefs, teacherId);
      var placed, day, i, room := PlaceLecture(store, rooms, lecture, k, pref, Lookup(labTimes, teacherId), draws);
      if placed {
        var row := SessionRow(id, lecture, day, SessionPeriod(i, 1), room);
        SessionPlaced(lecture, courses, rooms, id, day, i, 1, room);
        LabMemoryAppend(before, row, courses);
        GapKeptAfterLecture(before, row, courses);
      }
      CountAfterTask(before, store.rows, labs, lectures[..k], lecture);
    }
    assert lectures[..|lectures|] == lectures;
  }
}
