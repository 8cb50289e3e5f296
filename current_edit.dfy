/** Manual edits in the current revision (app.py): `validate_change`, the
    read-only clash check, and `api_update`, which clears, moves or adds one
    row of the table. */
module CurrentEdit {
  import opened Common
  import opened CurrentStore
  import opened CurrentGenerate

  /** The `(ok, message)` pair of `validate_change`, one constructor per message. */
  datatype Verdict = Accepted | TeacherTaken | ClassroomTaken | ClassTaken

  /** `validate_change`: the teacher query, then the classroom query, then the
      class query, each skipping row `slotId` when it is truthy; the first that
      finds a row decides. */
  function ValidateChange(rows: seq<Row>, slotId: Option<nat>, day: Day, start: Minutes, end: Minutes,
                          teacherId: Option<nat>, classroomId: Option<nat>, classId: Option<nat>): Verdict
  {
    if Busy(rows, slotId, day, start, end, TeacherCol, teacherId) then TeacherTaken
    else if Busy(rows, slotId, day, start, end, ClassroomCol, classroomId) then ClassroomTaken
    else if Busy(rows, slotId, day, start, end, ClassCol, classId) then ClassTaken
    else Accepted
  }

  /** Skipping a row is the same as querying the table without it. */
  lemma BusyWithout(rows: seq<Row>, k: nat, day: Day, start: Minutes, end: Minutes,
                    col: Column, value: Option<nat>)
    requires k != 0
    ensures Busy(rows, Some(k), day, start, end, col, value) <==>
            Busy(Without(rows, k), None, day, start, end, col, value)
  {
    var rest := Without(rows, k);
    if Busy(rows, Some(k), day, start, end, col, value) {
      var i :| 0 <= i < |rows| && !Excluded(rows[i], Some(k)) && rows[i].day == day &&
               Overlaps(rows[i].start, rows[i].end, start, end) && Hits(rows[i], col, value);
      assert rows[i] in rest;
      var j :| 0 <= j < |rest| && rest[j] == rows[i];
      assert !Excluded(rest[j], None);
    }
    if Busy(rest, None, day, start, end, col, value) {
      var j :| 0 <= j < |rest| && !Excluded(rest[j], None) && rest[j].day == day &&
               Overlaps(rest[j].start, rest[j].end, start, end) && Hits(rest[j], col, value);
      assert rest[j] in rows;
      var i :| 0 <= i < |rows| && rows[i] == rest[j];
      assert !Excluded(rows[i], Some(k));
    }
  }

  /** Moving a slot never clashes with the slot itself: the check behaves as
      if that row were not in the table. */
  lemma ValidateIgnoresOwnRow(rows: seq<Row>, k: nat, day: Day, start: Minutes, end: Minutes,
                              teacherId: Option<nat>, classroomId: Option<nat>, classId: Option<nat>)
    requires k != 0
    ensures ValidateChange(rows, Some(k), day, start, end, teacherId, classroomId, classId) ==
            ValidateChange(Without(rows, k), None, day, start, end, teacherId, classroomId, classId)
  {
    BusyWithout(rows, k, day, start, end, TeacherCol, teacherId);
    BusyWithout(rows, k, day, start, end, ClassroomCol, classroomId);
    BusyWithout(rows, k, day, start, end, ClassCol, classId);
  }

  /** A teacher busy 09:00-10:00 on MON cannot take 09:30-10:30 on MON. */
  lemma TeacherOverlapRejected(rows: seq<Row>)
    requires rows == [Row(1, 1, MON, 540, 600, 1, 7, Some(1))]
    ensures ValidateChange(rows, None, MON, 570, 630, Some(7), Some(2), Some(2)) == TeacherTaken
  {
    assert Hits(rows[0], TeacherCol, Some(7));
  }

  /** A session starting exactly when another ends is accepted. */
  lemma BackToBackAccepted(x: Row, start: Minutes, end: Minutes)
    requires x.start < x.end && start < end && (x.end == start || end == x.start)
    ensures ValidateChange([x], None, x.day, start, end, Some(x.teacherId), x.classroomId, Some(x.classId)) == Accepted
  {
  }

  /** An accepted insert keeps the store clash-free. */
  lemma {:induction false} AcceptedInsertKeepsNoClash(rows: seq<Row>, r: Row)
    requires NoClash(rows)
    requires ValidateChange(rows, None, r.day, r.start, r.end, Some(r.teacherId), r.classroomId, Some(r.classId)) == Accepted
    ensures NoClash(rows + [r])
  {
    assert Free(rows, None, r);
    AppendFreeKeepsNoClash(rows, r);
  }

  /** An accepted move keeps the store clash-free, provided the moved row
      already belongs to the class the check was made for (UPDATE leaves
      `class_id` as it was). */
  lemma {:induction false} AcceptedMoveKeepsNoClash(rows: seq<Row>, k: nat, day: Day, start: Minutes, end: Minutes,
                                                    teacherId: nat, classroomId: Option<nat>, classId: nat, courseId: nat)
    requires NoClash(rows) && DistinctIds(rows) && k != 0
    requires forall x :: x in rows && x.slotId == k ==> x.classId == classId
    requires ValidateChange(rows, Some(k), day, start, end, Some(teacherId), classroomId, Some(classId)) == Accepted
    ensures NoClash(UpdateRows(rows, k, day, start, end, teacherId, classroomId, courseId))
  {
    var rows' := UpdateRows(rows, k, day, start, end, teacherId, classroomId, courseId);
    forall i, j | 0 <= i < j < |rows'| ensures !Clash(rows'[i], rows'[j]) {
      if rows[i].slotId == k {
        var m := rows'[i];
        assert m == Moved(rows[i], day, start, end, teacherId, classroomId, courseId);
        assert Free(rows, Some(k), m);
        FreeMeansNoClash(rows, Some(k), m, j);
      } else if rows[j].slotId == k {
        var m := rows'[j];
        assert m == Moved(rows[j], day, start, end, teacherId, classroomId, courseId);
        assert Free(rows, Some(k), m);
        FreeMeansNoClash(rows, Some(k), m, i);
      }
    }
  }

  /** Without that proviso the invariant can break: row 2 of class 1 is
      checked as class 2, accepted, and moved onto row 1 of class 1. */
  lemma MoveAcrossClassesCanClash()
    ensures var rows := [Row(1, 1, MON, 540, 600, 1, 1, Some(1)), Row(2, 1, TUE, 540, 600, 2, 2, Some(2))];
            && NoClash(rows)
            && ValidateChange(rows, Some(2), MON, 540, 600, Some(2), Some(2), Some(2)) == Accepted
            && !NoClash(UpdateRows(rows, 2, MON, 540, 600, 2, Some(2), 3))
  {
    var rows := [Row(1, 1, MON, 540, 600, 1, 1, Some(1)), Row(2, 1, TUE, 540, 600, 2, 2, Some(2))];
    var rows' := UpdateRows(rows, 2, MON, 540, 600, 2, Some(2), 3);
    assert rows'[0] == rows[0];
    assert rows'[1] == Row(2, 1, MON, 540, 600, 3, 2, Some(2));
    assert Clash(rows'[0], rows'[1]);
  }

  // ---------------------------------------------------------------------------
  // api_update

  /** The JSON body of an update request; absent or null fields are None. */
  datatype UpdateRequest = UpdateRequest(
    slotId: Option<nat>, classId: Option<nat>, day: Day, start: Minutes, end: Minutes,
    teacherId: Option<nat>, subjectId: Option<nat>, classroomId: Option<nat>)

  /** The response of `api_update`, one constructor per message. */
  datatype UpdateOutcome = SlotCleared | InvalidRequest | NotAssigned | Rejected(reason: Verdict) | Saved

  /** Teacher, subject and classroom are all empty: a request to clear a slot. */
  predicate Blank(req: UpdateRequest) {
    !Truthy(req.teacherId) && !Truthy(req.subjectId) && !Truthy(req.classroomId)
  }

  predicate Teaches(c: Course, req: UpdateRequest) {
    SqlEq(Some(c.subjectId), req.subjectId) && SqlEq(Some(c.teacherId), req.teacherId) &&
    SqlEq(Some(c.classId), req.classId)
  }

  /** `SELECT course_id, is_lab FROM courses WHERE subject_id = ? AND
      teacher_id = ? AND class_id = ?`, first match. */
  function FindCourse(courses: seq<Course>, req: UpdateRequest): (r: Option<Course>)
    ensures r.Some? ==> r.value in courses && Teaches(r.value, req)
    ensures r.None? ==> forall c :: c in courses ==> !Teaches(c, req)
  {
    if courses == [] then None
    else if Teaches(courses[0], req) then Some(courses[0])
    else FindCourse(courses[1..], req)
  }

  function Check(rows: seq<Row>, req: UpdateRequest): Verdict {
    ValidateChange(rows, req.slotId, req.day, req.start, req.end, req.teacherId, req.classroomId, req.classId)
  }

  /** The row a move targets belongs to the class named in the request. */
  ghost predicate KeepsClass(rows: seq<Row>, req: UpdateRequest) {
    Truthy(req.slotId) ==>
      forall x :: x in rows && x.slotId == req.slotId.value ==> SqlEq(Some(x.classId), req.classId)
  }

  /** `api_update`. A blank request clears its slot (or is refused without
      one); otherwise the teacher must teach the subject to the class and the
      check must accept, and then exactly the row `slotId` is moved, or exactly
      one row is added. Every refusal leaves the table as it was. */
  method ApiUpdate(store: SlotTable, courses: seq<Course>, req: UpdateRequest) returns (out: UpdateOutcome)
    requires store.Valid()
    modifies store
    ensures store.Valid()
    ensures out == SlotCleared <==> Blank(req) && Truthy(req.slotId)
    ensures out == InvalidRequest <==> Blank(req) && !Truthy(req.slotId)
    ensures out == NotAssigned <==> !Blank(req) && FindCourse(courses, req).None?
    ensures out.Rejected? <==>
      !Blank(req) && FindCourse(courses, req).Some? && Check(old(store.rows), req) != Accepted
    ensures out.Rejected? ==> out.reason == Check(old(store.rows), req)
    ensures out == SlotCleared ==>
      store.rows == Without(old(store.rows), req.slotId.value) && store.nextId == old(store.nextId)
    ensures out == Saved && Truthy(req.slotId) ==>
      store.nextId == old(store.nextId) &&
      store.rows == UpdateRows(old(store.rows), req.slotId.value, req.day, req.start, req.end,
                               req.teacherId.value, req.classroomId, FindCourse(courses, req).value.courseId)
    ensures out == Saved && !Truthy(req.slotId) ==>
      store.nextId == old(store.nextId) + 1 &&
      store.rows == old(store.rows) + [Row(old(store.nextId), req.classId.value, req.day, req.start, req.end,
                                           FindCourse(courses, req).value.courseId, req.teacherId.value,
                                           req.classroomId)]
    ensures out != SlotCleared && out != Saved ==> store.rows == old(store.rows) && store.nextId == old(store.nextId)
    ensures NoClash(old(store.rows)) && KeepsClass(old(store.rows), req) ==> NoClash(store.rows)
  {
    if Blank(req) {
      if Truthy(req.slotId) {
        if NoClash(store.rows) {
          WithoutKeepsNoClash(store.rows, req.slotId.value);
        }
        store.Delete(req.slotId.value);
        return SlotCleared;
      }
      return InvalidRequest;
    }
    var course := FindCourse(courses, req);
    if course.None? {
      return NotAssigned;
    }
    var verdict := Check(store.rows, req);
    if verdict != Accepted {
      return Rejected(verdict);
    }
    var courseId := course.value.courseId;
    if Truthy(req.slotId) {
      if NoClash(store.rows) && KeepsClass(store.rows, req) {
        AcceptedMoveKeepsNoClash(store.rows, req.slotId.value, req.day, req.start, req.end,
                                 req.teacherId.value, req.classroomId, req.classId.value, courseId);
      }
      store.Update(req.slotId.value, req.day, req.start, req.end, req.teacherId.value, req.classroomId, courseId);
    } else {
      ghost var r := Row(store.nextId, req.classId.value, req.day, req.start, req.end, courseId,
                         req.teacherId.value, req.classroomId);
      if NoClash(store.rows) {
        assert ValidateChange(store.rows, None, r.day, r.start, r.end, Some(r.teacherId), r.classroomId,
                              Some(r.classId)) == Accepted by {
          assert forall x :: !Excluded(x, req.slotId) && !Excluded(x, None);
        }
        AcceptedInsertKeepsNoClash(store.rows, r);
      }
      var id := store.Insert(req.classId.value, req.day, req.start, req.end, courseId, req.teacherId.value,
                             req.classroomId);
    }
    return Saved;
  }
}
