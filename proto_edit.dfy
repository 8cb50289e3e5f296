/** Manual edits in the earlier prototype (smart_timetable_app.py):
    `validate_change`, a chain of four checks (teacher clash, classroom clash,
    weekly limit, lab length), and `api_edit_slot`, which applies an edit the
    chain accepts. */
module ProtoEdit {
  import opened Common
  import opened ProtoStore

  /** A row of `subjects`. */
  datatype Subject = Subject(subjectId: nat, weekly: int, isLab: int, duration: int)

  /** The payload built from the form; an empty id field is None. */
  datatype EditRequest = EditRequest(
    slotId: Option<nat>, day: Day, start: Minutes, end: Minutes,
    teacherId: Option<nat>, classroomId: Option<nat>, subjectId: Option<nat>, classYear: string)

  /** The `(ok, message)` pair, one constructor per message. */
  datatype Verdict = Accepted | TeacherTaken | ClassroomTaken | WeeklyLimitReached | LabTooShort

  /** `SELECT ... FROM subjects WHERE subject_id=?`, first match; a NULL id matches nothing. */
  function FindSubject(subjects: seq<Subject>, id: Option<nat>): (r: Option<Subject>)
    ensures r.Some? ==> r.value in subjects && id == Some(r.value.subjectId)
    ensures r.None? ==> forall s :: s in subjects ==> !SqlEq(Some(s.subjectId), id)
  {
    if subjects == [] then None
    else if SqlEq(Some(subjects[0].subjectId), id) then Some(subjects[0])
    else FindSubject(subjects[1..], id)
  }

  /** `SELECT COUNT(*) ... WHERE subject_id=? AND class_year=?`. No row is
      excluded: the row being edited is counted too. */
  function CountSubject(rows: seq<Slot>, subjectId: Option<nat>, classYear: string): (n: nat)
    ensures n <= |rows|
  {
    if rows == [] then 0
    else CountSubject(rows[..|rows| - 1], subjectId, classYear) +
         (if SqlEq(rows[|rows| - 1].subjectId, subjectId) && rows[|rows| - 1].classYear == classYear then 1 else 0)
  }

  /** `(tend - tstart).seconds / 3600 < duration`: `timedelta.seconds` is the
      difference reduced modulo one day, so a reversed interval wraps round
      midnight. Minutes here; `% 1440` is Python's (non-negative) modulo. */
  predicate TooShort(start: Minutes, end: Minutes, duration: int) {
    (end - start) % 1440 < duration * 60
  }

  /** `validate_change`: the first failing check decides. The weekly-limit and
      lab-length checks run only when the subject exists. */
  function ValidateChange(rows: seq<Slot>, subjects: seq<Subject>, req: EditRequest): Verdict {
    if Busy(rows, req.slotId, req.day, req.start, req.end, TeacherCol, req.teacherId) then TeacherTaken
    else if Busy(rows, req.slotId, req.day, req.start, req.end, RoomCol, req.classroomId) then ClassroomTaken
    else match FindSubject(subjects, req.subjectId)
      case None => Accepted
      case Some(subj) =>
        if CountSubject(rows, req.subjectId, req.classYear) >= subj.weekly then WeeklyLimitReached
        else if subj.isLab != 0 && subj.duration > 1 && TooShort(req.start, req.end, subj.duration) then LabTooShort
        else Accepted
  }

  /** The stored form of the request. */
  function RequestSlot(req: EditRequest): Slot {
    Slot(0, req.day, req.start, req.end, req.teacherId, req.subjectId, req.classroomId, req.classYear)
  }

  /** Without a known subject only the two clash checks can refuse. */
  lemma UnknownSubjectOnlyClashes(rows: seq<Slot>, subjects: seq<Subject>, req: EditRequest)
    requires FindSubject(subjects, req.subjectId).None?
    ensures ValidateChange(rows, subjects, req) == Accepted <==> Free(rows, req.slotId, RequestSlot(req))
  {
  }

  /** Accepted means the teacher and the classroom are free, the class has room
      under the weekly count, and a lab interval is long enough. */
  lemma AcceptedMeans(rows: seq<Slot>, subjects: seq<Subject>, req: EditRequest)
    requires ValidateChange(rows, subjects, req) == Accepted
    ensures Free(rows, req.slotId, RequestSlot(req))
    ensures FindSubject(subjects, req.subjectId).Some? ==>
      var s := FindSubject(subjects, req.subjectId).value;
      CountSubject(rows, req.subjectId, req.classYear) < s.weekly &&
      !(s.isLab != 0 && s.duration > 1 && TooShort(req.start, req.end, s.duration))
  {
  }

  /** The clash checks skip the row being moved; the count does not. */
  lemma {:induction false} ClashChecksIgnoreOwnRow(rows: seq<Slot>, k: nat, day: Day, start: Minutes, end: Minutes,
                                                  col: Column, value: Option<nat>)
    ensures Busy(rows, Some(k), day, start, end, col, value) <==> Busy(Without(rows, k), None, day, start, end, col, value)
  {
    var rest := Without(rows, k);
    if Busy(rows, Some(k), day, start, end, col, value) {
      var i :| 0 <= i < |rows| && !Excluded(rows[i], Some(k)) && rows[i].day == day &&
               Overlaps(rows[i].start, rows[i].end, start, end) && Hits(rows[i], col, value);
      assert rows[i] in rest;
      var j :| 0 <= j < |rest| && rest[j] == rows[i];
      assert !Excluded(rest[j], None);
    }
    if Busy(rest, None, day, start, end, col, value) {
      var j :| 0 <= j < |rest| && !Excluded(rest[j], None) && rest[j].day == day &&
               Overlaps(rest[j].start, rest[j].end, start, end) && Hits(rest[j], col, value);
      assert rest[j] in rows;
      var i :| 0 <= i < |rows| && rows[i] == rest[j];
      assert !Excluded(rows[i], Some(k));
    }
  }

  /** Because the count includes the row being edited, a subject already at its
      weekly count cannot even be moved: slot 1 is the only TE lecture of a
      once-a-week subject, and moving it to TUESDAY is refused. */
  lemma WeeklyLimitBlocksMoves()
    ensures var rows := [Slot(1, MON, 540, 600, Some(1), Some(1), Some(1), "TE")];
            var subjects := [Subject(1, 1, 0, 1)];
            ValidateChange(rows, subjects, EditRequest(Some(1), TUE, 540, 600, Some(1), Some(1), Some(1), "TE"))
              == WeeklyLimitReached
  {
    var rows := [Slot(1, MON, 540, 600, Some(1), Some(1), Some(1), "TE")];
    assert CountSubject(rows, Some(1), "TE") == 1 by {
      assert rows[..0] == [];
    }
  }

  /** For a forward interval shorter than a day the lab check is exactly
      "shorter than `duration` hours". */
  lemma TooShortForward(start: Minutes, end: Minutes, duration: int)
    requires start <= end < start + 1440
    ensures TooShort(start, end, duration) <==> end - start < duration * 60
  {
  }

  /** A reversed interval wraps round midnight: it passes exactly when its
      wrapped length reaches the lab's hours. 10:00 to 09:00 counts as 23
      hours and passes; 23:00 to 00:30 counts as 90 minutes and fails a
      two-hour lab. */
  lemma ReversedIntervalPasses(start: Minutes, end: Minutes, duration: int)
    requires 0 <= end < start < 1440
    ensures !TooShort(start, end, duration) <==> end - start + 1440 >= duration * 60
  {
    var wrapped := end - start + 1440;
    assert 0 <= wrapped < 1440 && end - start == wrapped - 1440;
    assert (end - start) % 1440 == wrapped;
  }

  /** An accepted edit keeps the store free of teacher and classroom clashes:
      the new or moved row passed both queries against every other row. */
  lemma {:induction false} AcceptedInsertKeepsNoClash(rows: seq<Slot>, subjects: seq<Subject>, req: EditRequest, id: nat)
    requires NoClash(rows) && req.slotId.None?
    requires ValidateChange(rows, subjects, req) == Accepted
    ensures NoClash(rows + [RequestSlot(req).(slotId := id)])
  {
    AcceptedMeans(rows, subjects, req);
    AppendFreeKeepsNoClash(rows, RequestSlot(req).(slotId := id));
  }

  lemma {:induction false} AcceptedMoveKeepsNoClash(rows: seq<Slot>, subjects: seq<Subject>, req: EditRequest)
    requires NoClash(rows) && DistinctIds(rows) && req.slotId.Some?
    requires ValidateChange(rows, subjects, req) == Accepted
    ensures NoClash(UpdateRows(rows, req.slotId.value, RequestSlot(req)))
  {
    AcceptedMeans(rows, subjects, req);
    var k := req.slotId.value;
    var rows' := UpdateRows(rows, k, RequestSlot(req));
    forall i, j | 0 <= i < j < |rows'| ensures !Clash(rows'[i], rows'[j]) {
      if rows[i].slotId == k {
        FreeMeansNoClash(rows, req.slotId, RequestSlot(req), j);
      } else if rows[j].slotId == k {
        FreeMeansNoClash(rows, req.slotId, RequestSlot(req), i);
      }
    }
  }

  /** `api_edit_slot`: an edit the chain refuses changes nothing; an accepted
      one rewrites row `slotId` with every column of the request, or adds
      exactly one row when no slot id was sent. */
  method ApiEditSlot(store: SlotTable, subjects: seq<Subject>, req: EditRequest) returns (ok: bool)
    requires store.Valid()
    modifies store
    ensures store.Valid()
    ensures ok <==> ValidateChange(old(store.rows), subjects, req) == Accepted
    ensures !ok ==> store.rows == old(store.rows) && store.nextId == old(store.nextId)
    ensures ok && req.slotId.Some? ==> store.rows == UpdateRows(old(store.rows), req.slotId.value, RequestSlot(req))
    ensures ok && req.slotId.None? ==> store.rows == old(store.rows) + [RequestSlot(req).(slotId := old(store.nextId))]
    ensures NoClash(old(store.rows)) ==> NoClash(store.rows)
  {
    if ValidateChange(store.rows, subjects, req) != Accepted {
      return false;
    }
    if req.slotId.Some? {
      if NoClash(store.rows) {
        AcceptedMoveKeepsNoClash(store.rows, subjects, req);
      }
      store.Update(req.slotId.value, RequestSlot(req));
    } else {
      if NoClash(store.rows) {
        AcceptedInsertKeepsNoClash(store.rows, subjects, req, store.nextId);
      }
      var id := store.Insert(RequestSlot(req));
    }
    return true;
  }
}
