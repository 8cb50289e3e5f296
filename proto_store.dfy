/** The `timetable_slots` table of the earlier prototype (smart_timetable_app.py).
    Rows name a teacher, a subject, a classroom and a class year; the clash
    queries of this revision look at teacher and classroom only. */
module ProtoStore {
  import opened Common

  /** One row of `timetable_slots`. Every id column is nullable, and a manual
      edit may store NULL in any of them. */
  datatype Slot = Slot(
    slotId: nat, day: Day, start: Minutes, end: Minutes,
    teacherId: Option<nat>, subjectId: Option<nat>, classroomId: Option<nat>, classYear: string)

  datatype Column = TeacherCol | RoomCol

  predicate Hits(r: Slot, col: Column, value: Option<nat>) {
    match col
    case TeacherCol => SqlEq(r.teacherId, value)
    case RoomCol => SqlEq(r.classroomId, value)
  }

  /** `AND slot_id!=?`, appended when the request carries a non-empty slot id. */
  predicate Excluded(r: Slot, exclude: Option<nat>) {
    exclude.Some? && r.slotId == exclude.value
  }

  /** `teacher_busy` / `room_busy`, and the two clash queries of `validate_change`. */
  predicate Busy(rows: seq<Slot>, exclude: Option<nat>, day: Day, start: Minutes, end: Minutes,
                 col: Column, value: Option<nat>)
  {
    exists i :: 0 <= i < |rows| && !Excluded(rows[i], exclude) && rows[i].day == day &&
                Overlaps(rows[i].start, rows[i].end, start, end) && Hits(rows[i], col, value)
  }

  /** Two rows double-book a teacher or a classroom. A shared class year is
      not a clash in this revision. */
  predicate Clash(a: Slot, b: Slot) {
    a.day == b.day && Overlaps(a.start, a.end, b.start, b.end) &&
    (SqlEq(a.teacherId, b.teacherId) || SqlEq(a.classroomId, b.classroomId))
  }

  ghost predicate NoClash(rows: seq<Slot>) {
    forall i, j :: 0 <= i < j < |rows| ==> !Clash(rows[i], rows[j])
  }

  predicate Free(rows: seq<Slot>, exclude: Option<nat>, r: Slot) {
    && !Busy(rows, exclude, r.day, r.start, r.end, TeacherCol, r.teacherId)
    && !Busy(rows, exclude, r.day, r.start, r.end, RoomCol, r.classroomId)
  }

  lemma FreeMeansNoClash(rows: seq<Slot>, exclude: Option<nat>, r: Slot, i: int)
    requires Free(rows, exclude, r)
    requires 0 <= i < |rows| && !Excluded(rows[i], exclude)
    ensures !Clash(rows[i], r) && !Clash(r, rows[i])
  {
    var x := rows[i];
    assert !(x.day == r.day && Overlaps(x.start, x.end, r.start, r.end) && Hits(x, TeacherCol, r.teacherId));
    assert !(x.day == r.day && Overlaps(x.start, x.end, r.start, r.end) && Hits(x, RoomCol, r.classroomId));
  }

  /** Appending a row both queries found free keeps the store clash-free. */
  lemma {:induction false} AppendFreeKeepsNoClash(rows: seq<Slot>, r: Slot)
    requires NoClash(rows) && Free(rows, None, r)
    ensures NoClash(rows + [r])
  {
    var rows' := rows + [r];
    forall i, j | 0 <= i < j < |rows'| ensures !Clash(rows'[i], rows'[j]) {
      if j == |rows| {
        FreeMeansNoClash(rows, None, r, i);
      }
    }
  }

  /** The rows with slot id `id` removed. */
  function Without(rows: seq<Slot>, id: nat): (r: seq<Slot>)
    ensures forall x :: x in r <==> x in rows && x.slotId != id
  {
    if rows == [] then []
    else if rows[0].slotId == id then Without(rows[1..], id)
    else [rows[0]] + Without(rows[1..], id)
  }

  /** `UPDATE timetable_slots SET day, time_start, time_end, teacher_id,
      subject_id, classroom_id, class_year WHERE slot_id = ?`: every column but
      the id is rewritten. */
  function UpdateRows(rows: seq<Slot>, id: nat, r: Slot): (u: seq<Slot>)
    ensures |u| == |rows|
    ensures forall i :: 0 <= i < |rows| ==> u[i] == if rows[i].slotId == id then r.(slotId := id) else rows[i]
  {
    seq(|rows|, i requires 0 <= i < |rows| => if rows[i].slotId == id then r.(slotId := id) else rows[i])
  }

  ghost predicate DistinctIds(rows: seq<Slot>) {
    forall i, j :: 0 <= i < j < |rows| ==> rows[i].slotId != rows[j].slotId
  }

  ghost predicate IdsValid(rows: seq<Slot>, nextId: nat) {
    && (forall x :: x in rows ==> 1 <= x.slotId < nextId)
    && DistinctIds(rows)
  }

  /** The prototype's `timetable_slots` table; `nextId` is the AUTOINCREMENT counter. */
  class SlotTable {
    var rows: seq<Slot>
    var nextId: nat

    ghost predicate Valid()
      reads this
    {
      1 <= nextId && IdsValid(rows, nextId)
    }

    constructor ()
      ensures Valid() && rows == [] && nextId == 1
    {
      rows := [];
      nextId := 1;
    }

    /** `clear_timetable`: `DELETE FROM timetable_slots`. */
    method Clear()
      requires Valid()
      modifies this
      ensures Valid() && rows == [] && nextId == old(nextId)
    {
      rows := [];
    }

    /** `INSERT INTO timetable_slots ...`: row `r` is stored under the next id. */
    method Insert(r: Slot) returns (id: nat)
      requires Valid()
      modifies this
      ensures Valid()
      ensures id == old(nextId) && nextId == old(nextId) + 1
      ensures rows == old(rows) + [r.(slotId := id)]
    {
      id := nextId;
      rows := rows + [r.(slotId := id)];
      nextId := nextId + 1;
    }

    /** `UPDATE ... WHERE slot_id = ?`: the row `id`, if any, takes `r`'s columns. */
    method Update(id: nat, r: Slot)
      requires Valid()
      modifies this
      ensures Valid() && nextId == old(nextId)
      ensures rows == UpdateRows(old(rows), id, r)
    {
      rows := UpdateRows(rows, id, r);
    }
  }
}
