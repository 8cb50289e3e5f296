/** The `timetable_slots` table of the current revision (app.py): its rows, the
    three clash queries run against it, the no-double-booking invariant, and the
    table itself as an object whose DELETE / UPDATE / INSERT statements change it
    in place. */
module CurrentStore {
  import opened Common

  /** One row of `timetable_slots`. `classroomId` may be NULL: a manual edit
      can store a row without a classroom. */
  datatype Row = Row(
    slotId: nat, classId: nat, day: Day, start: Minutes, end: Minutes,
    courseId: nat, teacherId: nat, classroomId: Option<nat>)

  /** The columns the clash queries filter on. */
  datatype Column = TeacherCol | ClassroomCol | ClassCol

  /** `col = ?` for a stored row. */
  predicate Hits(r: Row, col: Column, value: Option<nat>) {
    match col
    case TeacherCol => SqlEq(Some(r.teacherId), value)
    case ClassroomCol => SqlEq(r.classroomId, value)
    case ClassCol => SqlEq(Some(r.classId), value)
  }

  /** `AND slot_id != ?`, appended only when the slot id is truthy. */
  predicate Excluded(r: Row, exclude: Option<nat>) {
    Truthy(exclude) && r.slotId == exclude.value
  }

  /** Some row (other than the excluded one) on `day`, overlapping [start, end),
      has `value` in `col`: the query returns a row. */
  predicate Busy(rows: seq<Row>, exclude: Option<nat>, day: Day, start: Minutes, end: Minutes,
                 col: Column, value: Option<nat>)
  {
    exists i :: 0 <= i < |rows| && !Excluded(rows[i], exclude) && rows[i].day == day &&
                Overlaps(rows[i].start, rows[i].end, start, end) && Hits(rows[i], col, value)
  }

  /** Two rows double-book a teacher, a classroom or a class. */
  predicate Clash(a: Row, b: Row) {
    a.day == b.day && Overlaps(a.start, a.end, b.start, b.end) &&
    (a.teacherId == b.teacherId || SqlEq(a.classroomId, b.classroomId) || a.classId == b.classId)
  }

  /** The committed-store invariant: no two rows clash. */
  ghost predicate NoClash(rows: seq<Row>) {
    forall i, j :: 0 <= i < j < |rows| ==> !Clash(rows[i], rows[j])
  }

  /** None of the three queries finds `r`'s teacher, classroom or class busy. */
  predicate Free(rows: seq<Row>, exclude: Option<nat>, r: Row) {
    && !Busy(rows, exclude, r.day, r.start, r.end, TeacherCol, Some(r.teacherId))
    && !Busy(rows, exclude, r.day, r.start, r.end, ClassroomCol, r.classroomId)
    && !Busy(rows, exclude, r.day, r.start, r.end, ClassCol, Some(r.classId))
  }

  /** A row that passed the three queries clashes with no row they looked at. */
  lemma FreeMeansNoClash(rows: seq<Row>, exclude: Option<nat>, r: Row, i: int)
    requires Free(rows, exclude, r)
    requires 0 <= i < |rows| && !Excluded(rows[i], exclude)
    ensures !Clash(rows[i], r) && !Clash(r, rows[i])
  {
    var x := rows[i];
    assert !(x.day == r.day && Overlaps(x.start, x.end, r.start, r.end) && Hits(x, TeacherCol, Some(r.teacherId)));
    assert !(x.day == r.day && Overlaps(x.start, x.end, r.start, r.end) && Hits(x, ClassroomCol, r.classroomId));
    assert !(x.day == r.day && Overlaps(x.start, x.end, r.start, r.end) && Hits(x, ClassCol, Some(r.classId)));
  }

  /** Appending a row the queries found free keeps the store clash-free. */
  lemma {:induction false} AppendFreeKeepsNoClash(rows: seq<Row>, r: Row)
    requires NoClash(rows) && Free(rows, None, r)
    ensures NoClash(rows + [r])
  {
    var rows' := rows + [r];
    forall i, j | 0 <= i < j < |rows'| ensures !Clash(rows'[i], rows'[j]) {
      if j == |rows| {
        FreeMeansNoClash(rows, None, r, i);
      }
    }
  }

  /** Rows with slot id `id` removed (`DELETE ... WHERE slot_id = ?`). */
  function Without(rows: seq<Row>, id: nat): (r: seq<Row>)
    ensures |r| <= |rows|
    ensures forall x :: x in r <==> x in rows && x.slotId != id
  {
    if rows == [] then []
    else if rows[0].slotId == id then Without(rows[1..], id)
    else [rows[0]] + Without(rows[1..], id)
  }

  /** Rows with the row `id` moved (`UPDATE ... WHERE slot_id = ?`); the class
      column is not among the updated ones. */
  function Moved(r: Row, day: Day, start: Minutes, end: Minutes,
                 teacherId: nat, classroomId: Option<nat>, courseId: nat): Row
  {
    r.(day := day, start := start, end := end, teacherId := teacherId,
       classroomId := classroomId, courseId := courseId)
  }

  function UpdateRows(rows: seq<Row>, id: nat, day: Day, start: Minutes, end: Minutes,
                      teacherId: nat, classroomId: Option<nat>, courseId: nat): (r: seq<Row>)
    ensures |r| == |rows|
    ensures forall i :: 0 <= i < |rows| ==>
      r[i] == if rows[i].slotId == id then Moved(rows[i], day, start, end, teacherId, classroomId, courseId)
              else rows[i]
  {
    seq(|rows|, i requires 0 <= i < |rows| =>
      if rows[i].slotId == id then Moved(rows[i], day, start, end, teacherId, classroomId, courseId)
      else rows[i])
  }

  ghost predicate DistinctIds(rows: seq<Row>) {
    forall i, j :: 0 <= i < j < |rows| ==> rows[i].slotId != rows[j].slotId
  }

  ghost predicate IdsValid(rows: seq<Row>, nextId: nat) {
    && (forall x :: x in rows ==> 1 <= x.slotId < nextId)
    && DistinctIds(rows)
  }

  /** Deleting rows keeps the store clash-free. */
  lemma {:induction false} WithoutKeepsNoClash(rows: seq<Row>, id: nat)
    requires NoClash(rows)
    ensures NoClash(Without(rows, id))
  {
    if rows != [] {
      WithoutKeepsNoClash(rows[1..], id);
      var tail := Without(rows[1..], id);
      if rows[0].slotId != id {
        var r := [rows[0]] + tail;
        forall i, j | 0 <= i < j < |r| ensures !Clash(r[i], r[j]) {
          if i == 0 {
            assert r[j] in rows[1..];
            var k :| 0 <= k < |rows[1..]| && rows[1..][k] == r[j];
            assert rows[k + 1] == r[j];
          } else {
            assert r[i] == tail[i - 1] && r[j] == tail[j - 1];
          }
        }
      }
    }
  }

  lemma {:induction false} WithoutKeepsDistinct(rows: seq<Row>, id: nat)
    requires DistinctIds(rows)
    ensures DistinctIds(Without(rows, id))
  {
    if rows != [] {
      WithoutKeepsDistinct(rows[1..], id);
      var tail := Without(rows[1..], id);
      if rows[0].slotId != id {
        var r := [rows[0]] + tail;
        forall i, j | 0 <= i < j < |r| ensures r[i].slotId != r[j].slotId {
          if i == 0 {
            assert r[j] in rows[1..];
            var k :| 0 <= k < |rows[1..]| && rows[1..][k] == r[j];
            assert rows[k + 1] == r[j];
          } else {
            assert r[i] == tail[i - 1] && r[j] == tail[j - 1];
          }
        }
      }
    }
  }

  /** The `timetable_slots` table. `nextId` is SQLite's AUTOINCREMENT counter:
      ids are never reused, even after a DELETE. */
  class SlotTable {
    var rows: seq<Row>
    var nextId: nat

    ghost predicate Valid()
      reads this
    {
      1 <= nextId && IdsValid(rows, nextId)
    }

    constructor ()
      ensures Valid() && rows == [] && nextId == 1
    {
      rows := [];
      nextId := 1;
    }

    /** `DELETE FROM timetable_slots`. */
    method Clear()
      requires Valid()
      modifies this
      ensures Valid() && rows == [] && nextId == old(nextId)
    {
      rows := [];
    }

    /** `INSERT INTO timetable_slots ...`: the new row gets the next id. */
    method Insert(classId: nat, day: Day, start: Minutes, end: Minutes,
                  courseId: nat, teacherId: nat, classroomId: Option<nat>) returns (id: nat)
      requires Valid()
      modifies this
      ensures Valid()
      ensures id == old(nextId) && nextId == old(nextId) + 1
      ensures rows == old(rows) + [Row(id, classId, day, start, end, courseId, teacherId, classroomId)]
    {
      id := nextId;
      rows := rows + [Row(id, classId, day, start, end, courseId, teacherId, classroomId)];
      nextId := nextId + 1;
    }

    /** `DELETE FROM timetable_slots WHERE slot_id = ?`. */
    method Delete(id: nat)
      requires Valid()
      modifies this
      ensures Valid() && nextId == old(nextId)
      ensures rows == Without(old(rows), id)
    {
      WithoutKeepsDistinct(rows, id);
      rows := Without(rows, id);
    }

    /** `UPDATE timetable_slots SET day, time_start, time_end, teacher_id,
        classroom_id, course_id WHERE slot_id = ?`. */
    method Update(id: nat, day: Day, start: Minutes, end: Minutes,
                  teacherId: nat, classroomId: Option<nat>, courseId: nat)
      requires Valid()
      modifies this
      ensures Valid() && nextId == old(nextId)
      ensures rows == UpdateRows(old(rows), id, day, start, end, teacherId, classroomId, courseId)
    {
      rows := UpdateRows(rows, id, day, start, end, teacherId, classroomId, courseId);
    }
  }
}
