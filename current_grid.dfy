/** The grid-fill loop of `api_get_timetable` (app.py): every stored row of a
    class is written into the day x slot grid, starting at the grid column whose
    start time equals the row's start and covering one column per whole hour. */
module CurrentGrid {
  import opened Common
  import opened CurrentStore

  /** Position of a day in DAYS. */
  function DayIndex(d: Day): (i: nat)
    ensures i < |Days| && Days[i] == d
  {
    match d
    case MON => 0
    case TUE => 1
    case WED => 2
    case THU => 3
    case FRI => 4
    case SAT => 5
  }

  function StartFrom(start: Minutes, i: nat): (r: Option<nat>)
    requires i <= |SlotTimes|
    ensures r.Some? ==> i <= r.value < |SlotTimes| && SlotTimes[r.value].start == start
    ensures r.None? ==> forall j :: i <= j < |SlotTimes| ==> SlotTimes[j].start != start
    decreases |SlotTimes| - i
  {
    if i == |SlotTimes| then None
    else if SlotTimes[i].start == start then Some(i)
    else StartFrom(start, i + 1)
  }

  /** `next(i for i, time in enumerate(SLOT_TIMES) if time[0] == time_start)`;
      None is the StopIteration raised when no column starts then. */
  function StartIndex(start: Minutes): (r: Option<nat>)
    ensures r.Some? ==> r.value < |SlotTimes| && SlotTimes[r.value].start == start
    ensures r.None? ==> forall j :: 0 <= j < |SlotTimes| ==> SlotTimes[j].start != start
  {
    StartFrom(start, 0)
  }

  /** `int(duration_minutes / 60)`: whole hours, truncated toward zero. */
  function DurationSlots(start: Minutes, end: Minutes): (n: int)
    ensures start <= end ==> 0 <= n && 60 * n <= end - start < 60 * (n + 1)
    ensures end < start ==> n <= 0
  {
    if start <= end then (end - start) / 60 else -((start - end) / 60)
  }

  /** Row `r` is written into column `j` of its day. */
  predicate Covers(r: Row, j: int) {
    StartIndex(r.start).Some? &&
    StartIndex(r.start).value <= j < StartIndex(r.start).value + DurationSlots(r.start, r.end)
  }

  /** The cell (d, j) after the loop: the last row of the result set written there. */
  function LastCover(slots: seq<Row>, d: Day, j: int): Option<Row> {
    if slots == [] then None
    else
      var last := slots[|slots| - 1];
      if last.day == d && Covers(last, j) then Some(last)
      else LastCover(slots[..|slots| - 1], d, j)
  }

  /** Row k of the result set is written into cell (d, j). */
  predicate WrittenAt(slots: seq<Row>, k: int, d: Day, j: int)
    requires 0 <= k < |slots|
  {
    slots[k].day == d && Covers(slots[k], j)
  }

  /** The cell holds a row written there after which no row is written there,
      and is empty exactly when no row is written there. */
  lemma {:induction false} LastCoverIsLast(slots: seq<Row>, d: Day, j: int)
    ensures LastCover(slots, d, j).Some? ==>
      exists k :: 0 <= k < |slots| && slots[k] == LastCover(slots, d, j).value && WrittenAt(slots, k, d, j) &&
                  forall k' :: k < k' < |slots| ==> !WrittenAt(slots, k', d, j)
    ensures LastCover(slots, d, j).None? ==> forall k :: 0 <= k < |slots| ==> !WrittenAt(slots, k, d, j)
  {
    if slots != [] {
      var n := |slots|;
      var init := slots[..n - 1];
      LastCoverIsLast(init, d, j);
      if WrittenAt(slots, n - 1, d, j) {
        assert LastCover(slots, d, j) == Some(slots[n - 1]);
      } else {
        assert LastCover(slots, d, j) == LastCover(init, d, j);
        if LastCover(init, d, j).Some? {
          var k :| 0 <= k < |init| && init[k] == LastCover(init, d, j).value && WrittenAt(init, k, d, j) &&
                   forall k' :: k < k' < |init| ==> !WrittenAt(init, k', d, j);
          forall k' | k < k' < n ensures !WrittenAt(slots, k', d, j) {
            if k' < n - 1 {
              assert !WrittenAt(init, k', d, j);
            }
          }
          assert WrittenAt(slots, k, d, j);
        } else {
          forall k | 0 <= k < n ensures !WrittenAt(slots, k, d, j) {
            if k < n - 1 {
              assert !WrittenAt(init, k, d, j);
            }
          }
        }
      }
    }
  }

  /** The rows of class `classId` that the JOIN keeps: a row whose classroom is
      NULL has no partner in `classrooms` and is dropped. */
  function ClassSlots(rows: seq<Row>, classId: nat): (r: seq<Row>)
    ensures forall x :: x in r <==> x in rows && x.classId == classId && x.classroomId.Some?
  {
    if rows == [] then []
    else if rows[0].classId == classId && rows[0].classroomId.Some? then [rows[0]] + ClassSlots(rows[1..], classId)
    else ClassSlots(rows[1..], classId)
  }

  /** The grid: DAYS x SLOT_TIMES, every cell empty. */
  function EmptyGrid(): (g: seq<seq<Option<Row>>>)
    ensures |g| == |Days| && forall d :: 0 <= d < |g| ==> g[d] == seq(|SlotTimes|, j => None)
  {
    seq(|Days|, d => seq(|SlotTimes|, j => None))
  }

  predicate GridShape(g: seq<seq<Option<Row>>>) {
    |g| == |Days| && forall d :: 0 <= d < |g| ==> |g[d]| == |SlotTimes|
  }

  /** The grid-fill loop. It fails (None) exactly when some row starts at a time
      no column starts at; otherwise each cell holds the last row covering it,
      and no index at or past the end of SLOT_TIMES is written. */
  method GridFill(slots: seq<Row>) returns (grid: Option<seq<seq<Option<Row>>>>)
    ensures grid.None? <==> exists k :: 0 <= k < |slots| && StartIndex(slots[k].start).None?
    ensures grid.Some? ==> GridShape(grid.value)
    ensures grid.Some? ==>
      forall d, j :: 0 <= d < |Days| && 0 <= j < |SlotTimes| ==> grid.value[d][j] == LastCover(slots, Days[d], j)
  {
    var g := EmptyGrid();
    for k := 0 to |slots|
      invariant GridShape(g)
      invariant forall k' :: 0 <= k' < k ==> StartIndex(slots[k'].start).Some?
      invariant forall d, j :: 0 <= d < |Days| && 0 <= j < |SlotTimes| ==> g[d][j] == LastCover(slots[..k], Days[d], j)
    {
      var r := slots[k];
      var s := StartIndex(r.start);
      if s.None? {
        grid := None;
        return;
      }
      var di := DayIndex(r.day);
      var i := s.value;
      var stop := s.value + DurationSlots(r.start, r.end);
      while i < stop
        invariant s.value <= i && (s.value <= stop ==> i <= stop) && (stop < s.value ==> i == s.value)
        invariant GridShape(g)
        invariant forall d, j :: 0 <= d < |Days| && 0 <= j < |SlotTimes| ==>
          g[d][j] == if d == di && s.value <= j < i then Some(r) else LastCover(slots[..k], Days[d], j)
        decreases stop - i
      {
        if i < |SlotTimes| {
          g := g[di := g[di][i := Some(r)]];
        }
        i := i + 1;
      }
      assert slots[..k + 1][..k] == slots[..k];
      assert slots[..k + 1][k] == r;
      forall d, j | 0 <= d < |Days| && 0 <= j < |SlotTimes|
        ensures g[d][j] == LastCover(slots[..k + 1], Days[d], j)
      {
        assert (Days[d] == r.day) == (d == di);
        assert Covers(r, j) == (s.value <= j < i);
      }
    }
    assert slots[..|slots|] == slots;
    grid := Some(g);
  }

  /** Later columns start later, and by less than an hour more per column than
      the hour count between them (the only gap is half an hour). */
  lemma SlotStartSpread(s: nat, j: nat)
    requires s <= j < |SlotTimes|
    ensures 60 * (j - s) <= SlotTimes[j].start - SlotTimes[s].start < 60 * (j - s + 1)
  {
  }

  /** Two rows of one class written into the same cell overlap, so they clash. */
  lemma {:induction false} SharedCellClash(a: Row, b: Row, j: int)
    requires a.day == b.day && a.classId == b.classId
    requires Covers(a, j) && Covers(b, j) && 0 <= j < |SlotTimes|
    ensures Clash(a, b)
  {
    var sa, sb := StartIndex(a.start).value, StartIndex(b.start).value;
    SlotStartSpread(sa, j);
    SlotStartSpread(sb, j);
    var m := SlotTimes[j].start;
    assert a.start <= m < a.end;
    assert b.start <= m < b.end;
  }

  /** On a clash-free store each cell shows the one row occupying it. */
  lemma {:induction false} CellShowsOccupant(rows: seq<Row>, classId: nat, k: nat, j: int)
    requires NoClash(rows)
    requires var slots := ClassSlots(rows, classId);
             k < |slots| && 0 <= j < |SlotTimes| && Covers(slots[k], j)
    ensures var slots := ClassSlots(rows, classId);
            LastCover(slots, slots[k].day, j) == Some(slots[k])
  {
    var slots := ClassSlots(rows, classId);
    ClassSlotsKeepsNoClash(rows, classId);
    var x := slots[k];
    LastCoverIsLast(slots, x.day, j);
    assert WrittenAt(slots, k, x.day, j);
    var r := LastCover(slots, x.day, j);
    var k' :| 0 <= k' < |slots| && slots[k'] == r.value && WrittenAt(slots, k', x.day, j) &&
              forall k'' :: k' < k'' < |slots| ==> !WrittenAt(slots, k'', x.day, j);
    if k' != k {
      SharedCellClash(slots[k], slots[k'], j);
      assert false;
    }
  }

  lemma {:induction false} ClassSlotsKeepsNoClash(rows: seq<Row>, classId: nat)
    requires NoClash(rows)
    ensures NoClash(ClassSlots(rows, classId))
  {
    if rows != [] {
      ClassSlotsKeepsNoClash(rows[1..], classId);
      var tail := ClassSlots(rows[1..], classId);
      if rows[0].classId == classId && rows[0].classroomId.Some? {
        var r := [rows[0]] + tail;
        forall i, j | 0 <= i < j < |r| ensures !Clash(r[i], r[j]) {
          if i == 0 {
            assert r[j] in rows[1..];
            var k :| 0 <= k < |rows[1..]| && rows[1..][k] == r[j];
            assert rows[k + 1] == r[j];
          } else {
            assert r[i] == tail[i - 1] && r[j] == tail[j - 1];
          }
        }
      }
    }
  }
}
