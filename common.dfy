/** Vocabulary shared by both revisions of the scheduler: days, the fixed slot grid
    (SLOT_TIMES, identical in both revisions), the half-open overlap test every SQL
    clash query uses, and the SQL / Python truthiness conventions for ids. */
module Common {

  datatype Option<T> = None | Some(value: T)

  /** The six teaching days, in the order of the DAYS list. */
  datatype Day = MON | TUE | WED | THU | FRI | SAT

  const Days: seq<Day> := [MON, TUE, WED, THU, FRI, SAT]

  /** A time of day, in minutes after midnight ("09:30" is 570). */
  type Minutes = int

  datatype Period = Period(start: Minutes, end: Minutes)

  /** SLOT_TIMES: 09:00-10:00, 10:00-11:00, 11:00-12:00, then a half-hour gap,
      12:30-13:30, 13:30-14:30, 14:30-15:30, 15:30-16:30. */
  const SlotTimes: seq<Period> := [
    Period(540, 600), Period(600, 660), Period(660, 720),
    Period(750, 810), Period(810, 870), Period(870, 930), Period(930, 990)
  ]

  /** `range(n)`: 0, 1, ..., n - 1. */
  function Range(n: nat): (r: seq<nat>)
    ensures |r| == n && forall j :: 0 <= j < n ==> r[j] == j
  {
    if n == 0 then [] else Range(n - 1) + [n - 1]
  }

  /** `range(len(SLOT_TIMES) - 1)`: the starts the lab loop tries. */
  const LabStarts: seq<nat> := Range(|SlotTimes| - 1)

  /** The lab loop tries exactly the starts whose two-slot block stays on the
      grid, each once, in increasing order. */
  lemma LabStartsOnGrid()
    ensures forall i: nat :: i in LabStarts <==> i + 2 <= |SlotTimes|
    ensures forall a, b :: 0 <= a < b < |LabStarts| ==> LabStarts[a] < LabStarts[b]
  {
    forall i: nat | i + 2 <= |SlotTimes| ensures i in LabStarts {
      assert LabStarts[i] == i;
    }
  }

  /** Minute `m` lies in the half-open interval [s, e). */
  predicate Within(m: int, s: Minutes, e: Minutes) {
    s <= m < e
  }

  /** The clash test of every query in both revisions:
      `NOT (time_end <= ? OR time_start >= ?)` with the stored row as (aStart, aEnd)
      and the proposed interval as (bStart, bEnd). For non-empty intervals it holds
      exactly when the two intervals share a minute, so back-to-back intervals
      never clash. */
  predicate Overlaps(aStart: Minutes, aEnd: Minutes, bStart: Minutes, bEnd: Minutes)
  {
    !(aEnd <= bStart || aStart >= bEnd)
  }

  lemma OverlapsMeansSharedMinute(aStart: Minutes, aEnd: Minutes, bStart: Minutes, bEnd: Minutes)
    requires aStart < aEnd && bStart < bEnd
    ensures Overlaps(aStart, aEnd, bStart, bEnd) <==>
            exists m :: Within(m, aStart, aEnd) && Within(m, bStart, bEnd)
  {
    if Overlaps(aStart, aEnd, bStart, bEnd) {
      var m := if aStart < bStart then bStart else aStart;
      assert Within(m, aStart, aEnd) && Within(m, bStart, bEnd);
    }
  }

  lemma OverlapsSymmetric(aStart: Minutes, aEnd: Minutes, bStart: Minutes, bEnd: Minutes)
    ensures Overlaps(aStart, aEnd, bStart, bEnd) == Overlaps(bStart, bEnd, aStart, aEnd)
  {
  }

  /** SQL equality `col = ?`: a NULL on either side never matches. */
  predicate SqlEq(a: Option<nat>, b: Option<nat>) {
    a.Some? && b.Some? && a.value == b.value
  }

  /** Python truthiness of an optional id: None and 0 are false. */
  predicate Truthy(x: Option<nat>) {
    x.Some? && x.value != 0
  }
}
