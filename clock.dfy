/** Zero-padded "HH:MM" text, as the timetable columns store it. Both revisions
    keep times as TEXT and compare them with SQL `<=` and `>=`, which order text
    character by character. This module proves that, for zero-padded times, that
    text order is the order of the minutes, so the rest of the model may compare
    minutes instead of strings. */
module Clock {
  import opened Common

  const MinutesPerDay: int := 1440

  function DigitChar(d: int): char
    requires 0 <= d < 10
  {
    ('0' as int + d) as char
  }

  predicate IsDigit(c: char) {
    '0' <= c <= '9'
  }

  function DigitValue(c: char): int
    requires IsDigit(c)
  {
    c as int - '0' as int
  }

  /** The zero-padded "HH:MM" text of a time of day. */
  function Format(m: Minutes): (s: string)
    requires 0 <= m < MinutesPerDay
    ensures |s| == 5 && s[2] == ':'
    ensures IsDigit(s[0]) && IsDigit(s[1]) && IsDigit(s[3]) && IsDigit(s[4])
  {
    var h, mm := m / 60, m % 60;
    [DigitChar(h / 10), DigitChar(h % 10), ':', DigitChar(mm / 10), DigitChar(mm % 10)]
  }

  /** Reads "HH:MM" with two digits each, hours at most 23 and minutes at most 59. */
  function Parse(s: string): (r: Option<Minutes>)
    ensures r.Some? ==> 0 <= r.value < MinutesPerDay
  {
    if |s| == 5 && s[2] == ':' && IsDigit(s[0]) && IsDigit(s[1]) && IsDigit(s[3]) && IsDigit(s[4])
    then
      var h := 10 * DigitValue(s[0]) + DigitValue(s[1]);
      var mm := 10 * DigitValue(s[3]) + DigitValue(s[4]);
      if h <= 23 && mm <= 59 then Some(60 * h + mm) else None
    else None
  }

  lemma {:induction false} ParseFormat(m: Minutes)
    requires 0 <= m < MinutesPerDay
    ensures Parse(Format(m)) == Some(m)
  {
    var s := Format(m);
    var h, mm := m / 60, m % 60;
    assert DigitValue(s[0]) == h / 10 && DigitValue(s[1]) == h % 10;
    assert DigitValue(s[3]) == mm / 10 && DigitValue(s[4]) == mm % 10;
    assert 10 * (h / 10) + h % 10 == h;
    assert 10 * (mm / 10) + mm % 10 == mm;
  }

  lemma {:induction false} FormatParse(s: string)
    requires Parse(s).Some?
    ensures Format(Parse(s).value) == s
  {
    var h := 10 * DigitValue(s[0]) + DigitValue(s[1]);
    var mm := 10 * DigitValue(s[3]) + DigitValue(s[4]);
    var m := 60 * h + mm;
    assert m / 60 == h && m % 60 == mm;
    assert h / 10 == DigitValue(s[0]) && h % 10 == DigitValue(s[1]);
    assert mm / 10 == DigitValue(s[3]) && mm % 10 == DigitValue(s[4]);
    var f := Format(m);
    assert f[0] == s[0] && f[1] == s[1] && f[3] == s[3] && f[4] == s[4];
  }

  /** Character-by-character text order (SQLite's BINARY collation on ASCII). */
  predicate TextLess(a: string, b: string)
  {
    if a == [] then b != []
    else if b == [] then false
    else if a[0] < b[0] then true
    else if a[0] == b[0] then TextLess(a[1..], b[1..])
    else false
  }

  predicate TextLessEq(a: string, b: string) {
    TextLess(a, b) || a == b
  }

  /** Two-digit comparison: the tens digit decides, then the units digit. */
  lemma TwoDigitOrder(x: int, y: int)
    requires 0 <= x < 100 && 0 <= y < 100
    ensures x < y <==> (x / 10 < y / 10 || (x / 10 == y / 10 && x % 10 < y % 10))
  {
  }

  /** Minute comparison: the hour decides, then the minute within the hour. */
  lemma HourMinuteOrder(x: int, y: int)
    requires 0 <= x < MinutesPerDay && 0 <= y < MinutesPerDay
    ensures x < y <==> (x / 60 < y / 60 || (x / 60 == y / 60 && x % 60 < y % 60))
  {
  }

  lemma DigitCharOrder(a: int, b: int)
    requires 0 <= a < 10 && 0 <= b < 10
    ensures DigitChar(a) < DigitChar(b) <==> a < b
    ensures DigitChar(a) == DigitChar(b) <==> a == b
  {
  }

  /** Text order of zero-padded times is minute order. */
  lemma {:induction false} FormatOrder(x: Minutes, y: Minutes)
    requires 0 <= x < MinutesPerDay && 0 <= y < MinutesPerDay
    ensures TextLess(Format(x), Format(y)) <==> x < y
  {
    var hx, hy, mx, my := x / 60, y / 60, x % 60, y % 60;
    var a, b := Format(x), Format(y);
    HourMinuteOrder(x, y);
    TwoDigitOrder(hx, hy);
    TwoDigitOrder(mx, my);
    DigitCharOrder(hx / 10, hy / 10);
    DigitCharOrder(hx % 10, hy % 10);
    DigitCharOrder(mx / 10, my / 10);
    DigitCharOrder(mx % 10, my % 10);
    assert a[1..][1..][1..][1..][1..] == [] && b[1..][1..][1..][1..][1..] == [];
    assert TextLess(a[1..][1..][1..][1..], b[1..][1..][1..][1..]) <==> a[4] < b[4];
    assert TextLess(a[1..][1..][1..], b[1..][1..][1..]) <==>
           a[3] < b[3] || (a[3] == b[3] && a[4] < b[4]);
    assert TextLess(a[1..][1..], b[1..][1..]) <==>
           a[3] < b[3] || (a[3] == b[3] && a[4] < b[4]);
    assert TextLess(a[1..], b[1..]) <==>
           a[1] < b[1] || (a[1] == b[1] && (a[3] < b[3] || (a[3] == b[3] && a[4] < b[4])));
  }

  lemma FormatInjective(x: Minutes, y: Minutes)
    requires 0 <= x < MinutesPerDay && 0 <= y < MinutesPerDay
    ensures Format(x) == Format(y) <==> x == y
  {
    if Format(x) == Format(y) {
      ParseFormat(x);
      ParseFormat(y);
    }
  }

  /** The overlap test of the SQL queries, evaluated on the stored text. */
  predicate OverlapsText(aStart: string, aEnd: string, bStart: string, bEnd: string) {
    !(TextLessEq(aEnd, bStart) || TextLessEq(bEnd, aStart))
  }

  /** On zero-padded times the text test and the minute test agree, so the
      minute-based model of every clash query decides as the source does. */
  lemma OverlapsTextAgrees(aStart: Minutes, aEnd: Minutes, bStart: Minutes, bEnd: Minutes)
    requires 0 <= aStart < MinutesPerDay && 0 <= aEnd < MinutesPerDay
    requires 0 <= bStart < MinutesPerDay && 0 <= bEnd < MinutesPerDay
    ensures OverlapsText(Format(aStart), Format(aEnd), Format(bStart), Format(bEnd))
            == Overlaps(aStart, aEnd, bStart, bEnd)
  {
    FormatOrder(aEnd, bStart);
    FormatInjective(aEnd, bStart);
    FormatOrder(bEnd, aStart);
    FormatInjective(bEnd, aStart);
  }

  /** SLOT_TIMES as the source writes it. */
  const SlotTimeTexts: seq<(string, string)> := [
    ("09:00", "10:00"), ("10:00", "11:00"), ("11:00", "12:00"),
    ("12:30", "13:30"), ("13:30", "14:30"), ("14:30", "15:30"), ("15:30", "16:30")
  ]

  /** The minute grid is the source's text grid. */
  lemma SlotTimesMatchText(i: nat)
    requires i < |SlotTimes|
    ensures |SlotTimeTexts| == |SlotTimes|
    ensures Parse(SlotTimeTexts[i].0) == Some(SlotTimes[i].start)
    ensures Parse(SlotTimeTexts[i].1) == Some(SlotTimes[i].end)
  {
  }
}
