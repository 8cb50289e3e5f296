# Smart Classroom Timetable Scheduler — a verified model of the scheduling core

The scheduler keeps a weekly timetable in a `timetable_slots` table. There are
six teaching days (MON to SAT) and seven one-hour slots a day, from 09:00 to
16:30, with a lunch gap from 12:00 to 12:30. The table is written in three ways:

- bulk generation, which places every course's sessions without double-booking
  a teacher, a classroom or a class;
- manual edits, which are checked for clashes before they are saved;
- a grid view, which lays a class's rows out as a day x slot table.

The project models two revisions of that core:

- the current one (`app.py`). Courses expand into two-hour lab blocks and
  one-hour lectures. Lab blocks go first, into lab rooms. Lectures follow a
  teacher's morning or afternoon preference and keep two hours after that
  teacher's lab.
- the earlier prototype (`smart_timetable_app.py`). Assignments expand into
  tasks that take the first free cell. Edits also check a weekly limit and the
  length of a lab.

It also models the two time helpers of the management page
(`static/js/manage.js`). They turn "h:mm AM/PM" text into 24-hour text and
back.

Modules:

- `Common` holds days, the slot grid, the half-open overlap test, SQL NULL
  equality and Python truthiness.
- `Clock` proves that SQLite's text order on zero-padded "HH:MM" is minute
  order. So the clash queries, which compare text, decide as the minute-based
  model does.
- `CurrentStore` and `ProtoStore` hold each revision's table as a class. The
  INSERT, UPDATE and DELETE statements are its methods; `nextId` is the
  AUTOINCREMENT counter. Each module also holds the clash queries (`Busy`) and
  the no-double-booking invariant (`NoClash`).
- `CurrentGenerate` and `ProtoGenerate` hold bulk generation. Every random
  draw is an input, so each property holds whatever the draws are.
- `CurrentEdit` and `ProtoEdit` hold `validate_change` and the endpoint that
  saves an edit.
- `CurrentGrid` holds the grid-fill loop of `api_get_timetable`.
- `TimeFormat` holds `convert12to24` and `formatTimeFromInput`, with
  JavaScript's `split`, `parseInt`, `%` and `padStart` written out.

Times are minutes since midnight. The source stores them as "HH:MM" text;
`Clock.OverlapsTextAgrees` ties the two forms together.

## Model

| member | source | states |
|---|---|---|
| Common.OverlapsMeansSharedMinute | app.py:149-156 | the overlap test of the clash queries holds exactly when the two intervals share a minute |
| Common.OverlapsSymmetric | app.py:149-156 | the overlap test does not depend on which interval is the stored one |
| Common.Range | app.py:186 | `range(n)`: the numbers 0 to n - 1, in order |
| Common.LabStartsOnGrid | app.py:186 | the lab loop's starts `range(len(SLOT_TIMES) - 1)` are exactly the starts whose two-slot block stays on the grid, each once, in increasing order |
| Clock.ParseFormat | app.py:18-21 | reading back the zero-padded text of a time of day gives that time |
| Clock.FormatParse | app.py:18-21 | every well-formed "HH:MM" text is the zero-padded text of the time it reads as |
| Clock.FormatOrder | app.py:149-156 | the character order of zero-padded times is the order of the minutes |
| Clock.FormatInjective | app.py:149-156 | two times have the same text exactly when they are equal |
| Clock.OverlapsTextAgrees | app.py:149-156 | the SQL overlap test on stored text and the minute overlap test give the same answer |
| Clock.SlotTimesMatchText | app.py:18-21 | each SLOT_TIMES entry written as text reads as the minute period the model uses |
| CurrentStore.Busy | app.py:149-154 | some row not skipped by the slot-id filter is on that day, overlaps the interval and matches the value in the queried column, with NULL matching nothing |
| CurrentStore.Clash | app.py:149-156 | two rows on one day with overlapping intervals that share a teacher, a classroom or a class |
| CurrentStore.Free | app.py:149-156 | none of the teacher, classroom and class queries finds a row |
| CurrentStore.FreeMeansNoClash | app.py:149-156 | a row that passed the teacher, classroom and class queries clashes with no row they looked at |
| CurrentStore.AppendFreeKeepsNoClash | app.py:158-168 | inserting a row the three queries found free keeps the table free of double-bookings |
| CurrentStore.Without | app.py:364-366 | after the DELETE, a row remains exactly when it was there and has another slot id |
| CurrentStore.UpdateRows | app.py:397-402 | the UPDATE rewrites only the rows with that slot id, and keeps their class |
| CurrentStore.WithoutKeepsNoClash | app.py:364-366 | deleting a slot keeps the table free of double-bookings |
| CurrentStore.WithoutKeepsDistinct | app.py:364-366 | deleting a slot keeps slot ids distinct |
| CurrentStore.SlotTable.Clear | app.py:142 | all rows are deleted and the id counter is kept |
| CurrentStore.SlotTable.Insert | app.py:164-166 | exactly one row is appended, under the next id, and the counter advances |
| CurrentStore.SlotTable.Delete | app.py:364-366 | the new rows are the old rows without that slot id |
| CurrentStore.SlotTable.Update | app.py:397-402 | the new rows are the old rows with that slot moved; ids stay distinct |
| CurrentGenerate.LabBlocks | app.py:170-179 | a lab course gets `weekly_lectures // 2` two-hour blocks, dropping an odd hour |
| CurrentGenerate.TaskListsFromCourses | app.py:170-179 | every lab task is a lab course of the snapshot, and every lecture task is a theory course of the snapshot |
| CurrentGenerate.ExpandTasks | app.py:170-179 | the loop over courses builds exactly the two task lists |
| CurrentGenerate.AppendCopies | app.py:175-179 | the inner `range` loop appends exactly n copies of the course |
| CurrentGenerate.CoursePartsCount | app.py:172-179 | one course adds its session count under its own id and nothing under any other id |
| CurrentGenerate.TaskListsCountSnoc | app.py:172-179 | each further course adds its own share to the count of one id and leaves the earlier courses' share unchanged |
| CurrentGenerate.TaskListsCount | app.py:170-179 | each course appears in `labs_to_schedule` and `lectures_to_schedule` together exactly as often as its session count |
| CurrentGenerate.CountAbsent | app.py:170-179 | a course id that no course has gets no tasks |
| CurrentGenerate.LabRooms | app.py:182-183 | the lab-room query keeps exactly the rooms with `is_lab = 1` |
| CurrentGenerate.TheoryRooms | app.py:226-230 | the theory-room query keeps exactly the rooms with `is_lab = 0` |
| CurrentGenerate.CourseOfUnique | app.py:170-179 | with distinct course ids, a row's course id leads back to its course |
| CurrentGenerate.SessionPeriod | app.py:160-161 | a session runs from the start of its first slot to the end of its last, a non-empty interval |
| CurrentGenerate.LabAtThirdSlotSpansGap | app.py:160-161 | a lab at slot index 2 runs 11:00-13:30, across the lunch gap |
| CurrentGenerate.ScheduleSession | app.py:158-168 | refuses a session past the last slot; otherwise inserts it exactly when all three queries find it free; refusal changes nothing; no double-booking is introduced |
| CurrentGenerate.PreferenceOrder | app.py:208-212 | the shuffled slots, morning group first for a `morning` teacher, afternoon group first for an `afternoon` teacher, unchanged otherwise |
| CurrentGenerate.Select | app.py:208-212 | one preference group holds only slots of its own kind, and no more slots than were shuffled |
| CurrentGenerate.SelectSplitsMultiset | app.py:208-212 | the morning and afternoon groups together hold every shuffled slot |
| CurrentGenerate.PreferenceOrderIsPermutation | app.py:208-212 | the preference sort tries every shuffled slot exactly once |
| CurrentGenerate.PreferenceOrderIsStable | app.py:208-212 | within each group the shuffled order is kept, as Python's stable sort keeps it |
| CurrentGenerate.PreferenceOrderInRange | app.py:208-212 | every slot tried after sorting is a grid slot |
| CurrentGenerate.PreferenceOrderGroups | app.py:208-212 | a morning teacher tries slots 0-2 before 3-6, an afternoon teacher 3-6 before 0-2 |
| CurrentGenerate.TooSoonAfterLab | app.py:218-224 | a slot is skipped when the teacher has a remembered lab on that day and the slot starts less than 120 minutes after the lab ends |
| CurrentGenerate.LabBlocksSlotsBelow | app.py:218-224 | after a lab placed at start slot i, the rule skips exactly the slots below i + 4 of that day, so a lab from 12:30 on leaves no lecture slot on its day |
| CurrentGenerate.LabMemory | app.py:191 | the lab memory built by replaying the rows: each lab row overwrites its teacher's entry with its day and end |
| CurrentGenerate.LabMemoryHas | app.py:191 | `teacher_lab_times` holds a teacher exactly when that teacher has a lab row |
| CurrentGenerate.LabMemoryIsLastLab | app.py:191 | a teacher's `teacher_lab_times` entry is the day and end of that teacher's last lab row, with no lab row of that teacher after it |
| CurrentGenerate.LabMemoryAppend | app.py:191 | a placed lab overwrites its teacher's entry; other rows leave the memory alone |
| CurrentGenerate.FirstSlot | app.py:214-232 | the first slot of a list that a test accepts on a day, or none |
| CurrentGenerate.FirstChoice | app.py:186-193 | the first (day, slot) a test accepts, day by day in the given order and slot by slot in that day's order, or none |
| CurrentGenerate.FirstSlotSpec | app.py:214-232 | no slot is found exactly when every slot of the list is refused, and a found slot comes after refused slots only |
| CurrentGenerate.FirstChoiceSpec | app.py:186-193 | no try is found exactly when every slot of every day is refused; a found try is on a day before which every slot was refused, at that day's first accepted slot |
| CurrentGenerate.LabRoomAt | app.py:188 | the lab room `random.choice` draws for a lab task at a (day, slot) |
| CurrentGenerate.TheoryRoomAt | app.py:231 | the theory room `random.choice` draws for a lecture task at a (day, slot) |
| CurrentGenerate.LabOk | app.py:158-168 | `schedule_session(lab, day, i, 2, room)` succeeds: the block stays on the grid and the three queries find it free in the drawn lab room |
| CurrentGenerate.LectureOk | app.py:214-232 | a lecture try succeeds: not too soon after the teacher's lab, a theory room exists, and the three queries find the slot free in the drawn room |
| CurrentGenerate.LectureOrder | app.py:204-212 | the slots a lecture task tries on a day: the drawn shuffle in preference order |
| CurrentGenerate.TeacherPref | app.py:198 | `teacher_prefs.get(teacher_id)` |
| CurrentGenerate.LabStep | app.py:185-193 | one lab task: a two-slot row at its first successful try, or no row |
| CurrentGenerate.LabPhase | app.py:185-193 | the lab tasks placed in order, each against the rows of those before it |
| CurrentGenerate.LectureStep | app.py:196-234 | one lecture task: a one-slot row at its first successful try, or no row |
| CurrentGenerate.LecturePhase | app.py:196-234 | the lecture tasks placed in order, each against the rows of those before it |
| CurrentGenerate.Generate | app.py:139-235 | the table generation leaves: the lab phase from an empty table, then the lecture phase with the lab phase's memory |
| CurrentGenerate.LabStepSpec | app.py:185-193 | a lab task adds no row exactly when every start of every drawn day is refused, and otherwise adds its row at the first successful try |
| CurrentGenerate.LectureStepSpec | app.py:196-234 | a lecture task adds no row exactly when every slot of every drawn day is refused, and otherwise adds its row at the first successful try |
| CurrentGenerate.PlaceLabs | app.py:184-193 | the lab loop leaves exactly `LabPhase` of the table; no double-booking, every row is a two-slot block of a lab course in a lab room, no course has more rows than lab tasks, and the lab memory is that of the rows |
| CurrentGenerate.PlaceLab | app.py:185-193 | the new table is `LabStep` of the old: a row is added exactly when some try succeeds, at the first successful (day, start) with the drawn lab room; otherwise nothing changes |
| CurrentGenerate.PlaceOnDay | app.py:214-232 | a lecture is placed exactly when some slot of the day's order succeeds, at the first such slot, in the drawn theory room and not too soon after the teacher's lab; otherwise nothing changes |
| CurrentGenerate.PlaceLecture | app.py:196-234 | the new table is `LectureStep` of the old: the lecture's row at its first successful (day, slot), or no change when every try fails |
| CurrentGenerate.PlaceLectures | app.py:196-234 | the lecture loop leaves exactly `LecturePhase` of the table; no double-booking, every row has its course's shape, no course has more rows than tasks, and no lecture breaks the 2-hour rule |
| CurrentGenerate.GenerateTimetable | app.py:139-235 | the table left is `Generate` of the inputs; it has no teacher, classroom or class double-booked, every row has its course's shape, room kind and teacher, no course has more sessions than it asks for, and no lecture breaks the 2-hour rule |
| CurrentEdit.ValidateChange | app.py:237-268 | the teacher, classroom and class queries in turn, each skipping the edited slot when its id is truthy; the first that finds a row decides the refusal |
| CurrentEdit.BusyWithout | app.py:237-268 | skipping slot k in a query gives the same answer as querying the table without row k |
| CurrentEdit.ValidateIgnoresOwnRow | app.py:237-268 | validating a move of slot k gives the verdict for the table without row k |
| CurrentEdit.TeacherOverlapRejected | app.py:241-248 | a teacher busy MON 09:00-10:00 cannot take MON 09:30-10:30 |
| CurrentEdit.BackToBackAccepted | app.py:237-268 | a session starting exactly when another ends is accepted |
| CurrentEdit.AcceptedInsertKeepsNoClash | app.py:403-407 | inserting an accepted row keeps the table free of double-bookings |
| CurrentEdit.AcceptedMoveKeepsNoClash | app.py:397-402 | an accepted move keeps the table free of double-bookings when the slot belongs to the class the request names |
| CurrentEdit.MoveAcrossClassesCanClash | app.py:397-402 | without that proviso an accepted move can double-book a class, because the UPDATE keeps the row's class |
| CurrentEdit.FindCourse | app.py:374-379 | the course lookup returns a course that teaches that subject to that class with that teacher, or none exists |
| CurrentEdit.ApiUpdate | app.py:358-411 | a blank request clears its slot or is refused; otherwise an unassigned teacher or a clash is refused with the check's message; the table then changes by exactly the one DELETE, UPDATE or INSERT, and only the INSERT advances the id counter; every refusal leaves it as it was; no double-booking is introduced when the moved slot keeps its class |
| CurrentGrid.DayIndex | app.py:336-338 | each day has its row in the grid |
| CurrentGrid.StartIndex | app.py:330 | the column whose start equals the row's start, or none (StopIteration) |
| CurrentGrid.DurationSlots | app.py:334 | the number of whole hours in the session, truncated toward zero |
| CurrentGrid.LastCover | app.py:325-338 | the last row of the result set that the loop writes into a cell, or none |
| CurrentGrid.LastCoverIsLast | app.py:336-338 | a cell holds a row written there after which no row is written there, and it is empty exactly when no row is written there |
| CurrentGrid.ClassSlots | app.py:313-323 | the grid query keeps exactly the class's rows that have a classroom |
| CurrentGrid.EmptyGrid | app.py:311 | the initial grid is DAYS x SLOT_TIMES, every cell empty |
| CurrentGrid.GridFill | app.py:325-338 | the loop fails exactly when some row starts off the grid; otherwise each cell holds the last row covering it, and nothing is written past the last slot |
| CurrentGrid.SlotStartSpread | app.py:18-21 | later columns start later, and by less than an extra hour per column |
| CurrentGrid.SharedCellClash | app.py:325-338 | two rows of one class written into the same cell overlap |
| CurrentGrid.CellShowsOccupant | app.py:325-338 | on a table without double-bookings each cell shows the one row that occupies it |
| CurrentGrid.ClassSlotsKeepsNoClash | app.py:313-323 | the rows of one class are free of double-bookings when the table is |
| ProtoStore.Busy | smart_timetable_app.py:538-543 | some row not skipped by the slot-id filter is on that day, overlaps the interval and matches the value in the queried column, with NULL matching nothing |
| ProtoStore.Clash | smart_timetable_app.py:538-543 | two rows on one day with overlapping intervals that share a teacher or a classroom |
| ProtoStore.FreeMeansNoClash | smart_timetable_app.py:538-543 | a row both busy queries found free clashes with no row they looked at |
| ProtoStore.AppendFreeKeepsNoClash | smart_timetable_app.py:561-568 | inserting a row both queries found free keeps teachers and classrooms unclashed |
| ProtoStore.Without | smart_timetable_app.py:593-600 | the table with a slot id removed holds exactly the other rows |
| ProtoStore.UpdateRows | smart_timetable_app.py:710-712 | the UPDATE rewrites every column of the rows with that slot id and no other row |
| ProtoStore.SlotTable.Clear | smart_timetable_app.py:505-508 | all rows are deleted and the id counter is kept |
| ProtoStore.SlotTable.Insert | smart_timetable_app.py:566-568 | exactly one row is appended, under the next id, and the counter advances |
| ProtoStore.SlotTable.Update | smart_timetable_app.py:710-712 | the new rows are the old rows with that slot rewritten |
| ProtoGenerate.Repeat | smart_timetable_app.py:520-532 | n copies of one task |
| ProtoGenerate.ExpandTasks | smart_timetable_app.py:520-532 | the loop over assignments builds exactly the list of tasks |
| ProtoGenerate.RepeatCount | smart_timetable_app.py:520-532 | n copies of a task hold it n times |
| ProtoGenerate.TaskMultiplicity | smart_timetable_app.py:520-532 | each assignment yields exactly max(weekly_lectures, 0) tasks |
| ProtoGenerate.AbsentHasNoTasks | smart_timetable_app.py:520-532 | an assignment that is not in the list yields no task |
| ProtoGenerate.Labs | smart_timetable_app.py:534 | the lab list keeps exactly the tasks of duration above one |
| ProtoGenerate.Lectures | smart_timetable_app.py:535 | the lecture list keeps exactly the tasks of duration one |
| ProtoGenerate.SplitCounts | smart_timetable_app.py:534-535 | every copy of a task longer than an hour is in the lab list, every one-hour copy in the lecture list, and a shorter task in neither |
| ProtoGenerate.CellPeriod | smart_timetable_app.py:548-557 | the interval tried at a column: two columns for a duration-2 task, none from the last column, one column otherwise |
| ProtoGenerate.CellPeriodShapes | smart_timetable_app.py:552-560 | a two-hour task at the third slot runs 11:00-13:30 across the lunch gap, none starts in the last slot, a task of any other duration takes its one slot |
| ProtoGenerate.SearchFrom | smart_timetable_app.py:546-569 | the first cell at or after a position, in DAYS x SLOT_TIMES order, that a test accepts |
| ProtoGenerate.SearchFinds | smart_timetable_app.py:546-569 | a cell the day-then-slot search finds from a position is accepted, and no cell between that position and it is |
| ProtoGenerate.SearchMisses | smart_timetable_app.py:546-569 | the search finds nothing only when no cell from that position on is accepted |
| ProtoGenerate.FirstFit | smart_timetable_app.py:546-569 | the first cell in day-then-slot order where a task fits, or none when it fits nowhere |
| ProtoGenerate.PlacedKeepsNoClash | smart_timetable_app.py:561-568 | placing a task at a cell where it fits keeps teachers and classrooms unclashed |
| ProtoGenerate.ClassOverlapNotChecked | smart_timetable_app.py:561-564 | two tasks of one class year can share a cell: the class year is not checked |
| ProtoGenerate.PlaceTask | smart_timetable_app.py:546-569 | a task is inserted at its first fitting cell exactly when one exists; otherwise the table is unchanged |
| ProtoGenerate.PlaceStep | smart_timetable_app.py:546-569 | one task: its row at its first fitting cell under the next id, or no row |
| ProtoGenerate.PlaceStepSpec | smart_timetable_app.py:546-569 | a task adds a row exactly when it fits some cell, and the row sits at the earliest fitting cell |
| ProtoGenerate.Placements | smart_timetable_app.py:572-582 | the tasks placed in order, each against the rows of those before it |
| ProtoGenerate.Generated | smart_timetable_app.py:511-582 | the table generation leaves: from an empty table, the tasks longer than an hour, then the one-hour tasks |
| ProtoGenerate.PlaceAll | smart_timetable_app.py:572-582 | the loop leaves exactly `Placements` of the table; teachers and classrooms stay unclashed; every new row comes from one of the tasks |
| ProtoGenerate.GenerateTimetable | smart_timetable_app.py:511-582 | the table left is `Generated` of the assignments: lab rows then lecture rows, each from a task of the assignment list, no more rows than tasks, with no teacher or classroom double-booked |
| ProtoEdit.ValidateChange | smart_timetable_app.py:586-626 | the teacher query, the classroom query, then for a known subject the weekly count and the lab length; the first that fails decides the refusal |
| ProtoEdit.TooShort | smart_timetable_app.py:619-625 | the interval, reduced modulo a day as `timedelta.seconds` is, is shorter than the lab's duration in hours |
| ProtoEdit.FindSubject | smart_timetable_app.py:611-613 | the subject with the requested id, or none exists |
| ProtoEdit.CountSubject | smart_timetable_app.py:614-617 | the weekly count never exceeds the number of rows |
| ProtoEdit.UnknownSubjectOnlyClashes | smart_timetable_app.py:586-626 | with no such subject, the edit is accepted exactly when teacher and classroom are free |
| ProtoEdit.AcceptedMeans | smart_timetable_app.py:586-626 | an accepted edit has teacher and classroom free, is under the weekly count, and a lab interval is long enough |
| ProtoEdit.ClashChecksIgnoreOwnRow | smart_timetable_app.py:593-609 | the clash checks for a move of slot k answer as if row k were not in the table |
| ProtoEdit.WeeklyLimitBlocksMoves | smart_timetable_app.py:614-617 | the count includes the edited row, so a subject already at its weekly count cannot be moved |
| ProtoEdit.TooShortForward | smart_timetable_app.py:619-625 | for a forward interval shorter than a day the lab check is "shorter than duration hours" |
| ProtoEdit.ReversedIntervalPasses | smart_timetable_app.py:619-625 | a reversed interval wraps round midnight: it passes the lab check exactly when its wrapped length is at least the lab's hours |
| ProtoEdit.AcceptedInsertKeepsNoClash | smart_timetable_app.py:713-714 | inserting an accepted edit keeps teachers and classrooms unclashed |
| ProtoEdit.AcceptedMoveKeepsNoClash | smart_timetable_app.py:710-712 | an accepted move keeps teachers and classrooms unclashed |
| ProtoEdit.ApiEditSlot | smart_timetable_app.py:692-716 | an edit is saved exactly when the check accepts it; a refusal changes nothing; an accepted edit rewrites its slot or adds exactly one row; no double-booking is introduced |
| TimeFormat.Convert12to24 | static/js/manage.js:81-93 | empty text stays empty; text without an AM/PM word gives its time part; otherwise the hours are converted and the minutes kept |
| TimeFormat.HourTo24 | static/js/manage.js:86-91 | a PM hour other than "12" gets twelve added, an AM "12" becomes "00", any other hour is kept |
| TimeFormat.IsPm | static/js/manage.js:86 | the word is "PM" in any letter case |
| TimeFormat.FormatTimeFromInput | static/js/manage.js:95-104 | empty text stays empty; text without ':' fails; otherwise the shown hour, the padded minutes and AM or PM |
| TimeFormat.ParseInt | static/js/manage.js:87 | an optional sign and the leading digits, or NaN when there is no digit |
| TimeFormat.Split | static/js/manage.js:83 | `split` returns at least one part, and no part holds the separator |
| TimeFormat.SplitJoin | static/js/manage.js:83 | joining the parts of a split gives back the text |
| TimeFormat.SplitNoSep | static/js/manage.js:84 | text without the separator splits into itself |
| TimeFormat.SplitPrefix | static/js/manage.js:83-85 | text before the first separator is the first part |
| TimeFormat.JoinSplit | static/js/manage.js:83-85 | splitting joined separator-free parts gives back the parts |
| TimeFormat.DigitPrefix | static/js/manage.js:87 | the longest run of leading digits, which `parseInt` reads |
| TimeFormat.DigitPrefixOfDigits | static/js/manage.js:87 | `parseInt` reads all of an all-digit text |
| TimeFormat.NatToString | static/js/manage.js:87 | a number's decimal text is non-empty and all digits |
| TimeFormat.NatToStringValue | static/js/manage.js:87 | the decimal text of a number reads back as that number |
| TimeFormat.IntToString | static/js/manage.js:92 | a number's text holds no space and no colon |
| TimeFormat.ParseIntToString | static/js/manage.js:87 | `parseInt` of a number's text is that number |
| TimeFormat.TruncRem | static/js/manage.js:100 | JavaScript's `%`: the remainder takes the sign of the dividend and is smaller than the divisor |
| TimeFormat.PadStart | static/js/manage.js:102 | padding reaches the target length and keeps the text at the end |
| TimeFormat.ShownHour | static/js/manage.js:100-101 | the shown hour is 1-12 (negative only for a negative input hour) |
| TimeFormat.EmptyInputs | static/js/manage.js:82 | both helpers return empty text for empty input |
| TimeFormat.NoSuffixUnchanged | static/js/manage.js:84 | text without an AM/PM part comes back unchanged |
| TimeFormat.SplitClock | static/js/manage.js:83-85 | "h:mm AM" splits into the time and the suffix, and the time into hours and minutes |
| TimeFormat.ConvertClock | static/js/manage.js:83-92 | "hours:minutes ampm" converts the hours part alone and keeps the minutes |
| TimeFormat.PmAddsTwelve | static/js/manage.js:86-88 | PM adds twelve to any hour but 12 |
| TimeFormat.NoonPm | static/js/manage.js:86-88 | 12 PM stays 12 |
| TimeFormat.MidnightAm | static/js/manage.js:89-91 | 12 AM becomes 00 |
| TimeFormat.AmHours | static/js/manage.js:89-92 | AM hours other than 12 are unchanged, without padding |
| TimeFormat.FormatShape | static/js/manage.js:95-104 | the 12-hour text is the shown hour, the padded minutes and AM before noon or PM from noon |
| TimeFormat.TwoDigitText | static/js/manage.js:92 | numbers under 100 print as one or two digits |
| TimeFormat.TextNotTwelve | static/js/manage.js:86 | only 12 prints as "12" |
| TimeFormat.TwelveText | static/js/manage.js:86 | 12 prints as "12" |
| TimeFormat.RoundTripPm | static/js/manage.js:86-88 | converting a PM display back gives the 24-hour hour |
| TimeFormat.RoundTripAm | static/js/manage.js:89-91 | converting an AM display back gives the 24-hour hour |
| TimeFormat.HourDigits | static/js/manage.js:98 | `parseInt` of a two-digit hour is its value |
| TimeFormat.FormatTwoDigits | static/js/manage.js:95-104 | the display of zero-padded "HH:MM" keeps its minutes |
| TimeFormat.AfternoonText | static/js/manage.js:95-104 | an hour from 12 to 23 displays as PM with the hour less twelve (12 stays 12) |
| TimeFormat.AfternoonBack | static/js/manage.js:81-93 | converting that PM display back gives the original time |
| TimeFormat.MorningText | static/js/manage.js:95-104 | an hour below 12 displays as AM, with 0 shown as 12 |
| TimeFormat.MorningBack | static/js/manage.js:81-93 | converting that AM display back gives the original time, without the leading zero for 01-09 |
| TimeFormat.RoundTrip | static/js/manage.js:81-104 | for every two-digit "HH:MM" with HH up to 23, display then convert gives the time back, except that hours 01-09 lose their leading zero |

## Left out

- The Flask routes' request parsing, JSON responses, `render_template` and the HTML templates: only the decisions those handlers take are modelled.
- SQLite connections, `init_db` and the seed data: the tables are the `SlotTable` classes and the snapshots passed to each operation.
- The other option and list queries, the class-name lookup of `api_get_timetable` and its 404, and the `api_timetables` listing with its duplicate keys: they read the table and do not decide anything about it.
- PDF export, `admin_routes.py`, `delete_entity`, `timetable.js` and the DOM event handlers of `manage.js`: admin CRUD and presentation.
- Day names are the six values of `Day`: a free-form day string from a request is not modelled.
- Slot ids from a request are numbers or absent: a non-numeric `slot_id` string is not modelled.
- Times are minutes. `Clock` shows that the SQL text comparisons agree with minute comparisons on zero-padded "HH:MM". Unpadded text, which `strptime` accepts and which compares differently as text, is not modelled.
- The `class_id` and `teacher_id` columns of courses and of the timetable rows, and the prototype's `class_year`, are taken to be non-NULL. The schema allows NULL there, and a NULL never matches `= ?`, so two sessions with a NULL teacher or class are never found to clash; that case is not modelled.
- CurrentGrid.ClassSlots: the grid query also joins courses, teachers and subjects; every row is taken to have its course, teacher and subject, and only the classroom join, which a NULL classroom breaks, is modelled.
- CurrentGrid.StartIndex: the grid matches a row's start against SLOT_TIMES by text; on zero-padded text that is the minute match modelled here.
- The random number generator: every random choice and shuffle of both `generate_timetable` versions is an input, and the properties hold for every choice.
- CurrentGenerate.GenerateTimetable: requires a lab room whenever a lab task exists. The source raises IndexError from `random.choice` on an empty list there, which is not modelled.
- CurrentEdit.ApiUpdate: the exception handler at app.py:410-411 is not modelled, because no statement of the model can fail.
- CurrentEdit.ApiUpdate: its no-double-booking guarantee needs the moved slot to belong to the class the request names. The UPDATE keeps `class_id`, so otherwise the class check is made for the wrong class (`CurrentEdit.MoveAcrossClassesCanClash`).
- ProtoEdit.ValidateChange: the weekly count includes the row being edited, as in the source (`ProtoEdit.WeeklyLimitBlocksMoves`).
- TimeFormat.ParseInt: `parseInt` is modelled on an optional sign and ASCII digits. Leading whitespace, hexadecimal prefixes and precision above 2^53 are not.
- TimeFormat.IntToString: numbers print as plain decimals; exponent notation for very large values is not modelled.
- TimeFormat.IsPm: `toUpperCase` is modelled on ASCII letters only.
