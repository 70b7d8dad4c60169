/** The attendance engine of pages/Dashboard.tsx: a sparse override map read through a
    default derivation (getAttendanceForDay), the edit layer (handleAttendanceChange) and
    the status cycle (handleStatusCycle). */
module Attendance {
  import opened Wrappers
  import opened Calendar
  import opened Clock

  /** 'P' | 'A' | 'L' | 'H' | '' of types.ts. */
  datatype Status = Present | Absent | Leave | Holiday | Unset

  datatype DailyAttendance = DailyAttendance(status: Status, inTime: string, outTime: string)

  /** Overrides: student id, then date, to a cell the user set or edited. */
  type AttendanceData = map<string, map<Date, DailyAttendance>>

  /** `{ status: '', inTime: '', outTime: '' }`, the cell of a Sunday or a holiday. */
  const EmptyCell := DailyAttendance(Unset, "", "")

  const InFrom := "09:00"
  const InUntil := "10:00"
  const OutFrom := "16:00"
  const OutUntil := "17:00"

  /** The two `Math.random` draws of one default cell, as minute offsets: `inPick` into
      [09:00, 10:00] and `outPick` into [16:00, 17:00], each range being 61 minutes wide. */
  datatype Draw = Draw(inPick: nat, outPick: nat)

  predicate ValidDraw(d: Draw) {
    d.inPick <= 60 && d.outPick <= 60
  }

  /** The text is a well-formed time within [lo, hi] minutes. */
  predicate TimeWithin(t: string, lo: nat, hi: nat) {
    ParseClock(t).Some? && lo <= ParseClock(t).value <= hi
  }

  lemma RangeBounds()
    ensures ParseClock(InFrom) == Some(540) && ParseClock(InUntil) == Some(600)
    ensures ParseClock(OutFrom) == Some(960) && ParseClock(OutUntil) == Some(1020)
  {
  }

  /** A present cell with freshly drawn in and out times. */
  function PresentCell(draw: Draw): (c: DailyAttendance)
    requires ValidDraw(draw)
    ensures c.status == Present
    ensures ParseClock(c.inTime) == Some(540 + draw.inPick)
    ensures ParseClock(c.outTime) == Some(960 + draw.outPick)
    ensures TimeWithin(c.inTime, 540, 600) && TimeWithin(c.outTime, 960, 1020)
  {
    RangeBounds();
    var inTime := RandomTimeInRange(InFrom, InUntil, draw.inPick);
    var outTime := RandomTimeInRange(OutFrom, OutUntil, draw.outPick);
    assert ParseClock(inTime) == Some(540 + draw.inPick);
    assert ParseClock(outTime) == Some(960 + draw.outPick);
    DailyAttendance(Present, inTime, outTime)
  }

  /** `liveAttendance[studentId]?.[dateStr]`. */
  function Override(data: AttendanceData, studentId: string, date: Date): (r: Option<DailyAttendance>)
    ensures r.Some? <==> studentId in data && date in data[studentId]
    ensures r.Some? ==> r.value == data[studentId][date]
  {
    if studentId in data && date in data[studentId] then Some(data[studentId][date]) else None
  }

  /** Neither a Sunday nor a declared holiday. */
  predicate IsWorkingDay(date: Date, holidays: set<Date>)
    requires 1 <= date.month <= 12
  {
    !IsSunday(date) && date !in holidays
  }

  /** getAttendanceForDay: an override wins; otherwise Sundays and holidays give the empty
      cell and every other day a present cell with drawn times. */
  function GetAttendanceForDay(data: AttendanceData, holidays: set<Date>, studentId: string,
                               date: Date, draw: Draw): (r: DailyAttendance)
    requires 1 <= date.month <= 12 && ValidDraw(draw)
    ensures Override(data, studentId, date).Some? ==> r == Override(data, studentId, date).value
    ensures Override(data, studentId, date).None? && !IsWorkingDay(date, holidays) ==> r == EmptyCell
    ensures Override(data, studentId, date).None? && IsWorkingDay(date, holidays) ==>
      r.status == Present && TimeWithin(r.inTime, 540, 600) && TimeWithin(r.outTime, 960, 1020)
  {
    match Override(data, studentId, date)
    case Some(cell) => cell
    case None =>
      if IsSunday(date) || date in holidays then EmptyCell else PresentCell(draw)
  }

  /** The status a (student, date) reads as: the draws only ever affect the times. */
  lemma {:induction false} StatusIgnoresDraw(data: AttendanceData, holidays: set<Date>, studentId: string,
                                             date: Date, d1: Draw, d2: Draw)
    requires 1 <= date.month <= 12 && ValidDraw(d1) && ValidDraw(d2)
    ensures GetAttendanceForDay(data, holidays, studentId, date, d1).status
         == GetAttendanceForDay(data, holidays, studentId, date, d2).status
    ensures Override(data, studentId, date).Some? || !IsWorkingDay(date, holidays) ==>
      GetAttendanceForDay(data, holidays, studentId, date, d1)
      == GetAttendanceForDay(data, holidays, studentId, date, d2)
  {
  }

  /** `field: keyof DailyAttendance` with its new `value`. */
  datatype Edit = SetStatus(status: Status) | SetInTime(inTime: string) | SetOutTime(outTime: string)

  /** The new cell of handleAttendanceChange, from the cell the date reads as: the field is set;
      a status edit then redraws both times for Present and clears them otherwise. */
  function EditCell(current: DailyAttendance, edit: Edit, redraw: Draw): (c: DailyAttendance)
    requires ValidDraw(redraw)
    ensures edit.SetStatus? && edit.status == Present ==> c == PresentCell(redraw)
    ensures edit.SetStatus? && edit.status != Present ==> c == DailyAttendance(edit.status, "", "")
    ensures edit.SetInTime? ==> c.inTime == edit.inTime && c.status == current.status && c.outTime == current.outTime
    ensures edit.SetOutTime? ==> c.outTime == edit.outTime && c.status == current.status && c.inTime == current.inTime
  {
    match edit
    case SetStatus(s) =>
      if s == Present then DailyAttendance(s, PresentCell(redraw).inTime, PresentCell(redraw).outTime)
      else DailyAttendance(s, "", "")
    case SetInTime(t) => current.(inTime := t)
    case SetOutTime(t) => current.(outTime := t)
  }

  /** handleAttendanceChange as a function of the overrides: only (studentId, date) changes, to
      the edited cell. `baseDraw` feeds the default the edit starts from, `redraw` the times a
      Present status edit draws. */
  function ApplyEdit(data: AttendanceData, holidays: set<Date>, studentId: string, date: Date,
                     edit: Edit, baseDraw: Draw, redraw: Draw): (r: AttendanceData)
    requires 1 <= date.month <= 12 && ValidDraw(baseDraw) && ValidDraw(redraw)
    ensures r.Keys == data.Keys + {studentId}
    ensures forall s :: s in data && s != studentId ==> r[s] == data[s]
    ensures studentId in data ==> r[studentId].Keys == data[studentId].Keys + {date}
    ensures studentId !in data ==> r[studentId].Keys == {date}
    ensures studentId in data ==>
      forall d :: d in data[studentId] && d != date ==> r[studentId][d] == data[studentId][d]
    ensures r[studentId][date] == EditCell(GetAttendanceForDay(data, holidays, studentId, date, baseDraw), edit, redraw)
  {
    Store(data, studentId, date, EditCell(GetAttendanceForDay(data, holidays, studentId, date, baseDraw), edit, redraw))
  }

  /** `updatedAttendance[studentId][dateStr] = cell` on the copy, creating the student's inner
      map when missing. */
  function Store(data: AttendanceData, studentId: string, date: Date, cell: DailyAttendance): (r: AttendanceData)
    ensures r.Keys == data.Keys + {studentId}
    ensures forall s :: s in data && s != studentId ==> r[s] == data[s]
    ensures studentId in data ==> r[studentId].Keys == data[studentId].Keys + {date}
    ensures studentId !in data ==> r[studentId].Keys == {date}
    ensures studentId in data ==>
      forall d :: d in data[studentId] && d != date ==> r[studentId][d] == data[studentId][d]
    ensures r[studentId][date] == cell
  {
    var inner := if studentId in data then data[studentId] else map[];
    data[studentId := inner[date := cell]]
  }

  /** After an edit, the date reads as the edited cell, whatever the draws. */
  lemma ReadBackEdit(data: AttendanceData, holidays: set<Date>, studentId: string, date: Date,
                     edit: Edit, baseDraw: Draw, redraw: Draw, readDraw: Draw)
    requires 1 <= date.month <= 12 && ValidDraw(baseDraw) && ValidDraw(redraw) && ValidDraw(readDraw)
    ensures GetAttendanceForDay(ApplyEdit(data, holidays, studentId, date, edit, baseDraw, redraw),
                                holidays, studentId, date, readDraw)
         == EditCell(GetAttendanceForDay(data, holidays, studentId, date, baseDraw), edit, redraw)
  {
  }

  /** Every other (student, date) reads as before, whatever the draws of the read. */
  lemma {:induction false} EditIsLocal(data: AttendanceData, holidays: set<Date>, studentId: string, date: Date,
                                       edit: Edit, baseDraw: Draw, redraw: Draw,
                                       otherStudent: string, otherDate: Date, readDraw: Draw)
    requires 1 <= date.month <= 12 && 1 <= otherDate.month <= 12
    requires ValidDraw(baseDraw) && ValidDraw(redraw) && ValidDraw(readDraw)
    requires otherStudent != studentId || otherDate != date
    ensures GetAttendanceForDay(ApplyEdit(data, holidays, studentId, date, edit, baseDraw, redraw),
                                holidays, otherStudent, otherDate, readDraw)
         == GetAttendanceForDay(data, holidays, otherStudent, otherDate, readDraw)
  {
    var r := ApplyEdit(data, holidays, studentId, date, edit, baseDraw, redraw);
    assert Override(r, otherStudent, otherDate) == Override(data, otherStudent, otherDate);
  }

  /** Applying the same edit twice gives what applying it once gives. A Present status edit
      draws its times again, so for it the second application must draw the same times. */
  lemma {:induction false} EditIdempotent(data: AttendanceData, holidays: set<Date>, studentId: string, date: Date,
                                          edit: Edit, baseDraw: Draw, redraw: Draw, baseDraw2: Draw, redraw2: Draw)
    requires 1 <= date.month <= 12
    requires ValidDraw(baseDraw) && ValidDraw(redraw) && ValidDraw(baseDraw2) && ValidDraw(redraw2)
    requires edit == SetStatus(Present) ==> redraw2 == redraw
    ensures var once := ApplyEdit(data, holidays, studentId, date, edit, baseDraw, redraw);
            ApplyEdit(once, holidays, studentId, date, edit, baseDraw2, redraw2) == once
  {
    var once := ApplyEdit(data, holidays, studentId, date, edit, baseDraw, redraw);
    var twice := ApplyEdit(once, holidays, studentId, date, edit, baseDraw2, redraw2);
    var cell := once[studentId][date];
    assert GetAttendanceForDay(once, holidays, studentId, date, baseDraw2) == cell;
    EditCellIdempotent(GetAttendanceForDay(data, holidays, studentId, date, baseDraw), edit, redraw, redraw2);
    var inner := once[studentId];
    assert twice == once[studentId := inner[date := cell]];
    UpdateSame(inner, date);
    UpdateSame(once, studentId);
  }

  /** Storing the value a key already has changes nothing. */
  lemma UpdateSame<K, V>(m: map<K, V>, k: K)
    requires k in m
    ensures m[k := m[k]] == m
  {
  }

  /** Editing an edited cell again with the same edit leaves it as it is. */
  lemma EditCellIdempotent(current: DailyAttendance, edit: Edit, redraw: Draw, redraw2: Draw)
    requires ValidDraw(redraw) && ValidDraw(redraw2)
    requires edit == SetStatus(Present) ==> redraw2 == redraw
    ensures EditCell(EditCell(current, edit, redraw), edit, redraw2) == EditCell(current, edit, redraw)
  {
  }

  /** `Array.prototype.indexOf`: the first position of `x`, or -1. */
  function IndexOf<T(==)>(s: seq<T>, x: T): (i: int)
    ensures -1 <= i < |s|
    ensures i == -1 <==> x !in s
    ensures 0 <= i ==> s[i] == x && x !in s[..i]
  {
    if s == [] then -1
    else if s[0] == x then 0
    else
      var j := IndexOf(s[1..], x);
      assert s[1..][..j + 1] == s[1..j + 2] || j == -1;
      if j == -1 then -1 else j + 1
  }

  /** The rotation of handleStatusCycle. */
  const StatusCycleOrder: seq<Status> := [Present, Absent, Leave]

  /** The status after a click: the next one of the rotation, or Present for a status
      outside it. */
  function CycleStatus(current: Status): (next: Status)
    ensures next in StatusCycleOrder
    ensures current == Present ==> next == Absent
    ensures current == Absent ==> next == Leave
    ensures current == Leave ==> next == Present
    ensures current !in StatusCycleOrder ==> next == Present
  {
    var i := IndexOf(StatusCycleOrder, current);
    var nextIndex := if i == -1 then 0 else (i + 1) % |StatusCycleOrder|;
    StatusCycleOrder[nextIndex]
  }

  /** Three clicks bring a status of the rotation back to itself. */
  lemma CycleHasPeriodThree(s: Status)
    requires s in StatusCycleOrder
    ensures CycleStatus(CycleStatus(CycleStatus(s))) == s
    ensures CycleStatus(s) != s
  {
  }

  /** handleStatusCycle: the date's status moves one step along the rotation. */
  function StatusCycle(data: AttendanceData, holidays: set<Date>, studentId: string, date: Date,
                       readDraw: Draw, baseDraw: Draw, redraw: Draw): (r: AttendanceData)
    requires 1 <= date.month <= 12 && ValidDraw(readDraw) && ValidDraw(baseDraw) && ValidDraw(redraw)
    ensures r.Keys == data.Keys + {studentId}
    ensures forall s :: s in data && s != studentId ==> r[s] == data[s]
    ensures studentId in data ==>
      forall d :: d in data[studentId] && d != date ==> d in r[studentId] && r[studentId][d] == data[studentId][d]
    ensures date in r[studentId]
    ensures r[studentId][date].status == CycleStatus(GetAttendanceForDay(data, holidays, studentId, date, readDraw).status)
  {
    var next := CycleStatus(GetAttendanceForDay(data, holidays, studentId, date, readDraw).status);
    ApplyEdit(data, holidays, studentId, date, SetStatus(next), baseDraw, redraw)
  }

  /** What a click on a status cell leaves in the overrides. */
  lemma StatusCycleCell(data: AttendanceData, holidays: set<Date>, studentId: string, date: Date,
                        readDraw: Draw, baseDraw: Draw, redraw: Draw)
    requires 1 <= date.month <= 12 && ValidDraw(readDraw) && ValidDraw(baseDraw) && ValidDraw(redraw)
    ensures var before := GetAttendanceForDay(data, holidays, studentId, date, readDraw).status;
            var after := StatusCycle(data, holidays, studentId, date, readDraw, baseDraw, redraw)[studentId][date];
            && after.status == CycleStatus(before)
            && (after.status == Present ==> TimeWithin(after.inTime, 540, 600) && TimeWithin(after.outTime, 960, 1020))
            && (after.status != Present ==> after.inTime == "" && after.outTime == "")
  {
  }

  /** The data-model invariant: a cell that is not Present has no times. */
  predicate TimesOnlyWhenPresent(c: DailyAttendance) {
    c.status != Present ==> c.inTime == "" && c.outTime == ""
  }

  ghost predicate AllTimesOnlyWhenPresent(data: AttendanceData) {
    forall s, d :: s in data && d in data[s] ==> TimesOnlyWhenPresent(data[s][d])
  }

  /** Edits keep the invariant, provided times are edited only on a cell that reads as
      Present: the sheet disables the time inputs of every other cell. */
  lemma {:induction false} EditKeepsTimesOnlyWhenPresent(data: AttendanceData, holidays: set<Date>, studentId: string,
                                                         date: Date, edit: Edit, baseDraw: Draw, redraw: Draw)
    requires 1 <= date.month <= 12 && ValidDraw(baseDraw) && ValidDraw(redraw)
    requires AllTimesOnlyWhenPresent(data)
    requires !edit.SetStatus? ==> GetAttendanceForDay(data, holidays, studentId, date, baseDraw).status == Present
    ensures AllTimesOnlyWhenPresent(ApplyEdit(data, holidays, studentId, date, edit, baseDraw, redraw))
  {
    var r := ApplyEdit(data, holidays, studentId, date, edit, baseDraw, redraw);
    forall s, d | s in r && d in r[s] ensures TimesOnlyWhenPresent(r[s][d]) {
      if s == studentId && d == date {
      } else if s == studentId {
        assert r[s][d] == data[s][d];
      } else {
        assert r[s] == data[s];
      }
    }
  }

  /** Without that guard the edit layer alone does not keep the invariant. */
  lemma TimeEditOnAbsentCell(date: Date, draw: Draw)
    requires 1 <= date.month <= 12 && ValidDraw(draw)
    ensures var data := map["s1" := map[date := DailyAttendance(Absent, "", "")]];
            && AllTimesOnlyWhenPresent(data)
            && !AllTimesOnlyWhenPresent(ApplyEdit(data, {}, "s1", date, SetInTime("09:30"), draw, draw))
  {
    var data := map["s1" := map[date := DailyAttendance(Absent, "", "")]];
    var r := ApplyEdit(data, {}, "s1", date, SetInTime("09:30"), draw, draw);
    assert r["s1"][date] == DailyAttendance(Absent, "09:30", "");
  }
}
