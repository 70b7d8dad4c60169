/** The stateful layer of pages/Dashboard.tsx: the Dashboard's collections, saved through the
    store one at a time, and the AttendanceManager's working copy of the overrides, with the
    handlers that change them. */
module Dashboard {
  import opened Wrappers
  import opened Calendar
  import opened Clock
  import opened Records
  import opened Attendance
  import opened Sheet
  import opened Summary
  import opened Holidays
  import opened Classes
  import opened StudentImport
  import opened Text

  /** The collections the Dashboard holds after loading them from the store. */
  class App {
    var classes: seq<ClassInfo>
    var students: seq<Student>
    var holidays: seq<Holiday>
    var attendance: AttendanceData

    constructor (classes: seq<ClassInfo>, students: seq<Student>, holidays: seq<Holiday>, attendance: AttendanceData)
      ensures this.classes == classes && this.students == students
      ensures this.holidays == holidays && this.attendance == attendance
    {
      this.classes := classes;
      this.students := students;
      this.holidays := holidays;
      this.attendance := attendance;
    }

    /** handleSaveStudents. */
    method SaveStudents(updated: seq<Student>)
      modifies this
      ensures students == updated
      ensures classes == old(classes) && holidays == old(holidays) && attendance == old(attendance)
    {
      students := updated;
    }

    /** handleSaveHolidays. */
    method SaveHolidays(updated: seq<Holiday>)
      modifies this
      ensures holidays == updated
      ensures classes == old(classes) && students == old(students) && attendance == old(attendance)
    {
      holidays := updated;
    }

    /** handleSaveAttendance of the Dashboard. */
    method SaveAttendance(data: AttendanceData)
      modifies this
      ensures attendance == data
      ensures classes == old(classes) && students == old(students) && holidays == old(holidays)
    {
      attendance := data;
    }

    /** handleSaveClasses: when a class went, the students are saved first without its
        members; then the new class list is saved. */
    method SaveClasses(updated: seq<ClassInfo>)
      modifies this
      ensures classes == updated
      ensures students == StudentsAfter(old(students), Classes.SaveClasses(old(classes), old(students), updated))
      ensures holidays == old(holidays) && attendance == old(attendance)
    {
      var deletedClassIds := DeletedClassIds(classes, updated);
      if |deletedClassIds| > 0 {
        var updatedStudents := CascadeStudents(students, deletedClassIds);
        SaveStudents(updatedStudents);
      }
      classes := updated;
    }

    /** ClassManager handleSave followed by the save. */
    method SaveClassForm(form: ClassForm, freshId: string)
      modifies this
      ensures SaveClass(old(classes), form, freshId).None? ==> classes == old(classes)
      ensures SaveClass(old(classes), form, freshId).Some? ==> classes == SaveClass(old(classes), form, freshId).value
      ensures students == old(students) && holidays == old(holidays) && attendance == old(attendance)
    {
      var updated := SaveClass(classes, form, freshId);
      if updated.Some? {
        SaveClassKeepsStudents(classes, students, form, freshId);
        SaveClasses(updated.value);
      }
    }

    /** ClassManager handleDelete followed by the save: with confirmation the class and all
        its students go. */
    method DeleteClassConfirmed(id: string, confirmed: bool)
      modifies this
      ensures !confirmed ==> classes == old(classes) && students == old(students)
      ensures confirmed ==> classes == DeleteClass(old(classes), id, true).value
      ensures confirmed ==> forall s :: s in old(students) ==>
        (s in students <==> s.classId != id || !HasClass(old(classes), id))
      ensures confirmed && HasClass(old(classes), id) ==> students == CascadeStudents(old(students), [id])
      ensures confirmed && !HasClass(old(classes), id) ==> students == old(students)
      ensures forall s :: s in students ==> s in old(students)
      ensures holidays == old(holidays) && attendance == old(attendance)
    {
      var updated := DeleteClass(classes, id, confirmed);
      if updated.Some? {
        DeleteClassCascade(classes, students, id);
        DeleteClassCascadeExact(classes, students, id);
        CascadeRemovesExactly(classes, students, updated.value);
        SaveClasses(updated.value);
      }
    }

    /** HolidayManager handleSave followed by the save. */
    method SaveHolidayForm(form: HolidayForm, freshId: string)
      modifies this
      ensures SaveHoliday(old(holidays), form, freshId).None? ==> holidays == old(holidays)
      ensures SaveHoliday(old(holidays), form, freshId).Some? ==> holidays == SaveHoliday(old(holidays), form, freshId).value
      ensures classes == old(classes) && students == old(students) && attendance == old(attendance)
    {
      var updated := SaveHoliday(holidays, form, freshId);
      if updated.Some? {
        SaveHolidays(updated.value);
      }
    }

    /** HolidayManager handleDelete followed by the save. */
    method DeleteHolidayConfirmed(id: string, confirmed: bool)
      modifies this
      ensures holidays == (if confirmed then RemoveHoliday(old(holidays), id) else old(holidays))
      ensures classes == old(classes) && students == old(students) && attendance == old(attendance)
    {
      var updated := DeleteHoliday(holidays, id, confirmed);
      if updated.Some? {
        SaveHolidays(updated.value);
      }
    }

    /** handleFileUpload in the StudentManager of class `classId`: on success the students
        are saved and the number added is reported; otherwise the error alert and no save. */
    method ImportCsv(text: string, classId: string, freshId: nat -> string) returns (r: Result<nat, string>)
      modifies this
      ensures var imported := ImportStudents(text, classId, old(students), freshId);
              && (imported.Failure? ==> r == Failure(ParseError) && students == old(students))
              && (imported.Success? ==> students == imported.value
                                        && r == Success(|imported.value| - |old(students)|))
      ensures classes == old(classes) && holidays == old(holidays) && attendance == old(attendance)
    {
      var imported := ImportStudents(text, classId, students, freshId);
      if imported.Success? {
        var added := |imported.value| - |students|;
        SaveStudents(imported.value);
        r := Success(added);
      } else {
        r := Failure(imported.error);
      }
    }
  }

  /** The AttendanceManager: a working copy of the overrides, edited locally and saved on
      request, and the generated sheet. */
  class AttendanceManager {
    const app: App
    var live: AttendanceData
    var sheet: Option<SheetData>
    var currentMonthIndex: nat

    constructor (app: App)
      ensures this.app == app && live == app.attendance && sheet == None && currentMonthIndex == 0
    {
      this.app := app;
      live := app.attendance;
      sheet := None;
      currentMonthIndex := 0;
    }

    /** handleAttendanceChange: a copy of the overrides gets the merged cell at
        (studentId, date), a status edit forcing the times; the copy becomes the live data.
        `baseDraw` feeds the default cell the edit starts from, `redraw` a Present edit. */
    method HandleAttendanceChange(studentId: string, date: Date, edit: Edit, baseDraw: Draw, redraw: Draw)
      requires 1 <= date.month <= 12 && ValidDraw(baseDraw) && ValidDraw(redraw)
      modifies this
      ensures live == ApplyEdit(old(live), HolidaySet(app.holidays), studentId, date, edit, baseDraw, redraw)
      ensures sheet == old(sheet) && currentMonthIndex == old(currentMonthIndex)
    {
      var updatedAttendance := live;
      var baseData := GetAttendanceForDay(live, HolidaySet(app.holidays), studentId, date, baseDraw);
      if studentId !in updatedAttendance {
        updatedAttendance := updatedAttendance[studentId := map[]];
      }
      var newDailyData := match edit
        case SetStatus(s) => baseData.(status := s)
        case SetInTime(t) => baseData.(inTime := t)
        case SetOutTime(t) => baseData.(outTime := t);
      if edit.SetStatus? {
        if edit.status == Present {
          var drawn := PresentCell(redraw);
          newDailyData := newDailyData.(inTime := drawn.inTime, outTime := drawn.outTime);
        } else {
          newDailyData := newDailyData.(inTime := "", outTime := "");
        }
      }
      assert newDailyData == EditCell(baseData, edit, redraw);
      ghost var inner := if studentId in live then live[studentId] else map[];
      assert updatedAttendance[studentId] == inner;
      updatedAttendance := updatedAttendance[studentId := updatedAttendance[studentId][date := newDailyData]];
      assert updatedAttendance == live[studentId := inner[date := newDailyData]];
      live := updatedAttendance;
    }

    /** handleStatusCycle: one step along the rotation, applied as a status edit. */
    method HandleStatusCycle(studentId: string, date: Date, readDraw: Draw, baseDraw: Draw, redraw: Draw)
      requires 1 <= date.month <= 12 && ValidDraw(readDraw) && ValidDraw(baseDraw) && ValidDraw(redraw)
      modifies this
      ensures live == StatusCycle(old(live), HolidaySet(app.holidays), studentId, date, readDraw, baseDraw, redraw)
      ensures sheet == old(sheet) && currentMonthIndex == old(currentMonthIndex)
    {
      var currentStatus := GetAttendanceForDay(live, HolidaySet(app.holidays), studentId, date, readDraw).status;
      var nextStatus := CycleStatus(currentStatus);
      HandleAttendanceChange(studentId, date, SetStatus(nextStatus), baseDraw, redraw);
    }

    /** handleGenerateSheet: with a class and both months chosen, the sheet is replaced and
        the first month shown; otherwise nothing changes. */
    method HandleGenerateSheet(selectedClassId: string, startMonth: Option<YearMonth>, endMonth: Option<YearMonth>)
      requires startMonth.Some? ==> ValidYearMonth(startMonth.value)
      requires endMonth.Some? ==> ValidYearMonth(endMonth.value)
      modifies this
      ensures selectedClassId == "" || startMonth.None? || endMonth.None? ==>
        sheet == old(sheet) && currentMonthIndex == old(currentMonthIndex)
      ensures selectedClassId != "" && startMonth.Some? && endMonth.Some? ==>
        && sheet.Some?
        && sheet.value.students == ClassRoster(app.students, selectedClassId)
        && |sheet.value.months| == MonthSpan(startMonth.value, endMonth.value)
        && (forall i :: 0 <= i < |sheet.value.months| ==>
              sheet.value.months[i] == DescriptorOf(MonthAt(MonthIndex(startMonth.value) + i)))
        && currentMonthIndex == 0
      ensures live == old(live)
    {
      var generated := GenerateSheet(selectedClassId, startMonth, endMonth, app.students);
      if generated.Some? {
        sheet := generated;
        currentMonthIndex := 0;
      }
    }

    /** getMonthlySummary of one student over one month of the sheet, on the live data. */
    method MonthlySummaryOf(studentId: string, month: MonthDescriptor, draw: Draw) returns (s: MonthlySummary)
      requires 0 <= month.month < 12 && ValidDraw(draw)
      ensures sheet.None? ==> s == MonthlySummary(0, 0, 0, 0, 0.0)
      ensures sheet.Some? ==> s == SummaryOf(Tally(live, HolidaySet(app.holidays), studentId, month.year, month.month, month.days))
      ensures s.present + s.absent + s.leave <= s.workingDays
      ensures 0.0 <= s.percentage <= 100.0
    {
      s := GetMonthlySummary(live, HolidaySet(app.holidays), studentId, month, sheet.Some?, draw);
      TallyBounded(live, HolidaySet(app.holidays), studentId, month.year, month.month, month.days);
      PercentageBounds(s.present, s.workingDays);
    }

    /** handleDateHeaderClick: the holiday on the date is removed after confirmation, or a
        holiday named by the prompt is added; the Dashboard saves the new list. */
    method HandleDateHeaderClick(date: Date, confirmed: bool, answer: Option<string>, freshId: string)
      modifies app
      ensures var r := DateHeaderClick(old(app.holidays), date, confirmed, answer, freshId);
              app.holidays == if r.Some? then r.value else old(app.holidays)
      ensures app.classes == old(app.classes) && app.students == old(app.students)
      ensures app.attendance == old(app.attendance)
    {
      var holidays := app.holidays;
      HeaderClickByIndex(holidays, date, confirmed, answer, freshId);
      var i := FindIndexByDate(holidays, date);
      if i >= 0 {
        if confirmed {
          app.SaveHolidays(RemoveHoliday(holidays, holidays[i].id));
        }
      } else if answer.Some? && answer.value != "" && Trim(answer.value) != "" {
        var newHoliday := Records.Holiday(freshId, date, Trim(answer.value));
        app.SaveHolidays(AddHoliday(holidays, newHoliday));
      }
    }

    /** handleSaveAttendance: the live overrides are saved as the Dashboard's attendance. */
    method HandleSaveAttendance()
      modifies app
      ensures app.attendance == live
      ensures app.classes == old(app.classes) && app.students == old(app.students) && app.holidays == old(app.holidays)
    {
      app.SaveAttendance(live);
    }
  }
}
