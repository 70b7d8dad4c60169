/** The flat records of types.ts that the attendance engine reads. */
module Records {
  import opened Calendar

  datatype ClassInfo = ClassInfo(id: string, name: string)

  /** `id` is the internal identity; `studentId` the identifier shown to users. */
  datatype Student = Student(id: string, studentId: string, name: string,
                             fatherName: string, motherName: string, classId: string)

  /** A declared holiday; `date` is the calendar date its "YYYY-MM-DD" text denotes. */
  datatype Holiday = Holiday(id: string, date: Date, name: string)

  /** `holidaySet`: the dates on which some holiday is declared. */
  function HolidaySet(holidays: seq<Holiday>): (dates: set<Date>)
    ensures forall h :: h in holidays ==> h.date in dates
    ensures forall d :: d in dates ==> exists h :: h in holidays && h.date == d
  {
    set h | h in holidays :: h.date
  }
}
