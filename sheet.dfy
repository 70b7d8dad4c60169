/** The sheet builder of pages/Dashboard.tsx (handleGenerateSheet): the class roster in
    name order and one month descriptor per calendar month of the chosen range. */
module Sheet {
  import opened Wrappers
  import opened Calendar
  import opened Records
  import opened Ordering

  /** `{ year, month, monthName, days }`; `month` is 0-based, the name is not modelled. */
  datatype MonthDescriptor = MonthDescriptor(year: int, month: int, days: seq<int>)

  datatype SheetData = SheetData(students: seq<Student>, months: seq<MonthDescriptor>)

  /** `Array.from({ length: n }, (_, i) => i + 1)`. */
  function DaysList(n: nat): (days: seq<int>)
    ensures |days| == n
    ensures forall i :: 0 <= i < n ==> days[i] == i + 1
  {
    seq(n, i => i + 1)
  }

  /** The descriptor pushed for the month `ym`. */
  function DescriptorOf(ym: YearMonth): (m: MonthDescriptor)
    requires ValidYearMonth(ym)
    ensures m.year == ym.year && m.month == ym.month
    ensures m.days == DaysList(DaysInMonth(ym.year, ym.month + 1))
  {
    MonthDescriptor(ym.year, ym.month, DaysList(DaysInMonth(ym.year, ym.month + 1)))
  }

  /** Number of months from `start` to `last` inclusive; none when `start` is later. */
  function MonthSpan(start: YearMonth, last: YearMonth): nat {
    if MonthIndex(start) <= MonthIndex(last) then MonthIndex(last) - MonthIndex(start) + 1 else 0
  }

  /** The month loop of handleGenerateSheet: from `start` while not after `last`, one month at
      a time. It yields every month from `start` to `last` inclusive, in order, and nothing
      when `start` is after `last`. */
  method MonthsBetween(start: YearMonth, last: YearMonth) returns (months: seq<MonthDescriptor>)
    requires ValidYearMonth(start) && ValidYearMonth(last)
    ensures |months| == MonthSpan(start, last)
    ensures forall i :: 0 <= i < |months| ==> months[i] == DescriptorOf(MonthAt(MonthIndex(start) + i))
    ensures |months| > 0 ==> months[0] == DescriptorOf(start)
    ensures |months| > 0 ==> months[|months| - 1] == DescriptorOf(last)
    ensures forall i :: 0 <= i < |months| - 1 ==>
      MonthIndex(YearMonth(months[i + 1].year, months[i + 1].month)) == MonthIndex(YearMonth(months[i].year, months[i].month)) + 1
  {
    months := [];
    var current := start;
    MonthAtIndex(start);
    while MonthIndex(current) <= MonthIndex(last)
      invariant ValidYearMonth(current)
      invariant MonthIndex(current) == MonthIndex(start) + |months|
      invariant |months| == 0 || MonthIndex(current) <= MonthIndex(last) + 1
      invariant forall i :: 0 <= i < |months| ==> months[i] == DescriptorOf(MonthAt(MonthIndex(start) + i))
      decreases MonthIndex(last) - MonthIndex(current)
    {
      MonthAtIndex(current);
      months := months + [DescriptorOf(current)];
      current := NextMonth(current);
    }
    if |months| > 0 {
      MonthAtIndex(last);
    }
  }

  /** Character codes of a name: `localeCompare` is modelled by code-point order. */
  function NameKey(s: Student): seq<int> {
    seq(|s.name|, i requires 0 <= i < |s.name| => s.name[i] as int)
  }

  /** The students of the class, ordered by name. */
  function ClassRoster(students: seq<Student>, classId: string): (roster: seq<Student>)
    ensures SortedBy(roster, NameKey)
    ensures multiset(roster) == multiset(Filter(students, (s: Student) => s.classId == classId))
    ensures forall i :: 0 <= i < |roster| ==> roster[i].classId == classId && roster[i] in students
    ensures forall i :: 0 <= i < |students| && students[i].classId == classId ==> students[i] in roster
  {
    var members := Filter(students, (s: Student) => s.classId == classId);
    var roster := SortBy(members, NameKey);
    SameMembers(roster, members);
    roster
  }

  /** Students of the class with the same name keep their order in the student list. */
  lemma RosterStable(students: seq<Student>, classId: string, name: seq<int>)
    ensures WithKey(ClassRoster(students, classId), NameKey, name)
         == WithKey(Filter(students, (s: Student) => s.classId == classId), NameKey, name)
  {
    SortByStable(Filter(students, (s: Student) => s.classId == classId), NameKey, name);
  }

  /** handleGenerateSheet: refused (no sheet) unless a class and both months are chosen. */
  method GenerateSheet(selectedClassId: string, startMonth: Option<YearMonth>, endMonth: Option<YearMonth>,
                       students: seq<Student>) returns (r: Option<SheetData>)
    requires startMonth.Some? ==> ValidYearMonth(startMonth.value)
    requires endMonth.Some? ==> ValidYearMonth(endMonth.value)
    ensures r.None? <==> selectedClassId == "" || startMonth.None? || endMonth.None?
    ensures r.Some? ==> r.value.students == ClassRoster(students, selectedClassId)
    ensures r.Some? ==> |r.value.months| == MonthSpan(startMonth.value, endMonth.value)
    ensures r.Some? ==> forall i :: 0 <= i < |r.value.months| ==>
      r.value.months[i] == DescriptorOf(MonthAt(MonthIndex(startMonth.value) + i))
  {
    if selectedClassId == "" || startMonth.None? || endMonth.None? {
      return None;
    }
    var roster := ClassRoster(students, selectedClassId);
    var months := MonthsBetween(startMonth.value, endMonth.value);
    r := Some(SheetData(roster, months));
  }
}
