/** The monthly summary of pages/Dashboard.tsx (getMonthlySummary): working days of a month
    and the Present/Absent/Leave counts of one student over them. */
module Summary {
  import opened Calendar
  import opened Attendance
  import opened Sheet

  /** `percentage` is the exact ratio; its two-decimal text is not modelled. */
  datatype MonthlySummary = MonthlySummary(present: nat, absent: nat, leave: nat, workingDays: nat, percentage: real)

  datatype Counts = Counts(present: nat, absent: nat, leave: nat, workingDays: nat)

  /** The status a date reads as: an override's status, Unset on a rest day, Present on a
      working day. */
  function StatusOn(data: AttendanceData, holidays: set<Date>, studentId: string, date: Date): (st: Status)
    requires 1 <= date.month <= 12
    ensures (st == Absent || st == Leave || st == Holiday) ==> Override(data, studentId, date).Some?
    ensures Override(data, studentId, date).None? ==> (st == Present <==> IsWorkingDay(date, holidays))
  {
    match Override(data, studentId, date)
    case Some(cell) => cell.status
    case None => if IsWorkingDay(date, holidays) then Present else Unset
  }

  /** Whatever times are drawn, getAttendanceForDay yields a cell with the status StatusOn
      names. */
  lemma StatusOnIsRead(data: AttendanceData, holidays: set<Date>, studentId: string, date: Date, draw: Draw)
    requires 1 <= date.month <= 12 && ValidDraw(draw)
    ensures GetAttendanceForDay(data, holidays, studentId, date, draw).status == StatusOn(data, holidays, studentId, date)
  {
  }

  /** The counters after one more working day whose cell reads `st`. */
  function Bump(c: Counts, st: Status): (r: Counts)
    ensures r.workingDays == c.workingDays + 1
    ensures r.present + r.absent + r.leave == c.present + c.absent + c.leave + (if st in {Present, Absent, Leave} then 1 else 0)
    ensures r.present >= c.present && r.absent >= c.absent && r.leave >= c.leave
  {
    Counts(c.present + (if st == Present then 1 else 0),
           c.absent + (if st == Absent then 1 else 0),
           c.leave + (if st == Leave then 1 else 0),
           c.workingDays + 1)
  }

  /** The counters after the given days of month `month0` (0-based) of `year`, left to right. */
  function Tally(data: AttendanceData, holidays: set<Date>, studentId: string,
                 year: int, month0: int, days: seq<int>): (c: Counts)
    requires 0 <= month0 < 12
    ensures c.workingDays <= |days|
    decreases |days|
  {
    if days == [] then Counts(0, 0, 0, 0)
    else
      var c := Tally(data, holidays, studentId, year, month0, days[..|days| - 1]);
      var date := Date(year, month0 + 1, days[|days| - 1]);
      if IsWorkingDay(date, holidays) then Bump(c, StatusOn(data, holidays, studentId, date)) else c
  }

  lemma TallyStep(data: AttendanceData, holidays: set<Date>, studentId: string,
                  year: int, month0: int, days: seq<int>, i: nat)
    requires 0 <= month0 < 12 && i < |days|
    ensures var c := Tally(data, holidays, studentId, year, month0, days[..i]);
            var date := Date(year, month0 + 1, days[i]);
            Tally(data, holidays, studentId, year, month0, days[..i + 1])
            == if IsWorkingDay(date, holidays) then Bump(c, StatusOn(data, holidays, studentId, date)) else c
  {
    assert days[..i + 1][..i] == days[..i];
  }

  /** The body of the `forEach` of getMonthlySummary for one date: a working day is counted,
      and so is the status its cell reads as. */
  method CountDay(data: AttendanceData, holidays: set<Date>, studentId: string, date: Date, draw: Draw,
                  present0: nat, absent0: nat, leave0: nat, workingDays0: nat)
    returns (present: nat, absent: nat, leave: nat, workingDays: nat)
    requires 1 <= date.month <= 12 && ValidDraw(draw)
    ensures var c := Counts(present0, absent0, leave0, workingDays0);
            Counts(present, absent, leave, workingDays)
            == if IsWorkingDay(date, holidays) then Bump(c, StatusOn(data, holidays, studentId, date)) else c
  {
    present, absent, leave, workingDays := present0, absent0, leave0, workingDays0;
    if IsWorkingDay(date, holidays) {
      workingDays := workingDays + 1;
      var daily := GetAttendanceForDay(data, holidays, studentId, date, draw);
      StatusOnIsRead(data, holidays, studentId, date, draw);
      var status := daily.status;
      if status == Present {
        present := present + 1;
      } else if status == Absent {
        absent := absent + 1;
      } else if status == Leave {
        leave := leave + 1;
      }
    }
  }

  /** One more day of the loop of getMonthlySummary keeps its counters equal to Tally. */
  lemma TallyAdvance(data: AttendanceData, holidays: set<Date>, studentId: string,
                     year: int, month0: int, days: seq<int>, i: nat, before: Counts, after: Counts)
    requires 0 <= month0 < 12 && i < |days|
    requires before == Tally(data, holidays, studentId, year, month0, days[..i])
    requires var date := Date(year, month0 + 1, days[i]);
             after == if IsWorkingDay(date, holidays) then Bump(before, StatusOn(data, holidays, studentId, date)) else before
    ensures after == Tally(data, holidays, studentId, year, month0, days[..i + 1])
  {
    TallyStep(data, holidays, studentId, year, month0, days, i);
  }

  /** `present / workingDays * 100`, or 0 without working days. */
  function Percentage(present: nat, workingDays: nat): real {
    if workingDays > 0 then present as real / workingDays as real * 100.0 else 0.0
  }

  function SummaryOf(c: Counts): MonthlySummary {
    MonthlySummary(c.present, c.absent, c.leave, c.workingDays, Percentage(c.present, c.workingDays))
  }

  /** getMonthlySummary: without a generated sheet all zeros; otherwise the counters over the
      days of the month. `draw` stands for the random times of default cells, which the
      counters never read. */
  method GetMonthlySummary(data: AttendanceData, holidays: set<Date>, studentId: string,
                           month: MonthDescriptor, hasSheet: bool, draw: Draw) returns (s: MonthlySummary)
    requires 0 <= month.month < 12 && ValidDraw(draw)
    ensures !hasSheet ==> s == MonthlySummary(0, 0, 0, 0, 0.0)
    ensures hasSheet ==> s == SummaryOf(Tally(data, holidays, studentId, month.year, month.month, month.days))
  {
    if !hasSheet {
      return MonthlySummary(0, 0, 0, 0, 0.0);
    }
    var present, absent, leave, workingDays := 0, 0, 0, 0;
    for i := 0 to |month.days|
      invariant Counts(present, absent, leave, workingDays)
             == Tally(data, holidays, studentId, month.year, month.month, month.days[..i])
    {
      var date := Date(month.year, month.month + 1, month.days[i]);
      ghost var before := Counts(present, absent, leave, workingDays);
      present, absent, leave, workingDays := CountDay(data, holidays, studentId, date, draw,
                                                      present, absent, leave, workingDays);
      TallyAdvance(data, holidays, studentId, month.year, month.month, month.days, i,
                   before, Counts(present, absent, leave, workingDays));
    }
    assert month.days[..|month.days|] == month.days;
    var percentage := if workingDays > 0 then present as real / workingDays as real * 100.0 else 0.0;
    s := MonthlySummary(present, absent, leave, workingDays, percentage);
  }

  /** Each counted status is a working day: P + A + L never exceeds the working days. */
  lemma {:induction false} TallyBounded(data: AttendanceData, holidays: set<Date>, studentId: string,
                                        year: int, month0: int, days: seq<int>)
    requires 0 <= month0 < 12
    ensures var c := Tally(data, holidays, studentId, year, month0, days);
            c.present + c.absent + c.leave <= c.workingDays
    decreases |days|
  {
    if days != [] {
      TallyBounded(data, holidays, studentId, year, month0, days[..|days| - 1]);
    }
  }

  /** The percentage lies between 0 and 100. */
  lemma PercentageBounds(present: nat, workingDays: nat)
    requires present <= workingDays
    ensures 0.0 <= Percentage(present, workingDays) <= 100.0
  {
    if workingDays > 0 {
      assert present as real / workingDays as real <= 1.0;
    }
  }

  ghost predicate Distinct(days: seq<int>) {
    forall i, j :: 0 <= i < j < |days| ==> days[i] != days[j]
  }

  /** What a counter counts: working days, or working days whose cell has one status. */
  datatype Counter = WorkingDays | PresentDays | AbsentDays | LeaveDays

  function CounterValue(c: Counts, k: Counter): nat {
    match k
    case WorkingDays => c.workingDays
    case PresentDays => c.present
    case AbsentDays => c.absent
    case LeaveDays => c.leave
  }

  /** Day `day` of month `month0` (0-based) of `year` is one the counter `k` counts. */
  ghost predicate CountedBy(data: AttendanceData, holidays: set<Date>, studentId: string,
                            year: int, month0: int, day: int, k: Counter)
    requires 0 <= month0 < 12
  {
    var date := Date(year, month0 + 1, day);
    IsWorkingDay(date, holidays) &&
    match k
    case WorkingDays => true
    case PresentDays => StatusOn(data, holidays, studentId, date) == Present
    case AbsentDays => StatusOn(data, holidays, studentId, date) == Absent
    case LeaveDays => StatusOn(data, holidays, studentId, date) == Leave
  }

  ghost function CountedSet(data: AttendanceData, holidays: set<Date>, studentId: string,
                            year: int, month0: int, days: seq<int>, k: Counter): set<int>
    requires 0 <= month0 < 12
  {
    set d | d in days && CountedBy(data, holidays, studentId, year, month0, d, k)
  }

  /** On distinct days, each counter is the number of days it is about. */
  lemma {:induction false} TallyIsCardinality(data: AttendanceData, holidays: set<Date>, studentId: string,
                                              year: int, month0: int, days: seq<int>, k: Counter)
    requires 0 <= month0 < 12 && Distinct(days)
    ensures CounterValue(Tally(data, holidays, studentId, year, month0, days), k)
         == |CountedSet(data, holidays, studentId, year, month0, days, k)|
    decreases |days|
  {
    if days == [] {
      assert CountedSet(data, holidays, studentId, year, month0, days, k) == {};
    } else {
      var init, last := days[..|days| - 1], days[|days| - 1];
      assert days == init + [last];
      assert Distinct(init) by {
        forall i, j | 0 <= i < j < |init| ensures init[i] != init[j] {
          assert init[i] == days[i] && init[j] == days[j];
        }
      }
      TallyIsCardinality(data, holidays, studentId, year, month0, init, k);
      assert last !in init by {
        forall i | 0 <= i < |init| ensures init[i] != last {
          assert days[i] == init[i];
        }
      }
      CountedSetSnoc(data, holidays, studentId, year, month0, init, last, k);
      assert last !in CountedSet(data, holidays, studentId, year, month0, init, k);
      TallyCounterStep(data, holidays, studentId, year, month0, days, k);
    }
  }

  /** One more day adds at most that day to what a counter is about. */
  lemma CountedSetSnoc(data: AttendanceData, holidays: set<Date>, studentId: string,
                       year: int, month0: int, init: seq<int>, last: int, k: Counter)
    requires 0 <= month0 < 12
    ensures CountedSet(data, holidays, studentId, year, month0, init + [last], k)
         == CountedSet(data, holidays, studentId, year, month0, init, k)
            + (if CountedBy(data, holidays, studentId, year, month0, last, k) then {last} else {})
  {
    assert forall d :: d in init + [last] <==> d in init || d == last;
  }

  /** One more day adds one to a counter exactly when the counter is about that day. */
  lemma TallyCounterStep(data: AttendanceData, holidays: set<Date>, studentId: string,
                         year: int, month0: int, days: seq<int>, k: Counter)
    requires 0 <= month0 < 12 && days != []
    ensures CounterValue(Tally(data, holidays, studentId, year, month0, days), k)
         == CounterValue(Tally(data, holidays, studentId, year, month0, days[..|days| - 1]), k)
            + (if CountedBy(data, holidays, studentId, year, month0, days[|days| - 1], k) then 1 else 0)
  {
  }

  /** The working days of a month are the days 1..daysInMonth that are neither Sundays
      nor holidays; each status counter is the number of them whose cell has that status. */
  lemma MonthTallyIsCardinality(data: AttendanceData, holidays: set<Date>, studentId: string,
                                ym: YearMonth, k: Counter)
    requires ValidYearMonth(ym)
    ensures CounterValue(Tally(data, holidays, studentId, ym.year, ym.month, DescriptorOf(ym).days), k)
         == |set d | 1 <= d <= DaysInMonth(ym.year, ym.month + 1) && CountedBy(data, holidays, studentId, ym.year, ym.month, d, k)|
  {
    var n := DaysInMonth(ym.year, ym.month + 1);
    var days := DaysList(n);
    TallyIsCardinality(data, holidays, studentId, ym.year, ym.month, days, k);
    forall d | 1 <= d <= n ensures d in days {
      assert days[d - 1] == d;
    }
    assert CountedSet(data, holidays, studentId, ym.year, ym.month, days, k)
        == (set d | 1 <= d <= n && CountedBy(data, holidays, studentId, ym.year, ym.month, d, k));
  }

  /** Overrides stored on Sundays or holidays never reach the summary: two override maps that
      agree on the working days give the same counters. */
  lemma {:induction false} RestDayOverridesIgnored(data1: AttendanceData, data2: AttendanceData, holidays: set<Date>,
                                                   studentId: string, year: int, month0: int, days: seq<int>)
    requires 0 <= month0 < 12
    requires forall d :: d in days && IsWorkingDay(Date(year, month0 + 1, d), holidays) ==>
      Override(data1, studentId, Date(year, month0 + 1, d)) == Override(data2, studentId, Date(year, month0 + 1, d))
    ensures Tally(data1, holidays, studentId, year, month0, days) == Tally(data2, holidays, studentId, year, month0, days)
    decreases |days|
  {
    if days != [] {
      var init := days[..|days| - 1];
      assert forall d :: d in init ==> d in days;
      assert days[|days| - 1] in days;
      RestDayOverridesIgnored(data1, data2, holidays, studentId, year, month0, init);
    }
  }
}
