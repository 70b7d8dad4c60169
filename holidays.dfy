/** Holiday maintenance of pages/Dashboard.tsx: the date-header toggle of the attendance sheet
    (handleDateHeaderClick) and the HolidayManager form (handleSave / handleDelete). Every
    update keeps the list sorted by date, ascending. */
module Holidays {
  import opened Wrappers
  import opened Calendar
  import opened Records
  import opened Ordering
  import opened Text

  /** The sort key of a holiday: its date as (year, month, day). */
  function DateKey(h: Holiday): seq<int> {
    [h.date.year, h.date.month, h.date.day]
  }

  /** Sorting by DateKey is sorting by `new Date(date).getTime()`, which grows with the day
      number. */
  lemma DateKeyOrder(a: Holiday, b: Holiday)
    requires ValidDate(a.date) && ValidDate(b.date)
    ensures LexLe(DateKey(a), DateKey(b)) <==> DayNumber(a.date) <= DayNumber(b.date)
  {
    var ka, kb := DateKey(a), DateKey(b);
    assert LexLe(ka, kb) == if a.date.year != b.date.year then a.date.year < b.date.year else LexLe(ka[1..], kb[1..]);
    assert LexLe(ka[1..], kb[1..]) == if a.date.month != b.date.month then a.date.month < b.date.month
                                      else LexLe(ka[1..][1..], kb[1..][1..]);
    assert LexLe(ka[1..][1..], kb[1..][1..]) == if a.date.day != b.date.day then a.date.day < b.date.day
                                                else LexLe(ka[1..][1..][1..], kb[1..][1..][1..]);
    assert ka[1..][1..][1..] == [];
    if Before(a.date, b.date) {
      DayNumberMonotone(a.date, b.date);
    } else if Before(b.date, a.date) {
      DayNumberMonotone(b.date, a.date);
    }
  }

  /** The list is sorted as handleSave and handleDateHeaderClick leave it. */
  ghost predicate SortedByDate(holidays: seq<Holiday>) {
    SortedBy(holidays, DateKey)
  }

  /** Position of `holidays.find(h => h.date === date)`, or -1. */
  function FindIndexByDate(holidays: seq<Holiday>, date: Date): (i: int)
    ensures -1 <= i < |holidays|
    ensures i == -1 <==> date !in HolidaySet(holidays)
    ensures 0 <= i ==> holidays[i].date == date
    ensures forall j :: 0 <= j < i ==> holidays[j].date != date
  {
    if holidays == [] then -1
    else if holidays[0].date == date then 0
    else
      var j := FindIndexByDate(holidays[1..], date);
      HolidaySetCons(holidays);
      if j == -1 then -1 else j + 1
  }

  lemma HolidaySetCons(holidays: seq<Holiday>)
    requires holidays != []
    ensures HolidaySet(holidays) == {holidays[0].date} + HolidaySet(holidays[1..])
  {
    assert holidays == [holidays[0]] + holidays[1..];
    assert forall x :: x in holidays <==> x == holidays[0] || x in holidays[1..];
  }

  /** `holidays.filter(h => h.id !== id)`. */
  function RemoveHoliday(holidays: seq<Holiday>, id: string): (r: seq<Holiday>)
    ensures forall i :: 0 <= i < |r| ==> r[i] in holidays && r[i].id != id
    ensures forall i :: 0 <= i < |holidays| && holidays[i].id != id ==> holidays[i] in r
    ensures forall h :: multiset(r)[h] == if h.id == id then 0 else multiset(holidays)[h]
    ensures SortedByDate(holidays) ==> SortedByDate(r)
  {
    var r := Filter(holidays, (h: Holiday) => h.id != id);
    FilterKeepsSorted(holidays, (h: Holiday) => h.id != id, DateKey);
    r
  }

  /** Removal works holiday by holiday, so it keeps the order of the holidays it keeps. */
  lemma RemoveHolidayAppend(a: seq<Holiday>, b: seq<Holiday>, id: string)
    ensures RemoveHoliday(a + b, id) == RemoveHoliday(a, id) + RemoveHoliday(b, id)
  {
    FilterAppend(a, b, (h: Holiday) => h.id != id);
  }

  /** `[...holidays, h].sort(byDate)`. */
  function AddHoliday(holidays: seq<Holiday>, h: Holiday): (r: seq<Holiday>)
    ensures SortedByDate(r)
    ensures multiset(r) == multiset(holidays) + multiset{h}
  {
    SortBy(holidays + [h], DateKey)
  }

  /** handleDateHeaderClick. `confirmed` is the answer to the removal question, `answer` the
      text typed into the prompt (None when it was cancelled) and `freshId` what `generateId`
      returns. None means the holiday list is left as it is. */
  function DateHeaderClick(holidays: seq<Holiday>, date: Date, confirmed: bool,
                           answer: Option<string>, freshId: string): (r: Option<seq<Holiday>>)
    ensures date in HolidaySet(holidays) ==>
      var existing := holidays[FindIndexByDate(holidays, date)];
      && (r.Some? <==> confirmed)
      && (r.Some? ==> r.value == RemoveHoliday(holidays, existing.id))
    ensures date !in HolidaySet(holidays) ==>
      && (r.Some? <==> answer.Some? && Trim(answer.value) != "")
      && (r.Some? ==> r.value == AddHoliday(holidays, Holiday(freshId, date, Trim(answer.value))))
  {
    var i := FindIndexByDate(holidays, date);
    if i >= 0 then
      if confirmed then Some(RemoveHoliday(holidays, holidays[i].id)) else None
    else if answer.Some? && answer.value != "" && Trim(answer.value) != "" then
      Some(AddHoliday(holidays, Holiday(freshId, date, Trim(answer.value))))
    else None
  }

  /** DateHeaderClick by the position `find` returns. */
  lemma HeaderClickByIndex(holidays: seq<Holiday>, date: Date, confirmed: bool,
                           answer: Option<string>, freshId: string)
    ensures var i := FindIndexByDate(holidays, date);
            var r := DateHeaderClick(holidays, date, confirmed, answer, freshId);
            && (i >= 0 && confirmed ==> r == Some(RemoveHoliday(holidays, holidays[i].id)))
            && (i >= 0 && !confirmed ==> r == None)
            && (i < 0 && answer.Some? && Trim(answer.value) != "" ==>
                  r == Some(AddHoliday(holidays, Holiday(freshId, date, Trim(answer.value)))))
            && (i < 0 && (answer.None? || Trim(answer.value) == "") ==> r == None)
  {
  }

  /** Holiday ids are distinct, as `generateId` makes them. */
  ghost predicate UniqueIds(holidays: seq<Holiday>) {
    forall i, j :: 0 <= i < j < |holidays| ==> holidays[i].id != holidays[j].id
  }

  /** No date carries two holidays. */
  ghost predicate OnePerDate(holidays: seq<Holiday>) {
    forall i, j :: 0 <= i < j < |holidays| ==> holidays[i].date != holidays[j].date
  }

  /** Lists with the same members declare the same dates. */
  lemma HolidaySetOfMembers(a: seq<Holiday>, b: seq<Holiday>)
    requires forall x :: x in a <==> x in b
    ensures HolidaySet(a) == HolidaySet(b)
  {
  }

  /** Appending a holiday declares its date and no other. */
  lemma HolidaySetAppend(holidays: seq<Holiday>, h: Holiday)
    ensures HolidaySet(holidays + [h]) == HolidaySet(holidays) + {h.date}
  {
    assert forall x :: x in holidays + [h] <==> x in holidays || x == h;
  }

  /** Adding a holiday declares its date and no other. */
  lemma HolidaySetAdd(holidays: seq<Holiday>, h: Holiday)
    ensures HolidaySet(AddHoliday(holidays, h)) == HolidaySet(holidays) + {h.date}
  {
    SameMembers(AddHoliday(holidays, h), holidays + [h]);
    HolidaySetOfMembers(AddHoliday(holidays, h), holidays + [h]);
    HolidaySetAppend(holidays, h);
  }

  /** A header click on a working day that is given a name declares exactly that date. */
  lemma HeaderClickDeclares(holidays: seq<Holiday>, date: Date, answer: string, freshId: string)
    requires date !in HolidaySet(holidays) && Trim(answer) != ""
    ensures var r := DateHeaderClick(holidays, date, false, Some(answer), freshId);
            && r.Some?
            && HolidaySet(r.value) == HolidaySet(holidays) + {date}
            && SortedByDate(r.value)
  {
    HolidaySetAdd(holidays, Holiday(freshId, date, Trim(answer)));
  }

  /** Removing the holiday at position `i` by its id clears its date and no other, when ids
      are distinct and no date carries two holidays. */
  lemma RemoveClearsDate(holidays: seq<Holiday>, i: nat)
    requires i < |holidays| && UniqueIds(holidays) && OnePerDate(holidays)
    ensures HolidaySet(RemoveHoliday(holidays, holidays[i].id)) == HolidaySet(holidays) - {holidays[i].date}
  {
    var id := holidays[i].id;
    KeptOthersClearsDate(holidays, i, RemoveHoliday(holidays, id));
  }

  /** A list holding exactly the holidays with an id other than that of position `i` lacks
      the date of position `i` and no other. */
  lemma KeptOthersClearsDate(holidays: seq<Holiday>, i: nat, r: seq<Holiday>)
    requires i < |holidays| && UniqueIds(holidays) && OnePerDate(holidays)
    requires forall k :: 0 <= k < |r| ==> r[k] in holidays && r[k].id != holidays[i].id
    requires forall k :: 0 <= k < |holidays| && holidays[k].id != holidays[i].id ==> holidays[k] in r
    ensures HolidaySet(r) == HolidaySet(holidays) - {holidays[i].date}
  {
    var id, date := holidays[i].id, holidays[i].date;
    forall d | d in HolidaySet(r) ensures d in HolidaySet(holidays) && d != date {
      var k :| 0 <= k < |r| && r[k].date == d;
      var m :| 0 <= m < |holidays| && holidays[m] == r[k];
      assert m != i;
    }
    forall d | d in HolidaySet(holidays) && d != date ensures d in HolidaySet(r) {
      var m :| 0 <= m < |holidays| && holidays[m].date == d;
      assert holidays[m].id != id;
    }
  }

  /** A confirmed header click on a declared date makes it a working day again and leaves every
      other date as it was, when ids are distinct and no date carries two holidays. */
  lemma HeaderClickClears(holidays: seq<Holiday>, date: Date, answer: Option<string>, freshId: string)
    requires date in HolidaySet(holidays) && UniqueIds(holidays) && OnePerDate(holidays)
    ensures var r := DateHeaderClick(holidays, date, true, answer, freshId);
            && r.Some?
            && HolidaySet(r.value) == HolidaySet(holidays) - {date}
            && (SortedByDate(holidays) ==> SortedByDate(r.value))
  {
    RemoveClearsDate(holidays, FindIndexByDate(holidays, date));
  }

  /** A declared date stays declared when the removal is not confirmed; a working day stays a
      working day when the prompt is cancelled or left blank. */
  lemma HeaderClickRefused(holidays: seq<Holiday>, date: Date, confirmed: bool, answer: Option<string>, freshId: string)
    requires date in HolidaySet(holidays) ==> !confirmed
    requires date !in HolidaySet(holidays) ==> answer.None? || Trim(answer.value) == ""
    ensures DateHeaderClick(holidays, date, confirmed, answer, freshId).None?
  {
  }

  /** The HolidayManager form: `id` is "" for a new holiday and `date` None while blank. */
  datatype HolidayForm = HolidayForm(id: string, date: Option<Date>, name: string)

  /** `holidays.map(h => h.id === id ? replacement : h)`. */
  function ReplaceById(holidays: seq<Holiday>, id: string, replacement: Holiday): (r: seq<Holiday>)
    ensures |r| == |holidays|
    ensures forall i :: 0 <= i < |r| ==> r[i] == (if holidays[i].id == id then replacement else holidays[i])
  {
    seq(|holidays|, i requires 0 <= i < |holidays| => if holidays[i].id == id then replacement else holidays[i])
  }

  /** HolidayManager handleSave: nothing without a name and a date; otherwise the holiday with
      the form's id is replaced, or a new one is appended under `freshId`, and the list is
      sorted by date. */
  function SaveHoliday(holidays: seq<Holiday>, form: HolidayForm, freshId: string): (r: Option<seq<Holiday>>)
    ensures r.None? <==> form.name == "" || form.date.None?
    ensures r.Some? ==> SortedByDate(r.value)
    ensures r.Some? && form.id != "" ==>
      multiset(r.value) == multiset(ReplaceById(holidays, form.id, Holiday(form.id, form.date.value, form.name)))
    ensures r.Some? && form.id == "" ==>
      multiset(r.value) == multiset(holidays) + multiset{Holiday(freshId, form.date.value, form.name)}
  {
    if form.name == "" || form.date.None? then None
    else if form.id != "" then
      Some(SortBy(ReplaceById(holidays, form.id, Holiday(form.id, form.date.value, form.name)), DateKey))
    else
      Some(AddHoliday(holidays, Holiday(freshId, form.date.value, form.name)))
  }

  /** After a save the form's date is declared; a new holiday adds its date and nothing else. */
  lemma SaveHolidayDeclares(holidays: seq<Holiday>, form: HolidayForm, freshId: string)
    requires form.name != "" && form.date.Some?
    requires form.id != "" ==> exists h :: h in holidays && h.id == form.id
    ensures var r := SaveHoliday(holidays, form, freshId);
            && r.Some?
            && form.date.value in HolidaySet(r.value)
            && (form.id == "" ==> HolidaySet(r.value) == HolidaySet(holidays) + {form.date.value})
  {
    var r := SaveHoliday(holidays, form, freshId).value;
    var saved := Holiday(if form.id == "" then freshId else form.id, form.date.value, form.name);
    if form.id == "" {
      HolidaySetAdd(holidays, saved);
    } else {
      var replaced := ReplaceById(holidays, form.id, saved);
      SameMembers(r, replaced);
      var h :| h in holidays && h.id == form.id;
      var i :| 0 <= i < |holidays| && holidays[i] == h;
      assert replaced[i] == saved;
    }
  }

  /** HolidayManager handleDelete: after confirmation every holiday with that id goes, the
      others stay, in their order. */
  function DeleteHoliday(holidays: seq<Holiday>, id: string, confirmed: bool): (r: Option<seq<Holiday>>)
    ensures r.Some? <==> confirmed
    ensures r.Some? ==> r.value == RemoveHoliday(holidays, id)
  {
    if confirmed then Some(RemoveHoliday(holidays, id)) else None
  }

  /** Adding a holiday under a fresh id and deleting it again leaves the same holidays. */
  lemma AddThenDelete(holidays: seq<Holiday>, h: Holiday)
    requires forall i :: 0 <= i < |holidays| ==> holidays[i].id != h.id
    ensures multiset(RemoveHoliday(AddHoliday(holidays, h), h.id)) == multiset(holidays)
  {
    var r := RemoveHoliday(AddHoliday(holidays, h), h.id);
    forall x ensures multiset(r)[x] == multiset(holidays)[x] {
      if x.id == h.id {
        assert x !in holidays;
      }
    }
  }
}
