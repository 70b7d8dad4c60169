/** Class maintenance of pages/Dashboard.tsx: the ClassManager form (handleSave / handleDelete)
    and the cascade of handleSaveClasses, which drops the students of every class that the
    new class list no longer has. */
module Classes {
  import opened Wrappers
  import opened Records
  import opened Ordering

  /** `classes.some(c => c.id === id)`. */
  function HasClass(classes: seq<ClassInfo>, id: string): (b: bool)
    ensures b <==> exists c :: c in classes && c.id == id
  {
    exists i :: 0 <= i < |classes| && classes[i].id == id
  }

  /** `deletedClassIds`: the ids of the current classes that the updated list lacks. */
  function DeletedClassIds(classes: seq<ClassInfo>, updated: seq<ClassInfo>): (ids: seq<string>)
    ensures forall id :: id in ids <==> HasClass(classes, id) && !HasClass(updated, id)
    decreases |classes|
  {
    if classes == [] then []
    else
      var rest := DeletedClassIds(classes[1..], updated);
      assert forall id :: HasClass(classes, id) <==> classes[0].id == id || HasClass(classes[1..], id) by {
        forall id | HasClass(classes, id) && classes[0].id != id ensures HasClass(classes[1..], id) {
          var i :| 0 <= i < |classes| && classes[i].id == id;
          assert classes[1..][i - 1].id == id;
        }
        forall id | HasClass(classes[1..], id) ensures HasClass(classes, id) {
          var i :| 0 <= i < |classes[1..]| && classes[1..][i].id == id;
          assert classes[i + 1].id == id;
        }
      }
      if HasClass(updated, classes[0].id) then rest else [classes[0].id] + rest
  }

  /** `students.filter(s => !deletedClassIds.includes(s.classId))`. */
  function CascadeStudents(students: seq<Student>, deletedIds: seq<string>): (r: seq<Student>)
    ensures forall i :: 0 <= i < |r| ==> r[i] in students && r[i].classId !in deletedIds
    ensures forall i :: 0 <= i < |students| && students[i].classId !in deletedIds ==> students[i] in r
    ensures forall s :: multiset(r)[s] == if s.classId in deletedIds then 0 else multiset(students)[s]
  {
    Filter(students, (s: Student) => s.classId !in deletedIds)
  }

  /** The cascade works student by student, so it keeps the order of the students it keeps. */
  lemma CascadeAppend(a: seq<Student>, b: seq<Student>, deletedIds: seq<string>)
    ensures CascadeStudents(a + b, deletedIds) == CascadeStudents(a, deletedIds) + CascadeStudents(b, deletedIds)
  {
    FilterAppend(a, b, (s: Student) => s.classId !in deletedIds);
  }

  /** What handleSaveClasses writes: the student list when some class went (None when none
      did and the students are not saved), then the class list. */
  datatype ClassesUpdate = ClassesUpdate(students: Option<seq<Student>>, classes: seq<ClassInfo>)

  /** handleSaveClasses on the current classes and students. */
  function SaveClasses(classes: seq<ClassInfo>, students: seq<Student>, updated: seq<ClassInfo>): (r: ClassesUpdate)
    ensures r.classes == updated
    ensures r.students.Some? <==> exists c :: c in classes && !HasClass(updated, c.id)
    ensures r.students.Some? ==> r.students.value == CascadeStudents(students, DeletedClassIds(classes, updated))
  {
    var deleted := DeletedClassIds(classes, updated);
    assert (exists c :: c in classes && !HasClass(updated, c.id)) <==> |deleted| > 0 by {
      if |deleted| > 0 {
        assert deleted[0] in deleted;
        var i :| 0 <= i < |classes| && classes[i].id == deleted[0];
        assert classes[i] in classes;
      }
      if c :| c in classes && !HasClass(updated, c.id) {
        var i :| 0 <= i < |classes| && classes[i] == c;
        assert HasClass(classes, c.id);
        assert c.id in deleted;
      }
    }
    if |deleted| > 0 then ClassesUpdate(Some(CascadeStudents(students, deleted)), updated)
    else ClassesUpdate(None, updated)
  }

  /** The students after handleSaveClasses. */
  function StudentsAfter(students: seq<Student>, r: ClassesUpdate): seq<Student> {
    if r.students.Some? then r.students.value else students
  }

  /** The cascade removes exactly the students whose class was among the current classes and
      is missing from the new list, and no others. */
  lemma CascadeRemovesExactly(classes: seq<ClassInfo>, students: seq<Student>, updated: seq<ClassInfo>)
    ensures var after := StudentsAfter(students, SaveClasses(classes, students, updated));
            && (forall s :: s in after ==> s in students)
            && (forall s :: s in students ==>
                  (s in after <==> !(HasClass(classes, s.classId) && !HasClass(updated, s.classId))))
  {
    var r := SaveClasses(classes, students, updated);
    var deleted := DeletedClassIds(classes, updated);
    var after := StudentsAfter(students, r);
    if r.students.Some? {
      forall s | s in after ensures s in students && s.classId !in deleted {
        var i :| 0 <= i < |after| && after[i] == s;
      }
      forall s | s in students && s.classId !in deleted ensures s in after {
        var i :| 0 <= i < |students| && students[i] == s;
      }
    }
  }

  /** Every student belongs to an existing class. */
  ghost predicate StudentsHaveClasses(classes: seq<ClassInfo>, students: seq<Student>) {
    forall s :: s in students ==> HasClass(classes, s.classId)
  }

  /** The cascade keeps referential integrity: if every student had a class before, every
      remaining student has one in the new list. */
  lemma CascadeKeepsIntegrity(classes: seq<ClassInfo>, students: seq<Student>, updated: seq<ClassInfo>)
    requires StudentsHaveClasses(classes, students)
    ensures StudentsHaveClasses(updated, StudentsAfter(students, SaveClasses(classes, students, updated)))
  {
    CascadeRemovesExactly(classes, students, updated);
  }

  /** Without a cascade the integrity can break: removing a class that still has students leaves
      them pointing at nothing. */
  lemma OrphanWithoutCascade()
    ensures var classes := [ClassInfo("c1", "One")];
            var students := [Student("s1", "S-1", "Ann", "F", "M", "c1")];
            && StudentsHaveClasses(classes, students)
            && !StudentsHaveClasses([], students)
            && StudentsAfter(students, SaveClasses(classes, students, [])) == []
  {
    var classes := [ClassInfo("c1", "One")];
    var students := [Student("s1", "S-1", "Ann", "F", "M", "c1")];
    assert classes[0].id == "c1";
    assert HasClass(classes, "c1");
    assert students[0] in students;
    var r := SaveClasses(classes, students, []);
    assert r.students.Some?;
    assert DeletedClassIds(classes, []) == ["c1"];
  }

  /** The ClassManager form: `id` is "" for a new class. */
  datatype ClassForm = ClassForm(id: string, name: string)

  /** `classes.map(c => c.id === id ? { ...c, name } : c)`. */
  function RenameClass(classes: seq<ClassInfo>, id: string, name: string): (r: seq<ClassInfo>)
    ensures |r| == |classes|
    ensures forall i :: 0 <= i < |r| ==> r[i].id == classes[i].id
    ensures forall i :: 0 <= i < |r| ==> r[i].name == (if classes[i].id == id then name else classes[i].name)
  {
    seq(|classes|, i requires 0 <= i < |classes| =>
      if classes[i].id == id then classes[i].(name := name) else classes[i])
  }

  /** ClassManager handleSave: nothing without a name; otherwise the class with the form's id
      is renamed, or a new class is appended under `freshId`. */
  function SaveClass(classes: seq<ClassInfo>, form: ClassForm, freshId: string): (r: Option<seq<ClassInfo>>)
    ensures r.None? <==> form.name == ""
    ensures r.Some? && form.id != "" ==> r.value == RenameClass(classes, form.id, form.name)
    ensures r.Some? && form.id == "" ==> r.value == classes + [ClassInfo(freshId, form.name)]
  {
    if form.name == "" then None
    else if form.id != "" then Some(RenameClass(classes, form.id, form.name))
    else Some(classes + [ClassInfo(freshId, form.name)])
  }

  /** Saving the form never removes a class, so the cascade leaves every student in place. */
  lemma SaveClassKeepsStudents(classes: seq<ClassInfo>, students: seq<Student>, form: ClassForm, freshId: string)
    requires form.name != ""
    ensures var updated := SaveClass(classes, form, freshId).value;
            SaveClasses(classes, students, updated).students.None?
  {
    var updated := SaveClass(classes, form, freshId).value;
    forall c | c in classes ensures HasClass(updated, c.id) {
      var i :| 0 <= i < |classes| && classes[i] == c;
      assert updated[i].id == c.id;
    }
  }

  /** ClassManager handleDelete: after confirmation every class with that id goes. */
  function DeleteClass(classes: seq<ClassInfo>, id: string, confirmed: bool): (r: Option<seq<ClassInfo>>)
    ensures r.Some? <==> confirmed
    ensures r.Some? ==> forall i :: 0 <= i < |r.value| ==> r.value[i] in classes && r.value[i].id != id
    ensures r.Some? ==> forall i :: 0 <= i < |classes| && classes[i].id != id ==> classes[i] in r.value
    ensures r.Some? ==> forall c :: multiset(r.value)[c] == if c.id == id then 0 else multiset(classes)[c]
  {
    if confirmed then Some(Filter(classes, (c: ClassInfo) => c.id != id)) else None
  }

  /** Deleting works class by class, so it keeps the order of the remaining classes. */
  lemma DeleteClassAppend(a: seq<ClassInfo>, b: seq<ClassInfo>, id: string)
    ensures DeleteClass(a + b, id, true).value == DeleteClass(a, id, true).value + DeleteClass(b, id, true).value
  {
    FilterAppend(a, b, (c: ClassInfo) => c.id != id);
  }

  /** Deleting a class and saving the new list gives the students without that class, in
      their order; when no class has that id, the students stay as they are. */
  lemma DeleteClassCascadeExact(classes: seq<ClassInfo>, students: seq<Student>, id: string)
    ensures var after := StudentsAfter(students, SaveClasses(classes, students, DeleteClass(classes, id, true).value));
            after == if HasClass(classes, id) then CascadeStudents(students, [id]) else students
  {
    var updated := DeleteClass(classes, id, true).value;
    var deleted := DeletedClassIds(classes, updated);
    DeleteClassKeepsOthers(classes, id);
    if HasClass(classes, id) {
      var i :| 0 <= i < |classes| && classes[i].id == id;
      assert classes[i] in classes && !HasClass(updated, classes[i].id);
      FilterSame(students, (s: Student) => s.classId !in deleted, (s: Student) => s.classId !in [id]);
    } else {
      forall c | c in classes ensures HasClass(updated, c.id) {
        var i :| 0 <= i < |classes| && classes[i] == c;
      }
    }
  }

  /** After a deletion the classes with other ids are still there and none has that id. */
  lemma DeleteClassKeepsOthers(classes: seq<ClassInfo>, id: string)
    ensures var updated := DeleteClass(classes, id, true).value;
            && !HasClass(updated, id)
            && forall cid :: cid != id ==> (HasClass(updated, cid) <==> HasClass(classes, cid))
  {
    var updated := DeleteClass(classes, id, true).value;
    forall cid | cid != id && HasClass(classes, cid) ensures HasClass(updated, cid) {
      var i :| 0 <= i < |classes| && classes[i].id == cid;
      MemberHasClass(updated, classes[i]);
    }
    forall cid | HasClass(updated, cid) ensures HasClass(classes, cid) {
      var k :| 0 <= k < |updated| && updated[k].id == cid;
      MemberHasClass(classes, updated[k]);
    }
  }

  lemma MemberHasClass(classes: seq<ClassInfo>, c: ClassInfo)
    requires c in classes
    ensures HasClass(classes, c.id)
  {
    var i :| 0 <= i < |classes| && classes[i] == c;
  }

  /** Deleting a class and saving the new list removes exactly the students of that class. */
  lemma DeleteClassCascade(classes: seq<ClassInfo>, students: seq<Student>, id: string)
    ensures var updated := DeleteClass(classes, id, true).value;
            var after := StudentsAfter(students, SaveClasses(classes, students, updated));
            forall s :: s in students ==> (s in after <==> s.classId != id || !HasClass(classes, id))
  {
    var updated := DeleteClass(classes, id, true).value;
    CascadeRemovesExactly(classes, students, updated);
    DeleteClassKeepsOthers(classes, id);
  }
}
