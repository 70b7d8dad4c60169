/** The CSV bulk import of the StudentManager in pages/Dashboard.tsx (handleFileUpload): the
    header line is dropped, a line becomes a student when its first four comma-separated
    fields are all non-empty, and each field is trimmed. */
module StudentImport {
  import opened Wrappers
  import opened Records
  import opened Ordering
  import opened Text

  /** `text.split('\n').slice(1)`. */
  function DataLines(text: string): (lines: seq<string>)
    ensures |lines| == Occurrences(text, '\n')
  {
    SplitCount(text, '\n');
    Split(text, '\n')[1..]
  }

  /** `const [studentId, name, fatherName, motherName] = line.split(',')` yields four
      non-empty strings; fields past the fourth are ignored. */
  predicate AcceptedLine(line: string) {
    var fields := Split(line, ',');
    |fields| >= 4 && fields[0] != "" && fields[1] != "" && fields[2] != "" && fields[3] != ""
  }

  /** An accepted line has at least three commas and does not start with one. */
  lemma AcceptedLineShape(line: string)
    ensures AcceptedLine(line) ==> Occurrences(line, ',') >= 3 && line != "" && line[0] != ','
  {
    SplitCount(line, ',');
  }

  /** The student made from an accepted line: each field trimmed, in the class being viewed. */
  function MakeStudent(line: string, id: string, classId: string): (s: Student)
    requires AcceptedLine(line)
    ensures s.id == id && s.classId == classId
    ensures s.studentId == Trim(Split(line, ',')[0]) && s.name == Trim(Split(line, ',')[1])
    ensures s.fatherName == Trim(Split(line, ',')[2]) && s.motherName == Trim(Split(line, ',')[3])
  {
    var fields := Split(line, ',');
    Student(id, Trim(fields[0]), Trim(fields[1]), Trim(fields[2]), Trim(fields[3]), classId)
  }

  /** The `map` / `filter(Boolean)` pass over the lines. `generateId` is called once per
      accepted line, in order; `ids[k]` is what its k-th call returns. */
  function ParseLines(lines: seq<string>, classId: string, ids: seq<string>): (r: seq<Student>)
    requires |ids| >= |lines|
    ensures |r| == |Filter(lines, AcceptedLine)|
    decreases |lines|
  {
    if lines == [] then []
    else if AcceptedLine(lines[0]) then
      [MakeStudent(lines[0], ids[0], classId)] + ParseLines(lines[1..], classId, ids[1..])
    else ParseLines(lines[1..], classId, ids)
  }

  /** `kept.map((line, i) => student of line with id ids[i])`. */
  function MapStudents(kept: seq<string>, classId: string, ids: seq<string>): (r: seq<Student>)
    requires |ids| == |kept|
    requires forall i :: 0 <= i < |kept| ==> AcceptedLine(kept[i])
    ensures |r| == |kept|
    decreases |kept|
  {
    if kept == [] then []
    else [MakeStudent(kept[0], ids[0], classId)] + MapStudents(kept[1..], classId, ids[1..])
  }

  /** The i-th student of the map is made from the i-th line, `line`, with the i-th id, `id`. */
  lemma {:induction false} MapStudentsAt(kept: seq<string>, classId: string, ids: seq<string>, i: nat,
                                         line: string, id: string)
    requires |ids| == |kept| && i < |kept| && line == kept[i] && id == ids[i]
    requires forall k :: 0 <= k < |kept| ==> AcceptedLine(kept[k])
    ensures MapStudents(kept, classId, ids)[i] == MakeStudent(line, id, classId)
    decreases i
  {
    if i > 0 {
      assert MapStudents(kept, classId, ids)[i] == MapStudents(kept[1..], classId, ids[1..])[i - 1];
      MapStudentsAt(kept[1..], classId, ids[1..], i - 1, line, id);
    }
  }

  /** The pass is a filter followed by a map: the i-th student comes from the i-th accepted
      line and carries the i-th fresh id. */
  lemma {:induction false} ParseLinesIsFilterMap(lines: seq<string>, classId: string, ids: seq<string>)
    requires |ids| >= |lines|
    ensures var kept := Filter(lines, AcceptedLine);
            ParseLines(lines, classId, ids) == MapStudents(kept, classId, ids[..|kept|])
    decreases |lines|
  {
    if lines != [] {
      var tail := Filter(lines[1..], AcceptedLine);
      if AcceptedLine(lines[0]) {
        ParseLinesIsFilterMap(lines[1..], classId, ids[1..]);
        assert ([lines[0]] + tail)[1..] == tail;
        assert ids[..|tail| + 1][1..] == ids[1..][..|tail|];
      } else {
        ParseLinesIsFilterMap(lines[1..], classId, ids);
      }
    }
  }

  const ParseError := "Could not parse CSV or file is empty. Expected format: StudentId,Name,FatherName,MotherName"

  /** The ids the `generateId` calls of one import return: `freshId(k)` for the k-th call. */
  function FreshIds(freshId: nat -> string, n: nat): (ids: seq<string>)
    ensures |ids| == n && forall k :: 0 <= k < n ==> ids[k] == freshId(k)
  {
    seq(n, k requires 0 <= k => freshId(k))
  }

  /** handleFileUpload once the file is read: the new student list, or the error alert when no
      line was accepted (and nothing is saved). */
  function ImportStudents(text: string, classId: string, students: seq<Student>,
                          freshId: nat -> string): (r: Result<seq<Student>, string>)
    ensures var lines := DataLines(text);
            var added := ParseLines(lines, classId, FreshIds(freshId, |lines|));
            && (r.Failure? <==> added == [])
            && (r.Failure? ==> r.error == ParseError)
            && (r.Success? ==> r.value == students + added)
  {
    var lines := DataLines(text);
    var added := ParseLines(lines, classId, FreshIds(freshId, |lines|));
    if |added| > 0 then Success(students + added) else Failure(ParseError)
  }

  /** Imported students are appended after the existing ones, belong to the class, carry the
      fresh ids in order, have no outer white space in their fields, and number at most one
      per data line. */
  lemma ImportedStudents(text: string, classId: string, students: seq<Student>, freshId: nat -> string)
    ensures var r := ImportStudents(text, classId, students, freshId);
            r.Success? ==>
              && |students| < |r.value| <= |students| + |DataLines(text)|
              && r.value[..|students|] == students
              && forall i :: |students| <= i < |r.value| ==>
                   && r.value[i].classId == classId
                   && r.value[i].id == freshId(i - |students|)
                   && Untrimmed(r.value[i])
  {
    var r := ImportStudents(text, classId, students, freshId);
    if r.Success? {
      var lines := DataLines(text);
      var ids := FreshIds(freshId, |lines|);
      var kept := Filter(lines, AcceptedLine);
      ParseLinesIsFilterMap(lines, classId, ids);
      AppendedStudents(students, kept, classId, ids[..|kept|], r.value);
      forall i | |students| <= i < |r.value| ensures r.value[i].id == freshId(i - |students|) {
        assert r.value[i].id == ids[i - |students|];
      }
    }
  }

  /** The students after the existing ones are those of the pass over accepted lines. */
  lemma AppendedStudents(students: seq<Student>, kept: seq<string>, classId: string, ids: seq<string>,
                         all: seq<Student>)
    requires |ids| == |kept|
    requires forall j :: 0 <= j < |kept| ==> AcceptedLine(kept[j])
    requires all == students + MapStudents(kept, classId, ids)
    ensures |all| == |students| + |kept| && all[..|students|] == students
    ensures forall i :: |students| <= i < |all| ==>
              all[i].classId == classId && all[i].id == ids[i - |students|] && Untrimmed(all[i])
  {
    var added := MapStudents(kept, classId, ids);
    forall i | |students| <= i < |all|
      ensures all[i].classId == classId && all[i].id == ids[i - |students|] && Untrimmed(all[i])
    {
      var k := i - |students|;
      AddedAt(kept, classId, ids, k, added[k]);
      assert all[i] == added[k];
    }
  }

  /** The k-th student of the pass over accepted lines. */
  lemma AddedAt(kept: seq<string>, classId: string, ids: seq<string>, k: nat, s: Student)
    requires |ids| == |kept| && k < |kept|
    requires forall j :: 0 <= j < |kept| ==> AcceptedLine(kept[j])
    requires s == MapStudents(kept, classId, ids)[k]
    ensures s.classId == classId && s.id == ids[k] && Untrimmed(s)
  {
    MapStudentsAt(kept, classId, ids, k, kept[k], ids[k]);
    MadeStudentUntrimmed(kept[k], ids[k], classId);
  }

  /** No field of the student begins or ends with white space. */
  predicate Untrimmed(s: Student) {
    Trim(s.studentId) == s.studentId && Trim(s.name) == s.name
    && Trim(s.fatherName) == s.fatherName && Trim(s.motherName) == s.motherName
  }

  lemma MadeStudentUntrimmed(line: string, id: string, classId: string)
    requires AcceptedLine(line)
    ensures var s := MakeStudent(line, id, classId);
            s.id == id && s.classId == classId && Untrimmed(s)
  {
    var fields := Split(line, ',');
    TrimIdempotent(fields[0]);
    TrimIdempotent(fields[1]);
    TrimIdempotent(fields[2]);
    TrimIdempotent(fields[3]);
  }

  /** A field of white space alone passes the non-empty check and is stored trimmed to "". */
  lemma BlankFieldPassesCheck()
    ensures AcceptedLine("S1, ,B,C")
    ensures MakeStudent("S1, ,B,C", "x", "c").name == ""
  {
    SplitLiteral(["S1", " ", "B", "C"], ',', "S1, ,B,C");
  }

  /** Splitting a literal text given as the join of its pieces. */
  lemma SplitLiteral(pieces: seq<string>, sep: char, text: string)
    requires |pieces| >= 1 && Join(pieces, sep) == text
    requires forall i :: 0 <= i < |pieces| ==> sep !in pieces[i]
    ensures Split(text, sep) == pieces
  {
    SplitJoin(pieces, sep);
  }

  /** A file holding only the header line adds nobody. */
  lemma HeaderOnlyFails(students: seq<Student>, freshId: nat -> string)
    ensures ImportStudents("Id,Name", "c", students, freshId).Failure?
  {
    SplitFree("Id,Name", '\n');
  }

  /** A line of four non-empty comma-free fields is accepted and gives their trimmed values. */
  lemma FourFieldsAccepted(fields: seq<string>, id: string, classId: string)
    requires |fields| == 4
    requires forall i :: 0 <= i < 4 ==> fields[i] != "" && ',' !in fields[i]
    ensures AcceptedLine(Join(fields, ','))
    ensures MakeStudent(Join(fields, ','), id, classId)
         == Student(id, Trim(fields[0]), Trim(fields[1]), Trim(fields[2]), Trim(fields[3]), classId)
  {
    SplitJoin(fields, ',');
  }

  /** A line with fewer than three commas is rejected. */
  lemma ShortLineRejected(line: string)
    requires Occurrences(line, ',') < 3
    ensures !AcceptedLine(line)
  {
    SplitCount(line, ',');
  }

  /** A header followed by one line of four fields gives that one student. */
  lemma OneLineFile(header: string, fields: seq<string>, classId: string, students: seq<Student>, freshId: nat -> string)
    requires '\n' !in header && |fields| == 4
    requires forall i :: 0 <= i < 4 ==> fields[i] != "" && ',' !in fields[i] && '\n' !in fields[i]
    ensures ImportStudents(header + "\n" + Join(fields, ','), classId, students, freshId)
         == Success(students + [Student(freshId(0), Trim(fields[0]), Trim(fields[1]), Trim(fields[2]), Trim(fields[3]), classId)])
  {
    var line := Join(fields, ',');
    FourFieldsAccepted(fields, freshId(0), classId);
    JoinFree(fields, ',', '\n');
    HeaderAndLine(header, line);
    OneLineParsed(line, classId, FreshIds(freshId, 1));
  }

  /** One accepted line gives one student with the first id. */
  lemma OneLineParsed(line: string, classId: string, ids: seq<string>)
    requires AcceptedLine(line) && |ids| == 1
    ensures ParseLines([line], classId, ids) == [MakeStudent(line, ids[0], classId)]
  {
    assert [line][1..] == [];
  }

  lemma HeaderAndLine(header: string, line: string)
    requires '\n' !in header && '\n' !in line
    ensures DataLines(header + "\n" + line) == [line]
  {
    SplitJoin([header, line], '\n');
    assert Join([header, line], '\n') == header + "\n" + line;
  }

  /** Joining pieces free of a character other than the separator gives a text free of it. */
  lemma {:induction false} JoinFree(pieces: seq<string>, sep: char, c: char)
    requires |pieces| >= 1 && c != sep
    requires forall i :: 0 <= i < |pieces| ==> c !in pieces[i]
    ensures c !in Join(pieces, sep)
    decreases |pieces|
  {
    if |pieces| > 1 {
      JoinFree(pieces[1..], sep, c);
      assert forall i :: 1 <= i < |pieces| ==> pieces[1..][i - 1] == pieces[i];
    }
  }
}
