/**
 * The portal's database as mutable state: the three tables and the
 * AUTO_INCREMENT counter are fields, the form handlers update them in place,
 * and the dashboard queries read them.
 */
module Portal {
  import opened Wrappers
  import opened Text
  import opened Schema
  import opened Metrics
  import opened Queries
  import Commands

  class Database {
    var students: seq<Student>
    var attendance: seq<Attendance>
    var marks: seq<Mark>
    var nextId: int

    /** The contents of the database as a value. */
    function State(): Tables
      reads this
    {
      Tables(students, attendance, marks, nextId)
    }

    /** The constraints of the table definitions hold. */
    predicate Valid()
      reads this
    {
      Schema.Valid(State())
    }

    /** The schema as first created: empty tables. */
    constructor ()
      ensures Valid() && State() == Empty
    {
      students, attendance, marks, nextId := [], [], [], 1;
    }

    /** The `add_student` request. */
    method AddStudent(name: Field, roll: Field, cls: Field, skills: Field) returns (o: Commands.Outcome)
      requires Valid()
      modifies this
      ensures Valid()
      ensures Commands.Step(o, State()) == Commands.AddStudent(old(State()), name, roll, cls, skills)
    {
      ghost var before := State();
      Commands.AddStudentValid(before, name, roll, cls, skills);
      var n, r, c, k := Clean(name), Clean(roll), Clean(cls), Clean(skills);
      if n == "" || r == "" || c == "" {
        o := Commands.FieldsMissing;
      } else if RollTaken(students, r) {
        o := Commands.DatabaseError;
      } else {
        students := students + [Student(nextId, n, r, c, k)];
        nextId := nextId + 1;
        o := Commands.Saved;
        assert State() == Commands.AddStudent(before, name, roll, cls, skills).tables;
      }
    }

    /** The `add_attendance` request: an upsert on (student, date). */
    method AddAttendance(studentId: int, date: Field, status: Field) returns (o: Commands.Outcome)
      requires Valid()
      modifies this
      ensures Valid()
      ensures Commands.Step(o, State()) == Commands.AddAttendance(old(State()), studentId, date, status)
    {
      Commands.AddAttendanceValid(State(), studentId, date, status);
      var d := Clean(date);
      var st := StatusOf(Commands.StatusText(status));
      if studentId == 0 || d == "" {
        o := Commands.FieldsMissing;
      } else if st.None? || !IsStudent(students, studentId) {
        o := Commands.DatabaseError;
      } else {
        var row := Attendance(studentId, d, st.value);
        match FindKey(attendance, studentId, d) {
          case Some(i) => attendance := attendance[i := row];
          case None => attendance := attendance + [row];
        }
        o := Commands.Saved;
      }
    }

    /** The `add_marks` request: always a new row. */
    method AddMarks(studentId: int, subject: Field, term: Field, marksText: Field, toNumber: string -> real)
      returns (o: Commands.Outcome)
      requires Valid()
      modifies this
      ensures Valid()
      ensures Commands.Step(o, State()) == Commands.AddMarks(old(State()), studentId, subject, term, marksText, toNumber)
    {
      Commands.AddMarksValid(State(), studentId, subject, term, marksText, toNumber);
      var sub, tm, mv := Clean(subject), Clean(term), Clean(marksText);
      if studentId == 0 || sub == "" || tm == "" || mv == "" {
        o := Commands.FieldsMissing;
      } else {
        var value := toNumber(mv);
        if value < 0.0 || !IsStudent(students, studentId) {
          o := Commands.DatabaseError;
        } else {
          marks := marks + [Mark(studentId, sub, tm, value)];
          o := Commands.Saved;
        }
      }
    }

    /**
     * `get_students`: the students matching both filters, newest first.
     * The rows are read from the newest to the oldest.
     */
    method GetStudents(q: string, classFilter: string) returns (listed: seq<Student>)
      requires Valid()
      ensures listed == Listing(students, q, classFilter)
      ensures forall s :: s in listed <==> s in students && Matches(s, q, classFilter)
      ensures Descending(listed)
    {
      var conds := Conditions(q, classFilter);
      listed := [];
      var i := |students|;
      while i > 0
        invariant 0 <= i <= |students|
        invariant listed == Listing(students[i..], q, classFilter)
      {
        i := i - 1;
        assert students[i..][1..] == students[i + 1..];
        if Satisfies(students[i], conds) {
          listed := listed + [students[i]];
        }
      }
      assert students[0..] == students;
      ListingMembers(students, q, classFilter);
      ListingDescending(students, q, classFilter);
    }

    /**
     * The attendance aggregate query restricted to `ids`: (present, total)
     * for every student in `ids` that has at least one attendance row.
     */
    method AttendanceAggregates(ids: set<int>) returns (attMap: map<int, (nat, nat)>)
      ensures forall id :: id in attMap <==> id in ids && TotalCount(attendance, id) > 0
      ensures forall id :: id in attMap ==> attMap[id] == (PresentCount(attendance, id), TotalCount(attendance, id))
    {
      attMap := map[];
      var i := 0;
      while i < |attendance|
        invariant 0 <= i <= |attendance|
        invariant forall id :: id in attMap <==> id in ids && TotalCount(attendance[..i], id) > 0
        invariant forall id :: id in attMap ==>
          attMap[id] == (PresentCount(attendance[..i], id), TotalCount(attendance[..i], id))
      {
        var a := attendance[i];
        assert attendance[..i + 1][..i] == attendance[..i];
        if a.studentId in ids {
          var (p, n) := if a.studentId in attMap then attMap[a.studentId] else (0, 0);
          attMap := attMap[a.studentId := (p + (if a.status == Present then 1 else 0), n + 1)];
        }
        i := i + 1;
      }
      assert attendance[..i] == attendance;
    }

    /**
     * The marks aggregate query restricted to `ids`: (sum, count) for every
     * student in `ids` that has at least one mark row.
     */
    method MarkAggregates(ids: set<int>) returns (markMap: map<int, (real, nat)>)
      ensures forall id :: id in markMap <==> id in ids && MarkCount(marks, id) > 0
      ensures forall id :: id in markMap ==> markMap[id] == (MarkSum(marks, id), MarkCount(marks, id))
    {
      markMap := map[];
      var i := 0;
      while i < |marks|
        invariant 0 <= i <= |marks|
        invariant forall id :: id in markMap <==> id in ids && MarkCount(marks[..i], id) > 0
        invariant forall id :: id in markMap ==>
          markMap[id] == (MarkSum(marks[..i], id), MarkCount(marks[..i], id))
      {
        var m := marks[i];
        assert marks[..i + 1][..i] == marks[..i];
        assert marks[..i + 1][i] == m;
        if m.studentId in ids {
          MarkSumZero(marks[..i], m.studentId);
          var (total, n) := if m.studentId in markMap then markMap[m.studentId] else (0.0, 0);
          markMap := markMap[m.studentId := (total + m.marks, n + 1)];
        }
        i := i + 1;
      }
      assert marks[..i] == marks;
    }

    /**
     * `get_dashboard_rows`: the listed students, each with its attendance
     * percent and average marks, in the listing's order.
     */
    method DashboardRows(q: string, classFilter: string) returns (rows: seq<Row>)
      requires Valid()
      ensures rows == Report(Listing(students, q, classFilter), attendance, marks)
    {
      var listed := GetStudents(q, classFilter);
      if |listed| == 0 {
        return [];
      }
      var ids := set s | s in listed :: s.id;
      var attMap := AttendanceAggregates(ids);
      var markMap := MarkAggregates(ids);

      rows := ComposeRows(listed, attMap, markMap);
    }

    /** The dashboard rows of `listed`, in order, from the two aggregate maps. */
    method ComposeRows(listed: seq<Student>, attMap: map<int, (nat, nat)>, markMap: map<int, (real, nat)>)
      returns (rows: seq<Row>)
      requires forall s :: s in listed ==> (s.id in attMap <==> TotalCount(attendance, s.id) > 0)
      requires forall id :: id in attMap ==> attMap[id] == (PresentCount(attendance, id), TotalCount(attendance, id))
      requires forall s :: s in listed ==> (s.id in markMap <==> MarkCount(marks, s.id) > 0)
      requires forall id :: id in markMap ==> markMap[id] == (MarkSum(marks, id), MarkCount(marks, id))
      ensures rows == Report(listed, attendance, marks)
    {
      rows := [];
      var j := 0;
      while j < |listed|
        invariant 0 <= j <= |listed|
        invariant |rows| == j
        invariant forall k :: 0 <= k < j ==> rows[k] == RowFor(listed[k], attendance, marks)
      {
        var row := ComposeRow(listed[j], attMap, markMap);
        rows := rows + [row];
        j := j + 1;
      }
    }

    /**
     * One dashboard row from the two aggregate maps: 0 percent for a student
     * without attendance rows, an average of 0 for one without marks.
     */
    method ComposeRow(s: Student, attMap: map<int, (nat, nat)>, markMap: map<int, (real, nat)>) returns (row: Row)
      requires s.id in attMap <==> TotalCount(attendance, s.id) > 0
      requires s.id in attMap ==> attMap[s.id] == (PresentCount(attendance, s.id), TotalCount(attendance, s.id))
      requires s.id in markMap <==> MarkCount(marks, s.id) > 0
      requires s.id in markMap ==> markMap[s.id] == (MarkSum(marks, s.id), MarkCount(marks, s.id))
      ensures row == RowFor(s, attendance, marks)
    {
      var (p, n) := if s.id in attMap then attMap[s.id] else (0, 0);
      var avg := if s.id in markMap then markMap[s.id].0 / markMap[s.id].1 as real else 0.0;
      var percent := 0.0;
      if n > 0 {
        percent := Round2(p as real / n as real * 100.0);
      } else {
        assert (0.0 * 100.0 + 0.5).Floor == 0;
      }
      assert avg == AverageMarks(marks, s.id);
      row := Row(s.id, s.name, s.roll, s.cls, s.skills, percent, Round2(avg));
    }
  }
}
