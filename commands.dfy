/**
 * The effect of the three form handlers on the tables. Each handler cleans
 * its fields, rejects blank required fields without touching the database,
 * and otherwise runs one statement; a statement that violates a constraint
 * raises an error that the request catches, so it writes nothing.
 */
module Commands {
  import opened Wrappers
  import opened Text
  import opened Schema

  /** How a request ends: which flash message it leaves. */
  datatype Outcome =
    | Saved          // "Student added successfully!", "Attendance saved.", "Marks saved."
    | FieldsMissing  // a required field is blank: nothing is sent to the database
    | DatabaseError  // the statement failed: "Database error: ..."

  /** The outcome of a request and the tables after it. */
  datatype Step = Step(outcome: Outcome, tables: Tables)

  /** The student row the insert of a cleaned form creates. */
  function NewStudent(t: Tables, name: Field, roll: Field, cls: Field, skills: Field): Student {
    Student(t.nextId, Clean(name), Clean(roll), Clean(cls), Clean(skills))
  }

  /** `add_student`: insert a student; the UNIQUE roll rejects a roll already present. */
  function AddStudent(t: Tables, name: Field, roll: Field, cls: Field, skills: Field): Step {
    var s := NewStudent(t, name, roll, cls, skills);
    if s.name == "" || s.roll == "" || s.cls == "" then Step(FieldsMissing, t)
    else if RollTaken(t.students, s.roll) then Step(DatabaseError, t)
    else Step(Saved, t.(students := t.students + [s], nextId := t.nextId + 1))
  }

  /** `INSERT ... ON DUPLICATE KEY UPDATE status=VALUES(status)`: overwrite the row with the same key, or append one. */
  function Upsert(attendance: seq<Attendance>, row: Attendance): seq<Attendance> {
    match FindKey(attendance, row.studentId, row.date)
    case Some(i) => attendance[i := row]
    case None => attendance + [row]
  }

  /** The status text the handler sends: the posted value, "Present" when the field is missing, trimmed. */
  function StatusText(status: Field): string {
    match status
    case Missing => "Present"
    case Posted(s) => Trim(s)
  }

  /**
   * `add_attendance`: upsert one attendance row. The ENUM rejects a status
   * that is not a label and the foreign key an unknown student.
   */
  function AddAttendance(t: Tables, studentId: int, date: Field, status: Field): Step {
    var st := StatusOf(StatusText(status));
    if studentId == 0 || Clean(date) == "" then Step(FieldsMissing, t)
    else if st.None? || !IsStudent(t.students, studentId) then Step(DatabaseError, t)
    else Step(Saved, t.(attendance := Upsert(t.attendance, Attendance(studentId, Clean(date), st.value))))
  }

  /**
   * `add_marks`: append one mark row. `toNumber` is PHP's `(float)` cast of the
   * cleaned marks text; the CHECK rejects a negative value and the foreign key
   * an unknown student.
   */
  function AddMarks(t: Tables, studentId: int, subject: Field, term: Field, marks: Field, toNumber: string -> real): Step {
    if studentId == 0 || Clean(subject) == "" || Clean(term) == "" || Clean(marks) == "" then Step(FieldsMissing, t)
    else
      var value := toNumber(Clean(marks));
      if value < 0.0 || !IsStudent(t.students, studentId) then Step(DatabaseError, t)
      else Step(Saved, t.(marks := t.marks + [Mark(studentId, Clean(subject), Clean(term), value)]))
  }

  // ----- add_student -----

  /** Appending a student with the next id and a new roll keeps every table constraint. */
  lemma AppendStudentValid(t: Tables, s: Student)
    requires Valid(t) && s.id == t.nextId && !RollTaken(t.students, s.roll)
    ensures Valid(t.(students := t.students + [s], nextId := t.nextId + 1))
  {
    var ss := t.students + [s];
    forall i, j | 0 <= i < j < |ss| ensures !SameText(ss[i].roll, ss[j].roll) {
      if j == |ss| - 1 {
        assert ss[i] in t.students;
      }
    }
    forall id | IsStudent(t.students, id) ensures IsStudent(ss, id) {
      var w :| w in t.students && w.id == id;
      assert w in ss;
    }
  }

  /** Adding a student keeps every table constraint. */
  lemma AddStudentValid(t: Tables, name: Field, roll: Field, cls: Field, skills: Field)
    requires Valid(t)
    ensures Valid(AddStudent(t, name, roll, cls, skills).tables)
  {
    var s := NewStudent(t, name, roll, cls, skills);
    if s.name != "" && s.roll != "" && s.cls != "" && !RollTaken(t.students, s.roll) {
      AppendStudentValid(t, s);
      assert AddStudent(t, name, roll, cls, skills).tables == t.(students := t.students + [s], nextId := t.nextId + 1);
    }
  }

  /**
   * When `add_student` saves: exactly when name, roll and class are non-blank
   * after trimming and no student has the roll yet; a failed request leaves
   * the tables as they were.
   */
  lemma AddStudentOutcome(t: Tables, name: Field, roll: Field, cls: Field, skills: Field)
    ensures var r := AddStudent(t, name, roll, cls, skills);
      (r.outcome == FieldsMissing <==> Clean(name) == "" || Clean(roll) == "" || Clean(cls) == "") &&
      (r.outcome == Saved <==> Clean(name) != "" && Clean(roll) != "" && Clean(cls) != "" &&
                               forall s :: s in t.students ==> !SameText(s.roll, Clean(roll))) &&
      (r.outcome != Saved ==> r.tables == t)
  {
  }

  /**
   * A saved `add_student` appends exactly one student, holding the cleaned
   * fields (skills may be blank), whose id is above every existing id; the
   * other tables are untouched.
   */
  lemma AddStudentSaved(t: Tables, name: Field, roll: Field, cls: Field, skills: Field)
    requires Valid(t)
    requires AddStudent(t, name, roll, cls, skills).outcome == Saved
    ensures var after := AddStudent(t, name, roll, cls, skills).tables;
      |after.students| == |t.students| + 1 && after.students[..|t.students|] == t.students &&
      var s := after.students[|t.students|];
      s.name == Clean(name) && s.roll == Clean(roll) && s.cls == Clean(cls) && s.skills == Clean(skills) &&
      (forall i :: 0 <= i < |t.students| ==> t.students[i].id < s.id) &&
      after.attendance == t.attendance && after.marks == t.marks
  {
    var s := NewStudent(t, name, roll, cls, skills);
    var after := AddStudent(t, name, roll, cls, skills).tables;
    assert after == t.(students := t.students + [s], nextId := t.nextId + 1);
    assert after.students[..|t.students|] == t.students;
  }

  /** A second submission with a roll already saved fails and creates no second row. */
  lemma AddStudentTwice(t: Tables, name: Field, roll: Field, cls: Field, skills: Field, name2: Field, cls2: Field, skills2: Field)
    requires AddStudent(t, name, roll, cls, skills).outcome == Saved
    ensures var t1 := AddStudent(t, name, roll, cls, skills).tables;
      AddStudent(t1, name2, roll, cls2, skills2).outcome != Saved &&
      AddStudent(t1, name2, roll, cls2, skills2).tables == t1
  {
    var t1 := AddStudent(t, name, roll, cls, skills).tables;
    assert NewStudent(t, name, roll, cls, skills) in t1.students;
  }

  // ----- add_attendance -----

  /** Upserting into a table with unique keys leaves the keys unique; the row is in the result. */
  lemma UpsertUnique(attendance: seq<Attendance>, row: Attendance)
    requires AttendanceKeysUnique(attendance)
    ensures AttendanceKeysUnique(Upsert(attendance, row))
    ensures row in Upsert(attendance, row)
  {
    var u := Upsert(attendance, row);
    match FindKey(attendance, row.studentId, row.date)
    case Some(k) =>
      assert u[k] == row;
      forall i, j | 0 <= i < j < |u| ensures !SameKey(u[j], u[i].studentId, u[i].date) {
        if i == k {
          assert !SameKey(attendance[j], attendance[k].studentId, attendance[k].date);
        } else if j == k {
          assert !SameKey(attendance[k], attendance[i].studentId, attendance[i].date);
        }
      }
    case None =>
      assert u[|u| - 1] == row;
  }

  /** Recording attendance keeps every table constraint. */
  lemma AddAttendanceValid(t: Tables, studentId: int, date: Field, status: Field)
    requires Valid(t)
    ensures Valid(AddAttendance(t, studentId, date, status).tables)
  {
    var r := AddAttendance(t, studentId, date, status);
    if r.outcome == Saved {
      var row := Attendance(studentId, Clean(date), StatusOf(StatusText(status)).value);
      UpsertUnique(t.attendance, row);
      var u := r.tables.attendance;
      forall i | 0 <= i < |u| ensures IsStudent(t.students, u[i].studentId) {
        if u[i] != row {
          match FindKey(t.attendance, row.studentId, row.date)
          case Some(k) =>
            assert u[i] == t.attendance[i];
          case None =>
            assert u[i] == t.attendance[i];
        }
      }
    }
  }

  /**
   * A successful upsert: exactly one row has the key, it holds the new
   * status, and every row with another key is kept and no other row appears.
   */
  lemma UpsertEffect(attendance: seq<Attendance>, row: Attendance)
    requires AttendanceKeysUnique(attendance)
    ensures var u := Upsert(attendance, row);
      (exists i :: 0 <= i < |u| && u[i] == row) &&
      (forall i :: 0 <= i < |u| && SameKey(u[i], row.studentId, row.date) ==> u[i] == row) &&
      (forall a :: !SameKey(a, row.studentId, row.date) ==> (a in u <==> a in attendance))
  {
    var u := Upsert(attendance, row);
    UpsertUnique(attendance, row);
    forall i | 0 <= i < |u| && SameKey(u[i], row.studentId, row.date) ensures u[i] == row {
      var k :| 0 <= k < |u| && u[k] == row;
    }
    forall a | !SameKey(a, row.studentId, row.date) ensures a in u <==> a in attendance {
      match FindKey(attendance, row.studentId, row.date)
      case Some(k) =>
        if a in attendance {
          var i :| 0 <= i < |attendance| && attendance[i] == a;
          assert u[i] == a;
        }
        if a in u {
          var i :| 0 <= i < |u| && u[i] == a;
          assert attendance[i] == a;
        }
      case None =>
    }
  }

  /**
   * What `add_attendance` does: it is refused without a student or a date,
   * fails for an unknown student or a status outside the ENUM, and otherwise
   * leaves exactly one row for (student, date) holding the submitted status,
   * with all rows for other keys and the other tables unchanged.
   */
  lemma AddAttendanceEffect(t: Tables, studentId: int, date: Field, status: Field)
    requires Valid(t)
    ensures var r := AddAttendance(t, studentId, date, status);
      (r.outcome == FieldsMissing <==> studentId == 0 || Clean(date) == "") &&
      (r.outcome == Saved <==> studentId != 0 && Clean(date) != "" && IsStudent(t.students, studentId) &&
                               StatusOf(StatusText(status)).Some?) &&
      (r.outcome != Saved ==> r.tables == t) &&
      (r.outcome == Saved ==>
        var a := r.tables.attendance;
        var st := StatusOf(StatusText(status)).value;
        (exists i :: 0 <= i < |a| && a[i] == Attendance(studentId, Clean(date), st)) &&
        (forall i :: 0 <= i < |a| && SameKey(a[i], studentId, Clean(date)) ==> a[i].status == st) &&
        (forall x :: !SameKey(x, studentId, Clean(date)) ==> (x in a <==> x in t.attendance)) &&
        r.tables.students == t.students && r.tables.marks == t.marks && r.tables.nextId == t.nextId)
  {
    var r := AddAttendance(t, studentId, date, status);
    if r.outcome == Saved {
      UpsertEffect(t.attendance, Attendance(studentId, Clean(date), StatusOf(StatusText(status)).value));
    }
  }

  /** A later upsert for the same key finds the row the earlier one left, so only the later one counts. */
  lemma UpsertOverwrites(attendance: seq<Attendance>, first: Attendance, second: Attendance)
    requires SameKey(first, second.studentId, second.date)
    ensures Upsert(Upsert(attendance, first), second) == Upsert(attendance, second)
  {
    match FindKey(attendance, second.studentId, second.date)
    case Some(k) =>
      var u := attendance[k := first];
      assert FindKey(u, second.studentId, second.date) == Some(k) by {
        var f := FindKey(u, second.studentId, second.date);
        assert SameKey(u[k], second.studentId, second.date);
        assert f.Some?;
      }
    case None =>
      var u := attendance + [first];
      assert FindKey(u, second.studentId, second.date) == Some(|attendance|) by {
        var f := FindKey(u, second.studentId, second.date);
        assert SameKey(u[|attendance|], second.studentId, second.date);
        assert f.Some?;
      }
      assert u[|attendance| := second] == attendance + [second];
  }

  /**
   * Resubmitting attendance for the same student and date: when the second
   * submission is saved, the tables end up as if only it had been made, so a
   * single row holds the second status.
   */
  lemma AddAttendanceResubmit(t: Tables, studentId: int, date: Field, status1: Field, status2: Field)
    requires AddAttendance(t, studentId, date, status2).outcome == Saved
    ensures var t1 := AddAttendance(t, studentId, date, status1).tables;
      AddAttendance(t1, studentId, date, status2) == AddAttendance(t, studentId, date, status2)
  {
    var d := Clean(date);
    var row2 := Attendance(studentId, d, StatusOf(StatusText(status2)).value);
    var r1 := AddAttendance(t, studentId, date, status1);
    var t1 := r1.tables;
    assert t1.students == t.students;
    if r1.outcome == Saved {
      var row1 := Attendance(studentId, d, StatusOf(StatusText(status1)).value);
      assert t1 == t.(attendance := Upsert(t.attendance, row1));
      UpsertOverwrites(t.attendance, row1, row2);
      assert AddAttendance(t1, studentId, date, status2).tables == t.(attendance := Upsert(t1.attendance, row2));
    }
  }

  // ----- add_marks -----

  /** Recording marks keeps every table constraint. */
  lemma AddMarksValid(t: Tables, studentId: int, subject: Field, term: Field, marks: Field, toNumber: string -> real)
    requires Valid(t)
    ensures Valid(AddMarks(t, studentId, subject, term, marks, toNumber).tables)
  {
    var r := AddMarks(t, studentId, subject, term, marks, toNumber);
    if r.outcome == Saved {
      var row := Mark(studentId, Clean(subject), Clean(term), toNumber(Clean(marks)));
      assert r.tables == t.(marks := t.marks + [row]);
      AppendMarkValid(t, row);
    }
  }

  /** Appending a non-negative mark of an existing student keeps every table constraint. */
  lemma AppendMarkValid(t: Tables, row: Mark)
    requires Valid(t) && row.marks >= 0.0 && IsStudent(t.students, row.studentId)
    ensures Valid(t.(marks := t.marks + [row]))
  {
    var ms := t.marks + [row];
    forall i | 0 <= i < |ms| ensures IsStudent(t.students, ms[i].studentId) && ms[i].marks >= 0.0 {
      if i < |t.marks| {
        assert ms[i] == t.marks[i];
      }
    }
  }

  /**
   * What `add_marks` does: it is refused when the student or any field is
   * blank, fails for a negative value or an unknown student, and otherwise
   * appends exactly one row; existing rows are never modified.
   */
  lemma AddMarksEffect(t: Tables, studentId: int, subject: Field, term: Field, marks: Field, toNumber: string -> real)
    ensures var r := AddMarks(t, studentId, subject, term, marks, toNumber);
      var blank := studentId == 0 || Clean(subject) == "" || Clean(term) == "" || Clean(marks) == "";
      (r.outcome == FieldsMissing <==> blank) &&
      (r.outcome == Saved <==> !blank && toNumber(Clean(marks)) >= 0.0 && IsStudent(t.students, studentId)) &&
      (r.outcome != Saved ==> r.tables == t) &&
      (r.outcome == Saved ==>
        r.tables.marks == t.marks + [Mark(studentId, Clean(subject), Clean(term), toNumber(Clean(marks)))] &&
        r.tables.students == t.students && r.tables.attendance == t.attendance && r.tables.nextId == t.nextId)
  {
  }
}
