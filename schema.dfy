/**
 * The three tables of the portal and the constraints their definitions
 * impose: the AUTO_INCREMENT primary key and UNIQUE roll of `students`, the
 * UNIQUE (student_id, date) key, the foreign key and the two-valued status of
 * `attendance`, and the foreign key and `CHECK (marks >= 0)` of `marks`.
 */
module Schema {
  import opened Wrappers
  import opened Text

  /** A row of `students`; `cls` is the `class` column. */
  datatype Student = Student(id: int, name: string, roll: string, cls: string, skills: string)

  /** The values of the `status` ENUM column. */
  datatype Status = Present | Absent

  /** A row of `attendance`, keyed by (studentId, date). */
  datatype Attendance = Attendance(studentId: int, date: string, status: Status)

  /** A row of `marks`; any number of rows per student, subject and term. */
  datatype Mark = Mark(studentId: int, subject: string, term: string, marks: real)

  /**
   * The database contents. `students` is kept in insertion order, which is
   * ascending id order; `nextId` is the AUTO_INCREMENT counter of `students`.
   */
  datatype Tables = Tables(students: seq<Student>, attendance: seq<Attendance>, marks: seq<Mark>, nextId: int)

  /** The freshly created schema: three empty tables, ids starting at 1. */
  const Empty := Tables([], [], [], 1)

  /** Some row of `students` has the given id (the target of both foreign keys). */
  predicate IsStudent(students: seq<Student>, id: int) {
    exists s :: s in students && s.id == id
  }

  /** Some row of `students` has a roll equal to `roll` under the collation. */
  predicate RollTaken(students: seq<Student>, roll: string) {
    exists s :: s in students && SameText(s.roll, roll)
  }

  predicate SameKey(a: Attendance, studentId: int, date: string) {
    a.studentId == studentId && a.date == date
  }

  /** Ids are positive and below the AUTO_INCREMENT counter. */
  predicate IdsIssued(students: seq<Student>, nextId: int) {
    1 <= nextId && forall i :: 0 <= i < |students| ==> 1 <= students[i].id < nextId
  }

  /** Later rows have larger ids: the primary key is unique and increasing. */
  predicate IdsAscending(students: seq<Student>) {
    forall i, j :: 0 <= i < j < |students| ==> students[i].id < students[j].id
  }

  /** `roll VARCHAR(40) NOT NULL UNIQUE`. */
  predicate RollsUnique(students: seq<Student>) {
    forall i, j :: 0 <= i < j < |students| ==> !SameText(students[i].roll, students[j].roll)
  }

  /** `UNIQUE KEY uniq_att (student_id, date)`. */
  predicate AttendanceKeysUnique(attendance: seq<Attendance>) {
    forall i, j :: 0 <= i < j < |attendance| ==> !SameKey(attendance[j], attendance[i].studentId, attendance[i].date)
  }

  /** `FOREIGN KEY(student_id) REFERENCES students(id)` on `attendance`. */
  predicate AttendanceRefs(students: seq<Student>, attendance: seq<Attendance>) {
    forall i :: 0 <= i < |attendance| ==> IsStudent(students, attendance[i].studentId)
  }

  /** `FOREIGN KEY(student_id) REFERENCES students(id)` on `marks`. */
  predicate MarksRefs(students: seq<Student>, marks: seq<Mark>) {
    forall i :: 0 <= i < |marks| ==> IsStudent(students, marks[i].studentId)
  }

  /** `CHECK (marks >= 0)`. */
  predicate MarksNonNegative(marks: seq<Mark>) {
    forall i :: 0 <= i < |marks| ==> marks[i].marks >= 0.0
  }

  /** Every constraint of the three table definitions holds. */
  predicate Valid(t: Tables) {
    IdsIssued(t.students, t.nextId) && IdsAscending(t.students) && RollsUnique(t.students) &&
    AttendanceKeysUnique(t.attendance) && AttendanceRefs(t.students, t.attendance) &&
    MarksRefs(t.students, t.marks) && MarksNonNegative(t.marks)
  }

  /** The freshly created schema satisfies its own constraints. */
  lemma EmptyValid()
    ensures Valid(Empty)
  {
  }

  /** The ENUM label of a status. */
  function StatusName(s: Status): string {
    match s
    case Present => "Present"
    case Absent => "Absent"
  }

  /**
   * The status a string denotes when stored into the ENUM column; None when it
   * is not one of the labels (compared under the collation).
   */
  function StatusOf(text: string): Option<Status> {
    if SameText(text, "Present") then Some(Present)
    else if SameText(text, "Absent") then Some(Absent)
    else None
  }

  /**
   * Every label is read back as its own status, a text is accepted exactly
   * when it equals a label under the collation, and then as that label.
   */
  lemma StatusRoundTrip(s: Status, text: string)
    ensures StatusOf(StatusName(s)) == Some(s)
    ensures StatusOf(text).Some? ==> SameText(text, StatusName(StatusOf(text).value))
    ensures SameText(text, StatusName(s)) ==> StatusOf(text) == Some(s)
  {
    assert Fold("Present") == "present";
    assert Fold("Absent") == "absent";
  }

  /** The position of the attendance row with key (studentId, date), if any: the unique-index lookup. */
  function FindKey(attendance: seq<Attendance>, studentId: int, date: string): (r: Option<nat>)
    ensures r.Some? ==> r.value < |attendance| && SameKey(attendance[r.value], studentId, date)
    ensures r.Some? ==> forall k :: 0 <= k < r.value ==> !SameKey(attendance[k], studentId, date)
    ensures r.None? ==> forall k :: 0 <= k < |attendance| ==> !SameKey(attendance[k], studentId, date)
  {
    if attendance == [] then None
    else if SameKey(attendance[0], studentId, date) then Some(0)
    else match FindKey(attendance[1..], studentId, date)
      case None => None
      case Some(k) => Some(k + 1)
  }
}
