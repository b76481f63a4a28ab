/**
 * The read side: the student listing with its optional search and class
 * filters, the per-student rows of the dashboard, and the unfiltered rows of
 * the CSV report.
 */
module Queries {
  import opened Text
  import opened Schema
  import opened Metrics

  /** One predicate of the WHERE clause that the listing assembles. */
  datatype Condition =
    | NameOrRollLike(pattern: string)  // (name LIKE '%q%' OR roll LIKE '%q%')
    | ClassIs(cls: string)             // class = ?

  /** The WHERE clause of the listing: one condition per non-empty filter, in order. */
  function Conditions(q: string, classFilter: string): (conds: seq<Condition>)
    ensures |conds| <= 2
  {
    (if q != "" then [NameOrRollLike(q)] else []) + (if classFilter != "" then [ClassIs(classFilter)] else [])
  }

  predicate Holds(s: Student, c: Condition) {
    match c
    case NameOrRollLike(p) => Like(s.name, p) || Like(s.roll, p)
    case ClassIs(k) => SameText(s.cls, k)
  }

  /** The conditions joined by AND; an empty list is no WHERE clause at all. */
  predicate Satisfies(s: Student, conds: seq<Condition>) {
    conds == [] || (Holds(s, conds[0]) && Satisfies(s, conds[1..]))
  }

  predicate Matches(s: Student, q: string, classFilter: string) {
    Satisfies(s, Conditions(q, classFilter))
  }

  /**
   * The meaning of the filters: an empty filter imposes nothing, a search
   * must occur in the name or the roll, and a class must be equal.
   */
  lemma MatchesFilters(s: Student, q: string, classFilter: string)
    ensures Matches(s, q, classFilter) <==>
      (q == "" || Like(s.name, q) || Like(s.roll, q)) && (classFilter == "" || SameText(s.cls, classFilter))
  {
    var conds := Conditions(q, classFilter);
    var search := Like(s.name, q) || Like(s.roll, q);
    var inClass := SameText(s.cls, classFilter);
    if q != "" && classFilter != "" {
      assert conds == [NameOrRollLike(q), ClassIs(classFilter)];
      assert Satisfies(s, conds) == (search && inClass) by {
        assert conds[1..] == [ClassIs(classFilter)];
        assert conds[1..][1..] == [];
        assert Satisfies(s, conds[1..]) == inClass;
      }
    } else if q != "" {
      assert conds == [NameOrRollLike(q)];
      assert Satisfies(s, conds) == search by {
        assert conds[1..] == [];
      }
    } else if classFilter != "" {
      assert conds == [ClassIs(classFilter)];
      assert Satisfies(s, conds) == inClass by {
        assert conds[1..] == [];
      }
    } else {
      assert conds == [];
    }
  }

  /**
   * `SELECT * FROM students WHERE ... ORDER BY id DESC` over a table kept in
   * ascending id order: the matching rows, newest first.
   */
  function Listing(students: seq<Student>, q: string, classFilter: string): seq<Student> {
    if students == [] then []
    else Listing(students[1..], q, classFilter) + (if Matches(students[0], q, classFilter) then [students[0]] else [])
  }

  /** The listing holds exactly the students that match both filters. */
  lemma {:induction false} ListingMembers(students: seq<Student>, q: string, classFilter: string)
    ensures forall s :: s in Listing(students, q, classFilter) <==> s in students && Matches(s, q, classFilter)
  {
    if students != [] {
      ListingMembers(students[1..], q, classFilter);
      assert students == [students[0]] + students[1..];
    }
  }

  predicate Descending(listed: seq<Student>) {
    forall i, j :: 0 <= i < j < |listed| ==> listed[i].id > listed[j].id
  }

  /** The listing is in strictly descending id order. */
  lemma {:induction false} ListingDescending(students: seq<Student>, q: string, classFilter: string)
    requires IdsAscending(students)
    ensures Descending(Listing(students, q, classFilter))
  {
    if students != [] {
      var rest := students[1..];
      ListingDescending(rest, q, classFilter);
      ListingMembers(rest, q, classFilter);
      var l := Listing(rest, q, classFilter);
      forall s | s in l ensures s.id > students[0].id {
        var k :| 0 <= k < |rest| && rest[k] == s;
        assert students[k + 1] == s;
      }
    }
  }

  /** `s` in reverse order. */
  function Reverse<T>(s: seq<T>): (r: seq<T>)
    ensures |r| == |s|
    ensures forall k :: 0 <= k < |s| ==> r[k] == s[|s| - 1 - k]
  {
    if s == [] then [] else Reverse(s[1..]) + [s[0]]
  }

  /** With both filters empty the listing is the whole table, newest first. */
  lemma {:induction false} ListingUnfiltered(students: seq<Student>)
    ensures Listing(students, "", "") == Reverse(students)
  {
    if students != [] {
      ListingUnfiltered(students[1..]);
      assert Conditions("", "") == [];
    }
  }

  /** A dashboard or report row: the student's columns and the two derived figures. */
  datatype Row = Row(id: int, name: string, roll: string, cls: string, skills: string,
                     attendancePercent: real, avgMarks: real)

  /** The row of one student, aggregating all of its attendance and mark rows, both figures rounded to 2 decimals. */
  function RowFor(s: Student, attendance: seq<Attendance>, marks: seq<Mark>): Row {
    Row(s.id, s.name, s.roll, s.cls, s.skills,
        Round2(AttendancePercent(PresentCount(attendance, s.id), TotalCount(attendance, s.id))),
        Round2(AverageMarks(marks, s.id)))
  }

  /** The rounded attendance percent lies in [0, 100]; with the CHECK constraint the rounded average is non-negative. */
  lemma RowBounds(s: Student, attendance: seq<Attendance>, marks: seq<Mark>)
    requires MarksNonNegative(marks)
    ensures 0.0 <= RowFor(s, attendance, marks).attendancePercent <= 100.0
    ensures RowFor(s, attendance, marks).avgMarks >= 0.0
  {
    Round2Percent(AttendancePercent(PresentCount(attendance, s.id), TotalCount(attendance, s.id)));
    AverageNonNegative(marks, s.id);
    Round2Near(AverageMarks(marks, s.id));
  }

  /** A student without attendance rows shows 0 percent, one without marks an average of 0. */
  lemma RowDefaults(s: Student, attendance: seq<Attendance>, marks: seq<Mark>)
    ensures (forall a :: a in attendance ==> a.studentId != s.id) ==> RowFor(s, attendance, marks).attendancePercent == 0.0
    ensures (forall m :: m in marks ==> m.studentId != s.id) ==> RowFor(s, attendance, marks).avgMarks == 0.0
  {
    TotalCountZero(attendance, s.id);
    MarkCountZero(marks, s.id);
    assert (0.0 * 100.0 + 0.5).Floor == 0;
  }

  /** One row per listed student, in the listing's order. */
  function Report(listed: seq<Student>, attendance: seq<Attendance>, marks: seq<Mark>): (rows: seq<Row>)
    ensures |rows| == |listed|
    ensures forall k :: 0 <= k < |listed| ==> rows[k] == RowFor(listed[k], attendance, marks)
  {
    if listed == [] then [] else [RowFor(listed[0], attendance, marks)] + Report(listed[1..], attendance, marks)
  }

  /**
   * The CSV report: the same aggregation over every student, without
   * filters, newest first.
   */
  function Export(t: Tables): seq<Row> {
    Report(Reverse(t.students), t.attendance, t.marks)
  }

  /**
   * The report has one row per student, whatever filters the dashboard has,
   * row `k` being the `k`-th newest student, and it is exactly the
   * dashboard with both filters empty.
   */
  lemma ExportRows(t: Tables)
    ensures |Export(t)| == |t.students|
    ensures forall k :: 0 <= k < |t.students| ==>
      Export(t)[k] == RowFor(t.students[|t.students| - 1 - k], t.attendance, t.marks)
    ensures Export(t) == Report(Listing(t.students, "", ""), t.attendance, t.marks)
  {
    ListingUnfiltered(t.students);
  }

  /** The health column of a dashboard row, judged on the rounded figures the row shows. */
  function RowHealth(r: Row): Health {
    HealthOf(r.attendancePercent, r.avgMarks)
  }

  /**
   * Rounding comes before the classification: an exact attendance of 74.996
   * percent would be Average, but the row shows 75.00 and is Good.
   */
  lemma RowHealthRounded()
    ensures HealthOf(74.996, 60.0) == Average
    ensures RowHealth(Row(1, "", "", "", "", Round2(74.996), 60.0)) == Good
  {
    assert (74.996 * 100.0 + 0.5).Floor == 7500;
  }

  /** A class filter excludes every student of another class. */
  lemma ClassFilterExample(s: Student)
    requires s.cls == "ECE-2B"
    ensures !Matches(s, "", "CSE-3A")
  {
    MatchesFilters(s, "", "CSE-3A");
    assert Fold("ECE-2B")[0] != Fold("CSE-3A")[0];
  }

  /** Three days present out of four shows as 75 percent. */
  lemma PercentExample()
    ensures Round2(AttendancePercent(3, 4)) == 75.0
  {
    assert (75.0 * 100.0 + 0.5).Floor == 7500;
  }
}
