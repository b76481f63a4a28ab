/**
 * The derived figures of the dashboard and the report: attendance counts and
 * percentage, the average of a student's marks, rounding to two decimals,
 * and the three-tier health classification.
 */
module Metrics {
  import opened Schema

  /** `SUM(status='Present')` over the attendance rows of one student. */
  function PresentCount(attendance: seq<Attendance>, id: int): (n: nat)
    ensures n <= TotalCount(attendance, id)
  {
    if attendance == [] then 0
    else
      var last := attendance[|attendance| - 1];
      PresentCount(attendance[..|attendance| - 1], id) + (if last.studentId == id && last.status == Present then 1 else 0)
  }

  /** `COUNT(*)` over the attendance rows of one student. */
  function TotalCount(attendance: seq<Attendance>, id: int): nat {
    if attendance == [] then 0
    else
      var last := attendance[|attendance| - 1];
      TotalCount(attendance[..|attendance| - 1], id) + (if last.studentId == id then 1 else 0)
  }

  /** A student with no attendance rows has a count of zero. */
  lemma {:induction false} TotalCountZero(attendance: seq<Attendance>, id: int)
    ensures TotalCount(attendance, id) == 0 <==> forall a :: a in attendance ==> a.studentId != id
  {
    if attendance != [] {
      var init := attendance[..|attendance| - 1];
      TotalCountZero(init, id);
      assert attendance == init + [attendance[|attendance| - 1]];
    }
  }

  /** The number of mark rows of one student. */
  function MarkCount(marks: seq<Mark>, id: int): nat {
    if marks == [] then 0
    else MarkCount(marks[..|marks| - 1], id) + (if marks[|marks| - 1].studentId == id then 1 else 0)
  }

  /** A student with no mark rows has a count of zero. */
  lemma {:induction false} MarkCountZero(marks: seq<Mark>, id: int)
    ensures MarkCount(marks, id) == 0 <==> forall m :: m in marks ==> m.studentId != id
  {
    if marks != [] {
      var init := marks[..|marks| - 1];
      MarkCountZero(init, id);
      assert marks == init + [marks[|marks| - 1]];
    }
  }

  /** The sum of the marks of one student. */
  function MarkSum(marks: seq<Mark>, id: int): real {
    if marks == [] then 0.0
    else
      var last := marks[|marks| - 1];
      MarkSum(marks[..|marks| - 1], id) + (if last.studentId == id then last.marks else 0.0)
  }

  /** A student without mark rows has a sum of 0. */
  lemma {:induction false} MarkSumZero(marks: seq<Mark>, id: int)
    ensures MarkCount(marks, id) == 0 ==> MarkSum(marks, id) == 0.0
  {
    if marks != [] {
      MarkSumZero(marks[..|marks| - 1], id);
    }
  }

  /**
   * Attendance percent: present * 100 / total, and 0 when the student has no
   * attendance rows (the zero-total guard).
   */
  function AttendancePercent(present: nat, total: nat): (p: real)
    ensures total > 0 ==> p * total as real == present as real * 100.0
    ensures total == 0 ==> p == 0.0
    ensures present <= total ==> 0.0 <= p <= 100.0
  {
    if total > 0 then present as real / total as real * 100.0 else 0.0
  }

  /** `AVG(marks)` of one student, 0 when the student has no mark rows. */
  function AverageMarks(marks: seq<Mark>, id: int): (a: real)
    ensures MarkCount(marks, id) > 0 ==> a * MarkCount(marks, id) as real == MarkSum(marks, id)
    ensures MarkCount(marks, id) == 0 ==> a == 0.0
  {
    var n := MarkCount(marks, id);
    if n > 0 then MarkSum(marks, id) / n as real else 0.0
  }

  /** A lower bound on the marks of a student bounds their sum from below. */
  lemma {:induction false} MarkSumAtLeast(marks: seq<Mark>, id: int, lo: real)
    requires forall m :: m in marks && m.studentId == id ==> lo <= m.marks
    ensures lo * MarkCount(marks, id) as real <= MarkSum(marks, id)
  {
    if marks != [] {
      var init := marks[..|marks| - 1];
      forall m | m in init && m.studentId == id ensures lo <= m.marks {
        assert m in marks;
      }
      MarkSumAtLeast(init, id, lo);
      assert marks[|marks| - 1] in marks;
    }
  }

  /** An upper bound on the marks of a student bounds their sum from above. */
  lemma {:induction false} MarkSumAtMost(marks: seq<Mark>, id: int, hi: real)
    requires forall m :: m in marks && m.studentId == id ==> m.marks <= hi
    ensures MarkSum(marks, id) <= hi * MarkCount(marks, id) as real
  {
    if marks != [] {
      var init := marks[..|marks| - 1];
      forall m | m in init && m.studentId == id ensures m.marks <= hi {
        assert m in marks;
      }
      MarkSumAtMost(init, id, hi);
      assert marks[|marks| - 1] in marks;
    }
  }

  /**
   * The average lies between the smallest and the largest mark of the
   * student: every bound on all of them bounds the average too.
   */
  lemma AverageBetween(marks: seq<Mark>, id: int, lo: real, hi: real)
    requires forall m :: m in marks && m.studentId == id ==> lo <= m.marks <= hi
    requires MarkCount(marks, id) > 0
    ensures lo <= AverageMarks(marks, id) <= hi
  {
    var n := MarkCount(marks, id);
    var sum := MarkSum(marks, id);
    MarkSumAtLeast(marks, id, lo);
    MarkSumAtMost(marks, id, hi);
    QuotientBetween(sum, n as real, lo, hi);
    assert AverageMarks(marks, id) == sum / n as real;
  }

  /** A sum bounded by `lo * n` and `hi * n` has its quotient by `n` between `lo` and `hi`. */
  lemma QuotientBetween(sum: real, n: real, lo: real, hi: real)
    requires n > 0.0 && lo * n <= sum <= hi * n
    ensures lo <= sum / n <= hi
  {
  }

  /** With non-negative marks (the CHECK constraint) the average is non-negative. */
  lemma AverageNonNegative(marks: seq<Mark>, id: int)
    requires MarksNonNegative(marks)
    ensures AverageMarks(marks, id) >= 0.0
  {
    if MarkCount(marks, id) > 0 {
      forall m | m in marks && m.studentId == id ensures 0.0 <= m.marks {
        var i :| 0 <= i < |marks| && marks[i] == m;
      }
      MarkSumAtLeast(marks, id, 0.0);
    }
  }

  /**
   * `round(x, 2)` on an exact value: to the nearest multiple of 0.01, halves
   * rounded away from zero.
   */
  function Round2(x: real): real {
    Hundredths(x) as real / 100.0
  }

  /** The whole number of hundredths that `round(x, 2)` lands on. */
  function Hundredths(x: real): int {
    if x >= 0.0 then (x * 100.0 + 0.5).Floor else -((-x * 100.0 + 0.5).Floor)
  }

  /** The hundredths are within half a unit of `100 * x`, and not negative for non-negative `x`. */
  lemma HundredthsNear(x: real)
    ensures x * 100.0 - 0.5 <= Hundredths(x) as real <= x * 100.0 + 0.5
    ensures x >= 0.0 ==> Hundredths(x) >= 0
  {
    var y := if x >= 0.0 then x * 100.0 + 0.5 else -x * 100.0 + 0.5;
    assert y.Floor as real <= y < y.Floor as real + 1.0;
  }

  /** The rounded value is within half a hundredth of `x`, keeps its sign and is a whole number of hundredths. */
  lemma Round2Near(x: real)
    ensures x - 0.005 <= Round2(x) <= x + 0.005
    ensures x >= 0.0 ==> Round2(x) >= 0.0
    ensures Round2(x) * 100.0 == Hundredths(x) as real
  {
    HundredthsNear(x);
  }

  /** Rounding never reverses the order of two values. */
  lemma Round2Monotone(x: real, y: real)
    requires x <= y
    ensures Round2(x) <= Round2(y)
  {
    if x >= 0.0 {
      assert (x * 100.0 + 0.5).Floor <= (y * 100.0 + 0.5).Floor;
    } else if y < 0.0 {
      assert (-y * 100.0 + 0.5).Floor <= (-x * 100.0 + 0.5).Floor;
    } else {
      HundredthsNear(x);
      HundredthsNear(y);
    }
  }

  /** A percentage in [0, 100] stays in [0, 100] after rounding. */
  lemma Round2Percent(x: real)
    requires 0.0 <= x <= 100.0
    ensures 0.0 <= Round2(x) <= 100.0
  {
    Round2Monotone(x, 100.0);
    assert (100.0 * 100.0 + 0.5).Floor == 10000;
  }

  /** The three tiers of the dashboard's health column. */
  datatype Health = Good | Average | NeedsAttention

  /** The health of a row from its attendance percent and average marks. */
  function HealthOf(attendance: real, average: real): Health {
    if attendance >= 75.0 && average >= 60.0 then Good
    else if attendance >= 60.0 || average >= 50.0 then Average
    else NeedsAttention
  }

  /** The order of the tiers, worst first. */
  function Rank(h: Health): nat {
    match h
    case NeedsAttention => 0
    case Average => 1
    case Good => 2
  }

  /**
   * Each tier's condition: Good needs both thresholds (inclusive), Needs
   * Attention needs both figures below the lower thresholds, and Average is
   * everything in between.
   */
  lemma HealthTiers(attendance: real, average: real)
    ensures HealthOf(attendance, average) == Good <==> attendance >= 75.0 && average >= 60.0
    ensures HealthOf(attendance, average) == NeedsAttention <==> attendance < 60.0 && average < 50.0
    ensures HealthOf(attendance, average) == Average <==>
      !(attendance >= 75.0 && average >= 60.0) && (attendance >= 60.0 || average >= 50.0)
  {
  }

  /** Better figures never give a worse tier. */
  lemma HealthMonotone(att1: real, avg1: real, att2: real, avg2: real)
    requires att1 <= att2 && avg1 <= avg2
    ensures Rank(HealthOf(att1, avg1)) <= Rank(HealthOf(att2, avg2))
  {
  }
}
