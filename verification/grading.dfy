/** Averages and letter grades (`get_grade` and the `avg` computation of main1.py). */
module Grading {
  import opened Records

  /** `get_grade`: 90 and above is A, 75 and above B, 60 and above C, anything lower D. */
  function GetGrade(avg: real): (g: Grade)
    ensures g == A <==> avg >= 90.0
    ensures g == B <==> 75.0 <= avg < 90.0
    ensures g == C <==> 60.0 <= avg < 75.0
    ensures g == D <==> avg < 60.0
  {
    if avg >= 90.0 then A
    else if avg >= 75.0 then B
    else if avg >= 60.0 then C
    else D
  }

  /** Grades ranked from D (0) up to A (3). */
  function Rank(g: Grade): nat {
    match g
    case D => 0
    case C => 1
    case B => 2
    case A => 3
  }

  /** A higher average never earns a lower grade. */
  lemma GradeMonotone(lo: real, hi: real)
    requires lo <= hi
    ensures Rank(GetGrade(lo)) <= Rank(GetGrade(hi))
  {
  }

  /** `sum(marks.values())`. */
  function Sum(m: Marks): int {
    if |m| == 0 then 0 else Sum(m[..|m| - 1]) + m[|m| - 1].1
  }

  /** `sum(marks.values()) / len(marks)`, defined only when there is at least one mark. */
  function Average(m: Marks): (avg: real)
    requires |m| > 0
    ensures avg * (|m| as real) == Sum(m) as real
  {
    (Sum(m) as real) / (|m| as real)
  }

  /** Scaling by a positive factor keeps the order of two reals. */
  lemma ScaleOrder(a: real, b: real, n: real)
    requires n > 0.0
    ensures a >= b <==> a * n >= b * n
  {
    assert a * n - b * n == (a - b) * n;
    if a >= b {
      assert (a - b) * n >= 0.0;
    } else {
      assert (a - b) * n < 0.0;
    }
  }

  /** `avg >= t` exactly when the total reaches `t` times the number of marks. */
  lemma AverageAtLeast(m: Marks, t: int)
    requires |m| > 0
    ensures Average(m) >= t as real <==> Sum(m) >= t * |m|
  {
    var n := |m| as real;
    assert Average(m) * n == Sum(m) as real;
    assert (t as real) * n == (t * |m|) as real;
    ScaleOrder(Average(m), t as real, n);
  }

  /** The grade of a mark list in integer terms: A when the total reaches 90 per subject, and so on. */
  lemma GradeOfMarks(m: Marks)
    requires |m| > 0
    ensures GetGrade(Average(m)) == A <==> Sum(m) >= 90 * |m|
    ensures GetGrade(Average(m)) == B <==> 75 * |m| <= Sum(m) < 90 * |m|
    ensures GetGrade(Average(m)) == C <==> 60 * |m| <= Sum(m) < 75 * |m|
    ensures GetGrade(Average(m)) == D <==> Sum(m) < 60 * |m|
  {
    AverageAtLeast(m, 90);
    AverageAtLeast(m, 75);
    AverageAtLeast(m, 60);
  }
}
