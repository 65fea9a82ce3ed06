/** The `course_results` table row and the letter-grade band table `CourseResult.Grade`. */
module CourseResultEntity {
  import opened Wrappers
  import opened CourseEntity
  import opened RegistrationEntity

  type LecturerId = nat

  datatype Grade = APlus | A | AMinus | BPlus | B | BMinus | CPlus | C | CMinus | D | Fail

  /** `Grade.values()`: the constants in declaration order. */
  const Values: seq<Grade> := [APlus, A, AMinus, BPlus, B, BMinus, CPlus, C, CMinus, D, Fail]

  /** The letter shown for a grade: one of A, B, C, D, F, and a `+` or `-`
      after it for the split bands. */
  function DisplayName(g: Grade): (s: string)
    ensures 1 <= |s| <= 2 && s[0] in ['A', 'B', 'C', 'D', 'F']
    ensures |s| == 2 ==> s[1] == '+' || s[1] == '-'
  {
    match g
    case APlus => "A+"
    case A => "A"
    case AMinus => "A-"
    case BPlus => "B+"
    case B => "B"
    case BMinus => "B-"
    case CPlus => "C+"
    case C => "C"
    case CMinus => "C-"
    case D => "D"
    case Fail => "F"
  }

  /** Lower bound of a band, in whole marks; only FAIL starts at zero. */
  function MinMarks(g: Grade): (m: int)
    ensures 0 <= m <= MaxMarks(g)
    ensures m == 0 <==> g == Fail
  {
    match g
    case APlus => 85
    case A => 80
    case AMinus => 75
    case BPlus => 70
    case B => 65
    case BMinus => 60
    case CPlus => 55
    case C => 50
    case CMinus => 45
    case D => 40
    case Fail => 0
  }

  /** Upper bound of a band, in whole marks; only A+ reaches 100. */
  function MaxMarks(g: Grade): (m: int)
    ensures m <= 100
    ensures m == 100 <==> g == APlus
  {
    match g
    case APlus => 100
    case A => 84
    case AMinus => 79
    case BPlus => 74
    case B => 69
    case BMinus => 64
    case CPlus => 59
    case C => 54
    case CMinus => 49
    case D => 44
    case Fail => 39
  }

  /** No two grades are shown with the same letter. */
  lemma DisplayNamesDistinct(g: Grade, h: Grade)
    requires g != h
    ensures DisplayName(g) != DisplayName(h)
  {
  }

  /** In declaration order the bands run down from 100 to 0 in whole marks,
      each one starting one mark above where the next one ends. */
  lemma BandTableTiles()
    ensures MaxMarks(Values[0]) == 100 && MinMarks(Values[|Values| - 1]) == 0
    ensures forall i :: 0 <= i < |Values| - 1 ==> MinMarks(Values[i]) == MaxMarks(Values[i + 1]) + 1
  {
  }

  /** Marks are a decimal with scale 2, modelled as integer hundredths; the band
      test `marks >= min && marks <= max` is a closed interval. */
  predicate InBand(g: Grade, marks: int)
  {
    100 * MinMarks(g) <= marks <= 100 * MaxMarks(g)
  }

  /** The search loop of `Grade.fromMarks` from position `i` of `Values` on. */
  function FromMarksFrom(marks: int, i: nat): (g: Grade)
    requires i <= |Values|
    ensures forall j :: i <= j < |Values| && InBand(Values[j], marks) && (forall k :: i <= k < j ==> !InBand(Values[k], marks)) ==> g == Values[j]
    ensures (forall j :: i <= j < |Values| ==> !InBand(Values[j], marks)) ==> g == Fail
    ensures g == Fail || InBand(g, marks)
    decreases |Values| - i
  {
    if i == |Values| then Fail
    else if InBand(Values[i], marks) then Values[i]
    else FromMarksFrom(marks, i + 1)
  }

  /** `Grade.fromMarks`: the first band in declaration order whose closed
      interval holds the marks, and FAIL when none does. */
  function FromMarks(marks: int): (g: Grade)
    ensures g == Fail || InBand(g, marks)
    ensures (forall j :: 0 <= j < |Values| ==> !InBand(Values[j], marks)) ==> g == Fail
  {
    FromMarksFrom(marks, 0)
  }

  /** The position of a grade in the scale, FAIL lowest. */
  function Rank(g: Grade): nat
  {
    match g
    case Fail => 0
    case D => 1
    case CMinus => 2
    case C => 3
    case CPlus => 4
    case BMinus => 5
    case B => 6
    case BPlus => 7
    case AMinus => 8
    case A => 9
    case APlus => 10
  }

  /** The banding as a list of thresholds on whole marks: the highest grade
      whose lower bound the mark reaches. */
  function ThresholdGrade(k: int): Grade
  {
    if k >= 85 then APlus
    else if k >= 80 then A
    else if k >= 75 then AMinus
    else if k >= 70 then BPlus
    else if k >= 65 then B
    else if k >= 60 then BMinus
    else if k >= 55 then CPlus
    else if k >= 50 then C
    else if k >= 45 then CMinus
    else if k >= 40 then D
    else Fail
  }

  /** The second half of the search, from the C+ row on. */
  lemma {:induction false} FromMarksScanLower(m: int)
    ensures FromMarksFrom(m, 6) ==
      if InBand(CPlus, m) then CPlus
      else if InBand(C, m) then C
      else if InBand(CMinus, m) then CMinus
      else if InBand(D, m) then D
      else Fail
  {
    assert FromMarksFrom(m, 11) == Fail;
    assert FromMarksFrom(m, 10) == if InBand(Fail, m) then Fail else FromMarksFrom(m, 11);
    assert FromMarksFrom(m, 9) == if InBand(D, m) then D else FromMarksFrom(m, 10);
    assert FromMarksFrom(m, 8) == if InBand(CMinus, m) then CMinus else FromMarksFrom(m, 9);
    assert FromMarksFrom(m, 7) == if InBand(C, m) then C else FromMarksFrom(m, 8);
    assert FromMarksFrom(m, 6) == if InBand(CPlus, m) then CPlus else FromMarksFrom(m, 7);
  }

  /** The first half of the search, up to the B- row. */
  lemma {:induction false} FromMarksScanUpper(m: int)
    ensures FromMarks(m) ==
      if InBand(APlus, m) then APlus
      else if InBand(A, m) then A
      else if InBand(AMinus, m) then AMinus
      else if InBand(BPlus, m) then BPlus
      else if InBand(B, m) then B
      else if InBand(BMinus, m) then BMinus
      else FromMarksFrom(m, 6)
  {
    assert FromMarksFrom(m, 5) == if InBand(BMinus, m) then BMinus else FromMarksFrom(m, 6);
    assert FromMarksFrom(m, 4) == if InBand(B, m) then B else FromMarksFrom(m, 5);
    assert FromMarksFrom(m, 3) == if InBand(BPlus, m) then BPlus else FromMarksFrom(m, 4);
    assert FromMarksFrom(m, 2) == if InBand(AMinus, m) then AMinus else FromMarksFrom(m, 3);
    assert FromMarksFrom(m, 1) == if InBand(A, m) then A else FromMarksFrom(m, 2);
    assert FromMarksFrom(m, 0) == if InBand(APlus, m) then APlus else FromMarksFrom(m, 1);
  }

  /** The search, step by step through the table. */
  lemma FromMarksScan(m: int)
    ensures FromMarks(m) ==
      if InBand(APlus, m) then APlus
      else if InBand(A, m) then A
      else if InBand(AMinus, m) then AMinus
      else if InBand(BPlus, m) then BPlus
      else if InBand(B, m) then B
      else if InBand(BMinus, m) then BMinus
      else if InBand(CPlus, m) then CPlus
      else if InBand(C, m) then C
      else if InBand(CMinus, m) then CMinus
      else if InBand(D, m) then D
      else Fail
  {
    FromMarksScanUpper(m);
    FromMarksScanLower(m);
  }

  /** On whole marks 0..100 the closed bands agree with the threshold reading. */
  lemma IntegerMarksGrade(k: int)
    requires 0 <= k <= 100
    ensures FromMarks(100 * k) == ThresholdGrade(k)
    ensures InBand(FromMarks(100 * k), 100 * k)
  {
    var m := 100 * k;
    FromMarksScan(m);
    if k >= 85 { assert InBand(APlus, m); }
    else if k >= 80 { assert !InBand(APlus, m) && InBand(A, m); }
    else if k >= 75 { assert !InBand(A, m) && InBand(AMinus, m); }
    else if k >= 70 { assert !InBand(AMinus, m) && InBand(BPlus, m); }
    else if k >= 65 { assert !InBand(BPlus, m) && InBand(B, m); }
    else if k >= 60 { assert !InBand(B, m) && InBand(BMinus, m); }
    else if k >= 55 { assert !InBand(BMinus, m) && InBand(CPlus, m); }
    else if k >= 50 { assert !InBand(CPlus, m) && InBand(C, m); }
    else if k >= 45 { assert !InBand(C, m) && InBand(CMinus, m); }
    else if k >= 40 { assert !InBand(CMinus, m) && InBand(D, m); }
    else { assert !InBand(D, m) && InBand(Fail, m); }
  }

  /** Every whole mark 0..100 lies in exactly one band. */
  lemma IntegerMarksInOneBand(k: int, g: Grade)
    requires 0 <= k <= 100
    ensures InBand(g, 100 * k) <==> g == ThresholdGrade(k)
  {
  }

  /** The bands are pairwise disjoint. */
  lemma BandsDisjoint(g1: Grade, g2: Grade, m: int)
    requires g1 != g2
    ensures !(InBand(g1, m) && InBand(g2, m))
  {
  }

  /** On whole marks 0..100, a higher mark never earns a lower grade. */
  lemma FromMarksMonotone(x: int, y: int)
    requires 0 <= x <= y <= 100
    ensures Rank(FromMarks(100 * x)) <= Rank(FromMarks(100 * y))
  {
    IntegerMarksGrade(x);
    IntegerMarksGrade(y);
  }

  /** Negative marks and marks above 100 match no band and fall through to FAIL. */
  lemma OutOfRangeMarksFail(m: int)
    requires m < 0 || m > 10000
    ensures FromMarks(m) == Fail
  {
    FromMarksScan(m);
  }

  /** Fractional marks strictly between two bands (39.xx, 44.xx, ..., 84.xx)
      also fall through to FAIL: 84.50 and 84.99 earn an F, not an A. */
  lemma GapMarksFail(m: int)
    requires 3900 < m < 4000 || 4400 < m < 4500 || 4900 < m < 5000 || 5400 < m < 5500
          || 5900 < m < 6000 || 6400 < m < 6500 || 6900 < m < 7000 || 7400 < m < 7500
          || 7900 < m < 8000 || 8400 < m < 8500
    ensures FromMarks(m) == Fail
  {
    FromMarksScan(m);
  }

  /** One `course_results` row. `marks` holds hundredths of a mark. */
  datatype CourseResult = CourseResult(
    student: StudentId,
    course: CourseId,
    lecturer: LecturerId,
    studentNumber: string,
    courseCode: string,
    courseName: string,
    marks: int,
    grade: Grade,
    remarks: Option<string>,
    gradedAt: Timestamp,
    isReleased: bool,
    releasedAt: Option<Timestamp>)

  predicate ResultOf(r: CourseResult, student: StudentId, course: CourseId)
  {
    r.student == student && r.course == course
  }

  /** The unique constraint on (`student_id`, `course_id`). */
  ghost predicate UniqueResultPairs(rows: seq<CourseResult>)
  {
    forall i, j :: 0 <= i < j < |rows| ==> !ResultOf(rows[j], rows[i].student, rows[i].course)
  }
}
