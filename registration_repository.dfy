/** `StudentCourseRegistrationRepository`: queries over the
    `student_course_registrations` rows. */
module RegistrationRepository {
  import opened Wrappers
  import opened Seqs
  import opened CourseEntity
  import opened RegistrationEntity

  /** `findActiveRegistrationsByStudentNumber`: keyed by the denormalised student number. */
  function FindActiveRegistrationsByStudentNumber(rows: seq<Registration>, studentNumber: string): (r: seq<Registration>)
    ensures forall x :: x in r <==> x in rows && x.studentNumber == studentNumber && x.status == Active
  {
    Filter(rows, (x: Registration) => x.studentNumber == studentNumber && x.status == Active)
  }

  /** `findActiveRegistrationsByStudentId`. */
  function FindActiveRegistrationsByStudentId(rows: seq<Registration>, student: StudentId): (r: seq<Registration>)
    ensures forall x :: x in r <==> x in rows && x.student == student && x.status == Active
  {
    Filter(rows, (x: Registration) => x.student == student && x.status == Active)
  }

  predicate PairWithStatus(x: Registration, student: StudentId, course: CourseId, status: RegistrationStatus)
  {
    IsPair(x, student, course) && x.status == status
  }

  /** The position of the row `findByStudentIdAndCourseIdAndStatus` returns. */
  function IndexOf(rows: seq<Registration>, student: StudentId, course: CourseId, status: RegistrationStatus): (r: Option<nat>)
    ensures r.Some? ==> r.value < |rows| && PairWithStatus(rows[r.value], student, course, status)
    ensures r.None? <==> forall i :: 0 <= i < |rows| ==> !PairWithStatus(rows[i], student, course, status)
  {
    FindIndex(rows, (x: Registration) => PairWithStatus(x, student, course, status))
  }

  /** `findByStudentIdAndCourseIdAndStatus`. */
  function FindByStudentIdAndCourseIdAndStatus(rows: seq<Registration>, student: StudentId, course: CourseId,
                                               status: RegistrationStatus): (r: Option<Registration>)
    ensures r.Some? ==> r.value in rows && PairWithStatus(r.value, student, course, status)
  {
    match IndexOf(rows, student, course, status)
    case None => None
    case Some(i) => Some(rows[i])
  }

  /** `existsByStudentIdAndCourseIdAndStatus`. */
  predicate ExistsByStudentIdAndCourseIdAndStatus(rows: seq<Registration>, student: StudentId, course: CourseId,
                                                  status: RegistrationStatus)
  {
    exists i :: 0 <= i < |rows| && PairWithStatus(rows[i], student, course, status)
  }

  /** The exists query holds exactly when the find query returns a row. */
  lemma ExistsIffFound(rows: seq<Registration>, student: StudentId, course: CourseId, status: RegistrationStatus)
    ensures ExistsByStudentIdAndCourseIdAndStatus(rows, student, course, status)
            <==> FindByStudentIdAndCourseIdAndStatus(rows, student, course, status).Some?
  {
  }

  /** Under the unique pair constraint the ACTIVE row found is the pair's only ACTIVE row. */
  lemma FoundActiveIsOnly(rows: seq<Registration>, student: StudentId, course: CourseId, i: nat)
    requires UniquePairs(rows)
    requires i < |rows| && IsActivePair(rows[i], student, course)
    ensures IndexOf(rows, student, course, Active) == Some(i)
  {
    var k := IndexOf(rows, student, course, Active).value;
    if k != i {
      AtMostOneActive(rows, student, course, i, k);
    }
  }

  predicate ActiveIn(x: Registration, course: CourseId)
  {
    x.course == course && x.status == Active
  }

  /** `countActiveRegistrationsByCourseId`. */
  function CountActiveRegistrationsByCourseId(rows: seq<Registration>, course: CourseId): (n: nat)
    ensures n <= |rows|
  {
    Count(rows, (x: Registration) => ActiveIn(x, course))
  }

  /** A course's ACTIVE count is zero exactly when it has no ACTIVE row. */
  lemma CountActiveZero(rows: seq<Registration>, course: CourseId)
    ensures CountActiveRegistrationsByCourseId(rows, course) == 0
            <==> forall i :: 0 <= i < |rows| ==> !ActiveIn(rows[i], course)
  {
    var p := (x: Registration) => ActiveIn(x, course);
    if i :| 0 <= i < |rows| && ActiveIn(rows[i], course) {
      CountPositive(rows, p, i);
    } else {
      CountNone(rows, p);
    }
  }

  /** `findByStudentNumberAndCourseCode`: an ACTIVE row matching both denormalised fields. */
  function FindByStudentNumberAndCourseCode(rows: seq<Registration>, studentNumber: string, courseCode: string)
    : (r: Option<Registration>)
    ensures r.Some? ==> r.value in rows && r.value.studentNumber == studentNumber
                        && r.value.courseCode == courseCode && r.value.status == Active
    ensures r.None? <==> forall i :: 0 <= i < |rows| ==>
              !(rows[i].studentNumber == studentNumber && rows[i].courseCode == courseCode && rows[i].status == Active)
  {
    match FindIndex(rows, (x: Registration) =>
                      x.studentNumber == studentNumber && x.courseCode == courseCode && x.status == Active)
    case None => None
    case Some(i) => Some(rows[i])
  }
}
