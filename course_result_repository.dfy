/** `CourseResultRepository`: queries over the `course_results` rows, plus the
    course and registration queries the grading service runs through it. */
module CourseResultRepository {
  import opened Wrappers
  import opened Seqs
  import opened CourseEntity
  import opened RegistrationEntity
  import opened CourseResultEntity
  import CourseRepository
  import RegistrationRepository

  /** `findReleasedResultsByStudentId`: only released rows of that student. */
  function FindReleasedResultsByStudentId(rows: seq<CourseResult>, student: StudentId): (r: seq<CourseResult>)
    ensures forall x :: x in r <==> x in rows && x.student == student && x.isReleased
  {
    Filter(rows, (x: CourseResult) => x.student == student && x.isReleased)
  }

  /** `findReleasedResultsByStudentNumber`: keyed by the denormalised student number. */
  function FindReleasedResultsByStudentNumber(rows: seq<CourseResult>, studentNumber: string): (r: seq<CourseResult>)
    ensures forall x :: x in r <==> x in rows && x.studentNumber == studentNumber && x.isReleased
  {
    Filter(rows, (x: CourseResult) => x.studentNumber == studentNumber && x.isReleased)
  }

  /** `findResultsByCourseIdAndLecturerId`: released or not. */
  function FindResultsByCourseIdAndLecturerId(rows: seq<CourseResult>, course: CourseId, lecturer: LecturerId)
    : (r: seq<CourseResult>)
    ensures forall x :: x in r <==> x in rows && x.course == course && x.lecturer == lecturer
  {
    Filter(rows, (x: CourseResult) => x.course == course && x.lecturer == lecturer)
  }

  /** The position of the row `findByStudentIdAndCourseId` returns. */
  function ResultIndex(rows: seq<CourseResult>, student: StudentId, course: CourseId): (r: Option<nat>)
    ensures r.Some? ==> r.value < |rows| && ResultOf(rows[r.value], student, course)
    ensures r.None? <==> forall i :: 0 <= i < |rows| ==> !ResultOf(rows[i], student, course)
  {
    FindIndex(rows, (x: CourseResult) => ResultOf(x, student, course))
  }

  /** `findByStudentIdAndCourseId`. */
  function FindByStudentIdAndCourseId(rows: seq<CourseResult>, student: StudentId, course: CourseId)
    : (r: Option<CourseResult>)
    ensures r.Some? ==> r.value in rows && ResultOf(r.value, student, course)
    ensures r.None? <==> forall i :: 0 <= i < |rows| ==> !ResultOf(rows[i], student, course)
  {
    match ResultIndex(rows, student, course)
    case None => None
    case Some(i) => Some(rows[i])
  }

  /** Under the unique (student, course) constraint the row found is the only one. */
  lemma ResultIndexIsOnly(rows: seq<CourseResult>, student: StudentId, course: CourseId, i: nat)
    requires UniqueResultPairs(rows)
    requires i < |rows| && ResultOf(rows[i], student, course)
    ensures ResultIndex(rows, student, course) == Some(i)
  {
    var k := ResultIndex(rows, student, course).value;
    assert !(k < i) && !(i < k);
  }

  /** `courseExists`: `COUNT(c) > 0` over the courses with that id, which
      holds exactly when the course is stored. */
  function CourseExists(courses: map<CourseId, Course>, bound: nat, id: CourseId): (b: bool)
    requires CourseRepository.KeyedById(courses)
    ensures b <==> id in courses && id < bound
  {
    var rows := CourseRepository.Table(courses, bound);
    var p := (c: Course) => c.id == id;
    assert Count(rows, p) > 0 <==> id in courses && id < bound by {
      if id in courses && id < bound {
        var i :| 0 <= i < |rows| && rows[i] == courses[id];
        CountPositive(rows, p, i);
      } else {
        CountNone(rows, p);
      }
    }
    Count(rows, p) > 0
  }

  /** `findGradableCourses`: every active course. */
  function FindGradableCourses(courseRows: seq<Course>): (r: seq<Course>)
    ensures forall c :: c in r <==> c in courseRows && c.active
  {
    Filter(courseRows, (c: Course) => c.active)
  }

  /** The gradable courses are the student catalogue's active courses. */
  lemma GradableAreActive(courseRows: seq<Course>)
    ensures FindGradableCourses(courseRows) == CourseRepository.FindByActiveTrue(courseRows)
  {
  }

  /** `findActiveRegistrationsByCourseId`. */
  function FindActiveRegistrationsByCourseId(regs: seq<Registration>, course: CourseId): (r: seq<Registration>)
    ensures forall x :: x in r <==> x in regs && x.course == course && x.status == Active
  {
    Filter(regs, (x: Registration) => RegistrationRepository.ActiveIn(x, course))
  }

  /** The list of a course's ACTIVE registrations has as many entries as the count query reports. */
  lemma ActiveListMatchesCount(regs: seq<Registration>, course: CourseId)
    ensures |FindActiveRegistrationsByCourseId(regs, course)|
            == RegistrationRepository.CountActiveRegistrationsByCourseId(regs, course)
  {
    FilterLength(regs, (x: Registration) => RegistrationRepository.ActiveIn(x, course));
  }

  /** `findEnrolledStudentsByCourseId`: the students of the course's ACTIVE registrations. */
  function FindEnrolledStudentsByCourseId(regs: seq<Registration>, course: CourseId): (r: seq<StudentId>)
    ensures |r| == RegistrationRepository.CountActiveRegistrationsByCourseId(regs, course)
    ensures forall s :: s in r <==> exists x :: x in regs && x.student == s && x.course == course && x.status == Active
  {
    var active := FindActiveRegistrationsByCourseId(regs, course);
    ActiveListMatchesCount(regs, course);
    var r := Map(active, (x: Registration) => x.student);
    assert forall s :: s in r ==> exists x :: x in active && x.student == s by {
      forall s | s in r ensures exists x :: x in active && x.student == s {
        var i :| 0 <= i < |r| && r[i] == s;
        assert active[i] in active;
      }
    }
    assert forall x :: x in active ==> x.student in r by {
      forall x | x in active ensures x.student in r {
        var i :| 0 <= i < |active| && active[i] == x;
        assert r[i] == x.student;
      }
    }
    r
  }
}
