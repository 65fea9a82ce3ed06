/** `CourseGradingService`: lecturers grade the students of a course (an
    upsert of one result row per student and course) and release the grades,
    which only then become visible to the students. */
module GradingService {
  import opened Wrappers
  import opened Seqs
  import opened CourseEntity
  import opened RegistrationEntity
  import opened CourseResultEntity
  import opened CourseRepository
  import opened RegistrationRepository
  import opened CourseResultRepository
  import opened Store
  import CourseService

  /** `CourseResultResponse` without the row id and the lecturer's name. */
  datatype ResultResponse = ResultResponse(
    studentNumber: string,
    studentName: string,
    courseCode: string,
    courseName: string,
    credits: int,
    marks: int,
    grade: string,
    gradeDisplay: string,
    remarks: Option<string>,
    gradedAt: Timestamp,
    releasedAt: Option<Timestamp>,
    isReleased: bool)

  /** The constant's name, as `Grade.name()` returns it. */
  function GradeName(g: Grade): string
  {
    match g
    case APlus => "A_PLUS"
    case A => "A"
    case AMinus => "A_MINUS"
    case BPlus => "B_PLUS"
    case B => "B"
    case BMinus => "B_MINUS"
    case CPlus => "C_PLUS"
    case C => "C"
    case CMinus => "C_MINUS"
    case D => "D"
    case Fail => "FAIL"
  }

  /** No two grades share an enum name: a fact of the constant name table,
      which makes storing the grade by name lossless. */
  lemma GradeNamesDistinct(g: Grade, h: Grade)
    ensures GradeName(g) == GradeName(h) ==> g == h
  {
  }

  function FullName(s: Student): string
  {
    s.firstName + " " + s.lastName
  }

  /** Every result row refers to a stored student and course. */
  predicate Linked(students: map<StudentId, Student>, courses: map<CourseId, Course>, results: seq<CourseResult>)
  {
    forall i :: 0 <= i < |results| ==> results[i].student in students && results[i].course in courses
  }

  /** `convertToResponse`: the row's own fields, the student's full name and the
      course's current credits. */
  function ConvertToResponse(students: map<StudentId, Student>, courses: map<CourseId, Course>, x: CourseResult)
    : (r: ResultResponse)
    requires x.student in students && x.course in courses
    ensures r.studentNumber == x.studentNumber && r.courseCode == x.courseCode && r.courseName == x.courseName
    ensures r.marks == x.marks && r.grade == GradeName(x.grade) && r.gradeDisplay == DisplayName(x.grade)
    ensures r.remarks == x.remarks && r.gradedAt == x.gradedAt
    ensures r.releasedAt == x.releasedAt && r.isReleased == x.isReleased
    ensures r.studentName == FullName(students[x.student]) && r.credits == courses[x.course].credits
  {
    ResultResponse(x.studentNumber, FullName(students[x.student]), x.courseCode, x.courseName,
                   courses[x.course].credits, x.marks, GradeName(x.grade), DisplayName(x.grade), x.remarks,
                   x.gradedAt, x.releasedAt, x.isReleased)
  }

  /** The responses for a list of result rows, in the same order. */
  function Responses(students: map<StudentId, Student>, courses: map<CourseId, Course>, rows: seq<CourseResult>)
    : (r: seq<ResultResponse>)
    requires Linked(students, courses, rows)
    ensures |r| == |rows| && forall i :: 0 <= i < |r| ==> r[i] == ConvertToResponse(students, courses, rows[i])
  {
    seq(|rows|, i requires 0 <= i < |rows| => ConvertToResponse(students, courses, rows[i]))
  }

  /** Filtering keeps rows linked. */
  lemma LinkedSubset(students: map<StudentId, Student>, courses: map<CourseId, Course>,
                     results: seq<CourseResult>, rows: seq<CourseResult>)
    requires Linked(students, courses, results) && forall x :: x in rows ==> x in results
    ensures Linked(students, courses, rows)
  {
    forall i | 0 <= i < |rows| ensures rows[i].student in students && rows[i].course in courses {
      assert rows[i] in rows;
      var j :| 0 <= j < |results| && results[j] == rows[i];
    }
  }

  /** The responses of a filtered list are exactly those of its rows. */
  lemma ResponsesMembers(students: map<StudentId, Student>, courses: map<CourseId, Course>, rows: seq<CourseResult>,
                         x: CourseResult)
    requires Linked(students, courses, rows) && x in rows
    ensures ConvertToResponse(students, courses, x) in Responses(students, courses, rows)
  {
    var i :| 0 <= i < |rows| && rows[i] == x;
    assert Responses(students, courses, rows)[i] == ConvertToResponse(students, courses, x);
  }

  // ---------------------------------------------------------------------------
  // submitGrade

  /** Why `submitGrade` refuses, in the order the service checks: the student
      has no ACTIVE registration for the course (`getStudentFromRegistration`),
      the course is missing, the lecturer is missing. */
  function GradeRejection(courses: map<CourseId, Course>, lecturers: set<LecturerId>, regs: seq<Registration>,
                          s: StudentId, c: CourseId, l: LecturerId): (e: Option<Error>)
    ensures e.None? <==> ExistsByStudentIdAndCourseIdAndStatus(regs, s, c, Active) && c in courses && l in lecturers
    ensures !ExistsByStudentIdAndCourseIdAndStatus(regs, s, c, Active) ==> e == Some(NotEnrolled)
    ensures e.Some? ==> e.value in {NotEnrolled, CourseNotFound(c), LecturerNotFound}
  {
    if !ExistsByStudentIdAndCourseIdAndStatus(regs, s, c, Active) then Some(NotEnrolled)
    else if c !in courses then Some(CourseNotFound(c))
    else if l !in lecturers then Some(LecturerNotFound)
    else None
  }

  /** The checks of `submitGrade`, in order. */
  method CheckGrade(courses: map<CourseId, Course>, lecturers: set<LecturerId>, regs: seq<Registration>,
                    s: StudentId, c: CourseId, l: LecturerId) returns (e: Option<Error>)
    ensures e == GradeRejection(courses, lecturers, regs, s, c, l)
  {
    var registration := FindByStudentIdAndCourseIdAndStatus(regs, s, c, Active);
    ExistsIffFound(regs, s, c, Active);
    if registration.None? {
      return Some(NotEnrolled);
    }
    if c !in courses {
      return Some(CourseNotFound(c));
    }
    if l !in lecturers {
      return Some(LecturerNotFound);
    }
    return None;
  }

  /** The row `submitGrade` saves: the found row (or a new one) with every
      field overwritten, the grade derived from the marks, and the release flag
      cleared; `releasedAt` is kept from the found row (a new row has none). */
  function GradedResult(existing: Option<CourseResult>, student: Student, course: Course, lecturer: LecturerId,
                        marks: int, remarks: Option<string>, now: Timestamp): (x: CourseResult)
    ensures ResultOf(x, student.id, course.id) && x.lecturer == lecturer
    ensures x.studentNumber == student.indexNo && x.courseCode == course.code && x.courseName == course.name
    ensures x.marks == marks && x.grade == FromMarks(marks) && x.remarks == remarks && x.gradedAt == now
    ensures !x.isReleased
    ensures existing.None? ==> x.releasedAt.None?
    ensures existing.Some? ==> x.releasedAt == existing.value.releasedAt
  {
    CourseResult(student.id, course.id, lecturer, student.indexNo, course.code, course.name, marks,
                 FromMarks(marks), remarks, now, false, if existing.Some? then existing.value.releasedAt else None)
  }

  /** Saving `x`: it overwrites the pair's row when there is one and is
      appended otherwise. */
  function Upsert(results: seq<CourseResult>, x: CourseResult): (r: seq<CourseResult>)
    ensures x in r
    ensures forall y :: y in r ==> y == x || y in results
    ensures forall y :: y in results && !ResultOf(y, x.student, x.course) ==> y in r
  {
    match ResultIndex(results, x.student, x.course)
    case Some(i) =>
      assert forall y :: y in results && !ResultOf(y, x.student, x.course) ==> y in results[i := x] by {
        forall y | y in results && !ResultOf(y, x.student, x.course) ensures y in results[i := x] {
          var j :| 0 <= j < |results| && results[j] == y;
          assert results[i := x][j] == y;
        }
      }
      assert forall y :: y in results[i := x] ==> y == x || y in results by {
        forall y | y in results[i := x] ensures y == x || y in results {
          var j :| 0 <= j < |results[i := x]| && results[i := x][j] == y;
          if j != i {
            assert results[j] == y;
          }
        }
      }
      assert results[i := x][i] == x;
      results[i := x]
    case None => results + [x]
  }

  /** The upsert never creates a second row for the pair: the rows afterwards
      are `x` and the other pairs' rows, still one per pair. */
  lemma UpsertReplacesPair(results: seq<CourseResult>, x: CourseResult)
    requires UniqueResultPairs(results)
    ensures UniqueResultPairs(Upsert(results, x))
    ensures forall y :: y in Upsert(results, x) <==> y == x || (y in results && !ResultOf(y, x.student, x.course))
    ensures |Upsert(results, x)| == |results| + (if FindByStudentIdAndCourseId(results, x.student, x.course).Some? then 0 else 1)
  {
    var r := Upsert(results, x);
    match ResultIndex(results, x.student, x.course)
    case Some(i) =>
      forall a, b | 0 <= a < b < |r| ensures !ResultOf(r[b], r[a].student, r[a].course) {
        if a != i && b != i {
          assert r[a] == results[a] && r[b] == results[b];
        } else if a == i {
          assert r[b] == results[b] && !ResultOf(results[b], results[i].student, results[i].course);
        } else {
          assert r[a] == results[a] && !ResultOf(results[i], results[a].student, results[a].course);
        }
      }
      forall y | y in r && y != x ensures !ResultOf(y, x.student, x.course) {
        var j :| 0 <= j < |r| && r[j] == y;
        assert j != i && r[j] == results[j];
        if j < i {
          assert !ResultOf(results[i], results[j].student, results[j].course);
        } else {
          assert !ResultOf(results[j], results[i].student, results[i].course);
        }
      }
    case None =>
      forall a, b | 0 <= a < b < |r| ensures !ResultOf(r[b], r[a].student, r[a].course) {
        if b < |results| {
          assert r[a] == results[a] && r[b] == results[b];
        } else {
          assert r[a] == results[a];
        }
      }
  }

  /** A saved upsert keeps the result table valid. */
  lemma UpsertKeepsResultsValid(courses: map<CourseId, Course>, students: map<StudentId, Student>,
                                lecturers: set<LecturerId>, results: seq<CourseResult>, x: CourseResult)
    requires ResultsValid(courses, students, lecturers, results)
    requires x.student in students && x.course in courses && x.lecturer in lecturers
    ensures ResultsValid(courses, students, lecturers, Upsert(results, x))
  {
    UpsertReplacesPair(results, x);
    var r := Upsert(results, x);
    forall i | 0 <= i < |r|
      ensures r[i].course in courses && r[i].student in students && r[i].lecturer in lecturers {
      assert r[i] in r;
      if r[i] != x {
        var j :| 0 <= j < |results| && results[j] == r[i];
      }
    }
  }

  /** A student with an ACTIVE registration is a stored student. */
  lemma RegisteredStudentStored(courses: map<CourseId, Course>, students: map<StudentId, Student>,
                                regs: seq<Registration>, s: StudentId, c: CourseId)
    requires LedgerValid(courses, students, regs) && ExistsByStudentIdAndCourseIdAndStatus(regs, s, c, Active)
    ensures s in students
  {
    var i :| 0 <= i < |regs| && PairWithStatus(regs[i], s, c, Active);
  }

  /** Saving a graded row for stored entities keeps every database constraint. */
  lemma UpsertKeepsStateValid(courses: map<CourseId, Course>, nextId: nat, students: map<StudentId, Student>,
                              lecturers: set<LecturerId>, regs: seq<Registration>, results: seq<CourseResult>,
                              x: CourseResult)
    requires StateValid(courses, nextId, students, lecturers, regs, results)
    requires x.student in students && x.course in courses && x.lecturer in lecturers
    ensures StateValid(courses, nextId, students, lecturers, regs, Upsert(results, x))
  {
    UpsertKeepsResultsValid(courses, students, lecturers, results, x);
  }

  /** `submitGrade` with marks in integer hundredths (validated to 0..100). */
  method SubmitGrade(db: Database, l: LecturerId, s: StudentId, c: CourseId, marks: int, remarks: Option<string>,
                     now: Timestamp) returns (r: Result<ResultResponse, Error>)
    requires db.Valid() && 0 <= marks <= 10000
    modifies db`results
    ensures db.Valid()
    ensures r.Err? <==> GradeRejection(old(db.courses), old(db.lecturers), old(db.registrations), s, c, l).Some?
    ensures r.Err? ==>
              r.error == GradeRejection(old(db.courses), old(db.lecturers), old(db.registrations), s, c, l).value
              && db.results == old(db.results)
    ensures r.Ok? ==>
              s in db.students && c in db.courses
              && var x := GradedResult(FindByStudentIdAndCourseId(old(db.results), s, c), db.students[s], db.courses[c],
                                       l, marks, remarks, now);
                 db.results == Upsert(old(db.results), x)
                 && r.value == ConvertToResponse(db.students, db.courses, x)
  {
    var existing := FindByStudentIdAndCourseId(db.results, s, c);
    var rejection := CheckGrade(db.courses, db.lecturers, db.registrations, s, c, l);
    if rejection.Some? {
      return Err(rejection.value);
    }
    RegisteredStudentStored(db.courses, db.students, db.registrations, s, c);
    var student := db.students[s];
    var result := GradedResult(existing, student, db.courses[c], l, marks, remarks, now);
    UpsertKeepsStateValid(db.courses, db.nextCourseId, db.students, db.lecturers, db.registrations, db.results, result);
    db.results := Upsert(db.results, result);
    r := Ok(ConvertToResponse(db.students, db.courses, result));
  }

  /** A regrade, even of a released result, hides it from the student again:
      the student's released rows afterwards hold none for that course. */
  lemma RegradeHidesResult(results: seq<CourseResult>, x: CourseResult)
    requires UniqueResultPairs(results) && !x.isReleased
    ensures forall y :: y in FindReleasedResultsByStudentId(Upsert(results, x), x.student) ==> y.course != x.course
  {
    UpsertReplacesPair(results, x);
  }

  /** After a submission the lecturer's view of the course shows the new row,
      and no other row of the student. */
  lemma SubmittedResultListed(results: seq<CourseResult>, x: CourseResult)
    requires UniqueResultPairs(results)
    ensures x in FindResultsByCourseIdAndLecturerId(Upsert(results, x), x.course, x.lecturer)
    ensures forall y :: (y in FindResultsByCourseIdAndLecturerId(Upsert(results, x), x.course, x.lecturer)
                         && y.student == x.student) ==> y == x
  {
    UpsertReplacesPair(results, x);
  }

  // ---------------------------------------------------------------------------
  // releaseResults

  /** One row after `releaseResults(lecturer, course)`: an unreleased row of
      that course and lecturer is released now; every other row is untouched. */
  function Released(x: CourseResult, c: CourseId, l: LecturerId, now: Timestamp): (y: CourseResult)
    ensures y.course == c && y.lecturer == l && !x.isReleased ==> y == x.(isReleased := true, releasedAt := Some(now))
    ensures !(x.course == c && x.lecturer == l && !x.isReleased) ==> y == x
  {
    if x.course == c && x.lecturer == l && !x.isReleased then x.(isReleased := true, releasedAt := Some(now))
    else x
  }

  /** The result table after `releaseResults`. */
  function Release(rows: seq<CourseResult>, c: CourseId, l: LecturerId, now: Timestamp): (r: seq<CourseResult>)
    ensures |r| == |rows| && forall i :: 0 <= i < |r| ==> r[i] == Released(rows[i], c, l, now)
  {
    seq(|rows|, i requires 0 <= i < |rows| => Released(rows[i], c, l, now))
  }

  /** `releaseResults`: the loop over the lecturer's rows of the course flips
      the unreleased ones in place. */
  method ReleaseResults(db: Database, l: LecturerId, c: CourseId, now: Timestamp)
    requires db.Valid()
    modifies db`results
    ensures db.Valid()
    ensures db.results == Release(old(db.results), c, l, now)
  {
    ghost var before := db.results;
    ReleaseKeepsResultsValid(db.courses, db.students, db.lecturers, before, c, l, now);
    var i := 0;
    while i < |db.results|
      invariant 0 <= i <= |db.results| == |before|
      invariant forall j :: 0 <= j < i ==> db.results[j] == Released(before[j], c, l, now)
      invariant forall j :: i <= j < |before| ==> db.results[j] == before[j]
    {
      var result := db.results[i];
      if result.course == c && result.lecturer == l && !result.isReleased {
        db.results := db.results[i := result.(isReleased := true, releasedAt := Some(now))];
      }
      i := i + 1;
    }
    assert db.results == Release(before, c, l, now);
  }

  /** Releasing changes neither pair nor reference, so the table stays valid. */
  lemma ReleaseKeepsResultsValid(courses: map<CourseId, Course>, students: map<StudentId, Student>,
                                 lecturers: set<LecturerId>, rows: seq<CourseResult>, c: CourseId, l: LecturerId,
                                 now: Timestamp)
    requires ResultsValid(courses, students, lecturers, rows)
    ensures ResultsValid(courses, students, lecturers, Release(rows, c, l, now))
  {
    var r := Release(rows, c, l, now);
    forall i, j | 0 <= i < j < |r| ensures !ResultOf(r[j], r[i].student, r[i].course) {
      assert !ResultOf(rows[j], rows[i].student, rows[i].course);
    }
  }

  /** After a release every row of that course and lecturer is released, each
      one released earlier keeps its timestamp and each one released now has
      `now`; rows of other courses or lecturers are untouched. */
  lemma ReleaseEffect(rows: seq<CourseResult>, c: CourseId, l: LecturerId, now: Timestamp, i: nat)
    requires i < |rows|
    ensures var y := Release(rows, c, l, now)[i];
            (rows[i].course == c && rows[i].lecturer == l ==>
               y.isReleased
               && y.releasedAt == (if rows[i].isReleased then rows[i].releasedAt else Some(now))
               && y.marks == rows[i].marks && y.grade == rows[i].grade)
            && (rows[i].course != c || rows[i].lecturer != l ==> y == rows[i])
  {
  }

  /** Releasing twice changes nothing the second time, whatever its timestamp. */
  lemma ReleaseIdempotent(rows: seq<CourseResult>, c: CourseId, l: LecturerId, now: Timestamp, later: Timestamp)
    ensures Release(Release(rows, c, l, now), c, l, later) == Release(rows, c, l, now)
  {
    var once := Release(rows, c, l, now);
    forall i | 0 <= i < |once| ensures Released(once[i], c, l, later) == once[i] {
      assert once[i].course == c && once[i].lecturer == l ==> once[i].isReleased;
    }
  }

  /** A released row of the lecturer's course shows in the student's results. */
  lemma ReleasedResultVisible(rows: seq<CourseResult>, c: CourseId, l: LecturerId, now: Timestamp, i: nat)
    requires i < |rows| && rows[i].course == c && rows[i].lecturer == l
    ensures Release(rows, c, l, now)[i] in FindReleasedResultsByStudentId(Release(rows, c, l, now), rows[i].student)
  {
    var r := Release(rows, c, l, now);
    assert r[i] in r;
  }

  // ---------------------------------------------------------------------------
  // Reads

  /** `getCourseResults`: the lecturer's rows of the course, released or not. */
  function GetCourseResults(students: map<StudentId, Student>, courses: map<CourseId, Course>,
                            results: seq<CourseResult>, l: LecturerId, c: CourseId): (r: seq<ResultResponse>)
    requires Linked(students, courses, results)
    ensures forall x :: x in results && x.course == c && x.lecturer == l ==> ConvertToResponse(students, courses, x) in r
    ensures forall resp :: resp in r ==>
              exists x :: x in results && x.course == c && x.lecturer == l && resp == ConvertToResponse(students, courses, x)
  {
    var rows := FindResultsByCourseIdAndLecturerId(results, c, l);
    LinkedSubset(students, courses, results, rows);
    var r := Responses(students, courses, rows);
    assert forall x :: x in rows ==> ConvertToResponse(students, courses, x) in r by {
      forall x | x in rows ensures ConvertToResponse(students, courses, x) in r {
        ResponsesMembers(students, courses, rows, x);
      }
    }
    r
  }

  /** `getStudentResults`: the student's released rows only. */
  function GetStudentResults(students: map<StudentId, Student>, courses: map<CourseId, Course>,
                             results: seq<CourseResult>, s: StudentId): (r: seq<ResultResponse>)
    requires Linked(students, courses, results)
    ensures forall resp :: resp in r ==> resp.isReleased
    ensures forall x :: x in results && x.student == s && x.isReleased ==> ConvertToResponse(students, courses, x) in r
    ensures forall resp :: resp in r ==>
              exists x :: x in results && x.student == s && x.isReleased && resp == ConvertToResponse(students, courses, x)
  {
    var rows := FindReleasedResultsByStudentId(results, s);
    LinkedSubset(students, courses, results, rows);
    var r := Responses(students, courses, rows);
    assert forall x :: x in rows ==> ConvertToResponse(students, courses, x) in r by {
      forall x | x in rows ensures ConvertToResponse(students, courses, x) in r {
        ResponsesMembers(students, courses, rows, x);
      }
    }
    r
  }

  /** `getStudentResultsByNumber`: released rows by the denormalised number. */
  function GetStudentResultsByNumber(students: map<StudentId, Student>, courses: map<CourseId, Course>,
                                     results: seq<CourseResult>, studentNumber: string): (r: seq<ResultResponse>)
    requires Linked(students, courses, results)
    ensures forall resp :: resp in r ==> resp.isReleased && resp.studentNumber == studentNumber
    ensures forall x :: x in results && x.studentNumber == studentNumber && x.isReleased
              ==> ConvertToResponse(students, courses, x) in r
    ensures forall resp :: resp in r ==>
              exists x :: x in results && x.studentNumber == studentNumber && x.isReleased
                          && resp == ConvertToResponse(students, courses, x)
  {
    var rows := FindReleasedResultsByStudentNumber(results, studentNumber);
    LinkedSubset(students, courses, results, rows);
    var r := Responses(students, courses, rows);
    assert forall x :: x in rows ==> ConvertToResponse(students, courses, x) in r by {
      forall x | x in rows ensures ConvertToResponse(students, courses, x) in r {
        ResponsesMembers(students, courses, rows, x);
      }
    }
    r
  }

  /** `EnrolledStudentResponse`. */
  datatype EnrolledStudent = EnrolledStudent(
    studentId: StudentId,
    studentNumber: string,
    firstName: string,
    lastName: string,
    fullName: string,
    email: string,
    program: string,
    year: int,
    hasGrade: bool,
    existingResult: Option<ResultResponse>)

  /** `convertToEnrolledStudentResponse`: the registration's student and the
      pair's result, if one exists. */
  function ConvertToEnrolledStudent(students: map<StudentId, Student>, courses: map<CourseId, Course>,
                                    results: seq<CourseResult>, x: Registration): (e: EnrolledStudent)
    requires x.student in students && Linked(students, courses, results)
    ensures e.studentId == x.student && e.studentNumber == students[x.student].indexNo
    ensures e.fullName == FullName(students[x.student])
    ensures e.hasGrade <==> exists y :: y in results && ResultOf(y, x.student, x.course)
    ensures e.hasGrade <==> e.existingResult.Some?
    ensures e.hasGrade ==> e.existingResult.value
                           == ConvertToResponse(students, courses, FindByStudentIdAndCourseId(results, x.student, x.course).value)
  {
    var student := students[x.student];
    var existing := FindByStudentIdAndCourseId(results, x.student, x.course);
    if existing.Some? then
      EnrolledStudent(x.student, student.indexNo, student.firstName, student.lastName, FullName(student),
                      student.email, student.program, student.year, true,
                      Some(ConvertToResponse(students, courses, existing.value)))
    else
      EnrolledStudent(x.student, student.indexNo, student.firstName, student.lastName, FullName(student),
                      student.email, student.program, student.year, false, None)
  }

  /** The enrolled-student entries for a list of registrations, in order. */
  function EnrolledEntries(students: map<StudentId, Student>, courses: map<CourseId, Course>,
                           results: seq<CourseResult>, active: seq<Registration>): (r: seq<EnrolledStudent>)
    requires Linked(students, courses, results)
    requires forall i :: 0 <= i < |active| ==> active[i].student in students
    ensures |r| == |active|
    ensures forall i :: 0 <= i < |r| ==> r[i] == ConvertToEnrolledStudent(students, courses, results, active[i])
  {
    seq(|active|, i requires 0 <= i < |active| => ConvertToEnrolledStudent(students, courses, results, active[i]))
  }

  /** `getEnrolledStudentsForCourse`: one entry per ACTIVE registration of the
      course, in table order, for the students `findEnrolledStudentsByCourseId`
      lists, each marked with whether the student already has a result for it. */
  function GetEnrolledStudentsForCourse(students: map<StudentId, Student>, courses: map<CourseId, Course>,
                                        results: seq<CourseResult>, regs: seq<Registration>, c: CourseId)
    : (r: seq<EnrolledStudent>)
    requires Linked(students, courses, results)
    requires forall i :: 0 <= i < |regs| ==> regs[i].student in students
    ensures |r| == CountActiveRegistrationsByCourseId(regs, c) == |FindEnrolledStudentsByCourseId(regs, c)|
    ensures forall i :: 0 <= i < |r| ==> r[i].studentId == FindEnrolledStudentsByCourseId(regs, c)[i]
    ensures forall i :: 0 <= i < |r| ==>
              (r[i].hasGrade <==> exists y :: y in results && ResultOf(y, r[i].studentId, c))
  {
    var active := FindActiveRegistrationsByCourseId(regs, c);
    ActiveListMatchesCount(regs, c);
    ActiveRowsEnrolled(students, regs, c, active);
    var r := EnrolledEntries(students, courses, results, active);
    EnrolledEntriesFromActive(students, courses, results, regs, c, active, r);
    r
  }

  /** The course's ACTIVE rows are rows of stored students. */
  lemma ActiveRowsEnrolled(students: map<StudentId, Student>, regs: seq<Registration>, c: CourseId,
                           active: seq<Registration>)
    requires forall i :: 0 <= i < |regs| ==> regs[i].student in students
    requires active == FindActiveRegistrationsByCourseId(regs, c)
    ensures forall i :: 0 <= i < |active| ==> active[i].course == c && active[i].student in students
  {
    forall i | 0 <= i < |active| ensures active[i].course == c && active[i].student in students {
      assert active[i] in active;
      var j :| 0 <= j < |regs| && regs[j] == active[i];
    }
  }

  /** Each entry is for the student of the matching ACTIVE row, and says
      whether that student has a result for the course. */
  lemma EnrolledEntriesFromActive(students: map<StudentId, Student>, courses: map<CourseId, Course>,
                                  results: seq<CourseResult>, regs: seq<Registration>, c: CourseId,
                                  active: seq<Registration>, r: seq<EnrolledStudent>)
    requires Linked(students, courses, results)
    requires active == FindActiveRegistrationsByCourseId(regs, c)
    requires forall i :: 0 <= i < |active| ==> active[i].course == c && active[i].student in students
    requires r == EnrolledEntries(students, courses, results, active)
    ensures |FindEnrolledStudentsByCourseId(regs, c)| == |r|
    ensures forall i :: 0 <= i < |r| ==> r[i].studentId == FindEnrolledStudentsByCourseId(regs, c)[i]
    ensures forall i :: 0 <= i < |r| ==>
              (r[i].hasGrade <==> exists y :: y in results && ResultOf(y, r[i].studentId, c))
  {
    var enrolled := FindEnrolledStudentsByCourseId(regs, c);
    assert enrolled == Map(active, (x: Registration) => x.student);
    forall i | 0 <= i < |r|
      ensures r[i].hasGrade <==> exists y :: y in results && ResultOf(y, r[i].studentId, c) {
      assert r[i] == ConvertToEnrolledStudent(students, courses, results, active[i]);
    }
  }

  /** The grading service's course summary (no prerequisites). */
  datatype GradableCourse = GradableCourse(
    id: CourseId,
    code: string,
    name: string,
    description: Option<string>,
    credits: int,
    department: string,
    maxEnrollments: Option<int>,
    currentEnrollments: int,
    active: bool)

  /** `convertToCourseResponse`: the course's own fields, without its
      prerequisites. */
  function ConvertToCourseResponse(c: Course): (r: GradableCourse)
    ensures r.id == c.id && r.code == c.code && r.name == c.name && r.description == c.description
    ensures r.credits == c.credits && r.department == c.department && r.maxEnrollments == c.maxEnrollments
    ensures r.currentEnrollments == c.currentEnrollments && r.active == c.active
  {
    GradableCourse(c.id, c.code, c.name, c.description, c.credits, c.department, c.maxEnrollments,
                   c.currentEnrollments, c.active)
  }

  /** The grading summary of a course agrees with the catalog's response to it
      on every field the summary carries. */
  lemma GradableSummaryMatchesResponse(courses: map<CourseId, Course>, c: Course)
    ensures var g := ConvertToCourseResponse(c);
            var resp := CourseService.MapToResponse(courses, c);
            g.id == resp.id && g.code == resp.code && g.name == resp.name && g.description == resp.description
            && g.credits == resp.credits && g.department == resp.department
            && g.maxEnrollments == resp.maxEnrollments && g.currentEnrollments == resp.currentEnrollments
            && g.active == resp.isActive
  {
  }

  /** `getGradableCourses`: a summary of every active course. */
  function GetGradableCourses(courses: map<CourseId, Course>, bound: nat): (r: seq<GradableCourse>)
    requires KeyedById(courses)
    ensures forall g :: g in r ==> g.active && g.id in courses && g == ConvertToCourseResponse(courses[g.id])
    ensures forall k :: k in courses && k < bound && courses[k].active ==> ConvertToCourseResponse(courses[k]) in r
  {
    var rows := FindGradableCourses(Table(courses, bound));
    SelectedRows(courses, bound, rows, (c: Course) => c.active);
    GradableSummariesStored(courses, rows);
    GradableSummariesComplete(courses, bound, rows);
    Map(rows, ConvertToCourseResponse)
  }

  /** Each summary is that of an active stored course. */
  lemma GradableSummariesStored(courses: map<CourseId, Course>, rows: seq<Course>)
    requires forall i :: 0 <= i < |rows| ==> rows[i].id in courses && courses[rows[i].id] == rows[i] && rows[i].active
    ensures forall g :: g in Map(rows, ConvertToCourseResponse) ==>
              g.active && g.id in courses && g == ConvertToCourseResponse(courses[g.id])
  {
    var r := Map(rows, ConvertToCourseResponse);
    forall g | g in r ensures g.active && g.id in courses && g == ConvertToCourseResponse(courses[g.id]) {
      var i :| 0 <= i < |r| && r[i] == g;
    }
  }

  /** Every active stored course has its summary. */
  lemma GradableSummariesComplete(courses: map<CourseId, Course>, bound: nat, rows: seq<Course>)
    requires forall k :: k in courses && k < bound && courses[k].active ==> courses[k] in rows
    ensures forall k :: k in courses && k < bound && courses[k].active
              ==> ConvertToCourseResponse(courses[k]) in Map(rows, ConvertToCourseResponse)
  {
    var r := Map(rows, ConvertToCourseResponse);
    forall k | k in courses && k < bound && courses[k].active ensures ConvertToCourseResponse(courses[k]) in r {
      var i :| 0 <= i < |rows| && rows[i] == courses[k];
      assert r[i] == ConvertToCourseResponse(courses[k]);
    }
  }


}
