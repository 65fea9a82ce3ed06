/** `StudentCourseRegistrationService`: students register for and drop
    courses; every change recomputes the course's cached enrollment counter
    from the ACTIVE rows. */
module RegistrationService {
  import opened Wrappers
  import opened Seqs
  import opened CourseEntity
  import opened RegistrationEntity
  import opened CourseResultEntity
  import opened PrerequisiteGraph
  import opened CourseRepository
  import opened RegistrationRepository
  import opened Store

  /** `CourseRegistrationResponse`; the course details are absent when the
      registration's course cannot be loaded. */
  datatype RegistrationResponse = RegistrationResponse(
    studentNumber: string,
    courseCode: string,
    courseTitle: string,
    registeredAt: Timestamp,
    status: string,
    courseName: Option<string>,
    credits: Option<int>,
    department: Option<string>,
    courseDescription: Option<string>)

  /** The enum constant's name, as `toString` prints it. */
  function StatusName(s: RegistrationStatus): (name: string)
    ensures name == "ACTIVE" <==> s == Active
  {
    match s
    case Active => "ACTIVE"
    case Dropped => "DROPPED"
  }

  /** `convertToResponse`: the row's own fields and, when the course is
      stored, its current name, credits, department and description. */
  function ConvertToResponse(courses: map<CourseId, Course>, x: Registration): (r: RegistrationResponse)
    ensures r.studentNumber == x.studentNumber && r.courseCode == x.courseCode
    ensures r.courseTitle == x.courseTitle && r.registeredAt == x.registeredAt
    ensures r.status == StatusName(x.status)
    ensures r.courseName.Some? <==> x.course in courses
    ensures x.course in courses ==>
              r.courseName == Some(courses[x.course].name) && r.credits == Some(courses[x.course].credits)
              && r.department == Some(courses[x.course].department)
              && r.courseDescription == courses[x.course].description
  {
    if x.course in courses then
      var c := courses[x.course];
      RegistrationResponse(x.studentNumber, x.courseCode, x.courseTitle, x.registeredAt, StatusName(x.status),
                           Some(c.name), Some(c.credits), Some(c.department), c.description)
    else
      RegistrationResponse(x.studentNumber, x.courseCode, x.courseTitle, x.registeredAt, StatusName(x.status),
                           None, None, None, None)
  }

  /** The capacity rule: only a positive `maxEnrollments` limits, and a course
      holding that many ACTIVE registrations is full. */
  predicate AtCapacity(c: Course, activeCount: nat): (b: bool)
    ensures c.maxEnrollments.None? || c.maxEnrollments.value <= 0 ==> !b
    ensures b ==> activeCount > 0
  {
    c.maxEnrollments.Some? && c.maxEnrollments.value > 0 && activeCount >= c.maxEnrollments.value
  }

  /** `isStudentRegisteredForCourse`: an ACTIVE row exists for the pair. */
  predicate IsStudentRegisteredForCourse(regs: seq<Registration>, student: StudentId, course: CourseId)
  {
    ExistsByStudentIdAndCourseIdAndStatus(regs, student, course, Active)
  }

  /** A student is registered for a course exactly when an ACTIVE row for the
      pair is stored. */
  lemma RegisteredIffActiveRowStored(regs: seq<Registration>, student: StudentId, course: CourseId)
    ensures IsStudentRegisteredForCourse(regs, student, course)
            <==> exists x :: x in regs && x.student == student && x.course == course && x.status == Active
  {
    if x :| x in regs && x.student == student && x.course == course && x.status == Active {
      var i :| 0 <= i < |regs| && regs[i] == x;
      assert PairWithStatus(regs[i], student, course, Active);
    }
  }

  /** Why `registerStudentForCourse` refuses, checked in the order the service
      checks; the last case is the unique (student, course) constraint, which
      a DROPPED row for the pair trips on insert. */
  function RegisterRejection(courses: map<CourseId, Course>, students: map<StudentId, Student>,
                             regs: seq<Registration>, s: StudentId, c: CourseId): (e: Option<Error>)
    ensures e.None? <==>
              s in students && c in courses && courses[c].active
              && (forall i :: 0 <= i < |regs| ==> !IsPair(regs[i], s, c))
              && !AtCapacity(courses[c], CountActiveRegistrationsByCourseId(regs, c))
    ensures s !in students ==> e == Some(StudentNotFound(s))
    ensures s in students && c !in courses ==> e == Some(CourseNotFound(c))
    ensures s in students && c in courses && !courses[c].active ==> e == Some(CourseNotActive(courses[c].code))
    ensures s in students && c in courses && courses[c].active && IsStudentRegisteredForCourse(regs, s, c)
            ==> e == Some(AlreadyRegistered)
  {
    if s !in students then Some(StudentNotFound(s))
    else if c !in courses then Some(CourseNotFound(c))
    else if !courses[c].active then Some(CourseNotActive(courses[c].code))
    else if IsStudentRegisteredForCourse(regs, s, c) then Some(AlreadyRegistered)
    else if AtCapacity(courses[c], CountActiveRegistrationsByCourseId(regs, c)) then Some(CourseFull)
    else if exists i :: 0 <= i < |regs| && IsPair(regs[i], s, c) then Some(RegistrationRowExists)
    else None
  }

  /** The row `registerStudentForCourse` saves. */
  function NewRegistration(student: Student, course: Course, now: Timestamp): (x: Registration)
    ensures IsActivePair(x, student.id, course.id)
    ensures x.studentNumber == student.indexNo && x.courseCode == course.code && x.courseTitle == course.name
    ensures x.registeredAt == now
  {
    Registration(student.id, course.id, student.indexNo, course.code, course.name, now, Active)
  }

  /** The courses after `updateCourseEnrollmentCount(course)`: the counter set
      to the ACTIVE count of `regs`; a missing course is left alone. */
  function WithCounter(courses: map<CourseId, Course>, course: CourseId, regs: seq<Registration>)
    : (r: map<CourseId, Course>)
    ensures r.Keys == courses.Keys
    ensures forall k :: k in courses && k != course ==> r[k] == courses[k]
    ensures course in courses ==>
              r[course] == courses[course].(currentEnrollments := CountActiveRegistrationsByCourseId(regs, course))
  {
    if course in courses then
      courses[course := courses[course].(currentEnrollments := CountActiveRegistrationsByCourseId(regs, course))]
    else courses
  }

  /** `updateCourseEnrollmentCount`. */
  method UpdateCourseEnrollmentCount(db: Database, course: CourseId)
    modifies db`courses
    ensures db.courses == WithCounter(old(db.courses), course, db.registrations)
  {
    var activeRegistrations := CountActiveRegistrationsByCourseId(db.registrations, course);
    if course in db.courses {
      db.courses := db.courses[course := db.courses[course].(currentEnrollments := activeRegistrations)];
    }
  }

  /** Changing only a course's counter leaves the catalog invariants intact. */
  lemma CounterKeepsCatalog(courses: map<CourseId, Course>, nextId: nat, course: CourseId, regs: seq<Registration>)
    requires CatalogValid(courses, nextId)
    ensures CatalogValid(WithCounter(courses, course, regs), nextId)
  {
    assert EdgesOf(WithCounter(courses, course, regs)) == EdgesOf(courses);
  }

  /** A row of another course leaves a course's ACTIVE count alone. */
  lemma AppendKeepsOtherCount(regs: seq<Registration>, x: Registration, k: CourseId)
    requires x.course != k
    ensures CountActiveRegistrationsByCourseId(regs + [x], k) == CountActiveRegistrationsByCourseId(regs, k)
  {
    CountAppend(regs, x, (y: Registration) => ActiveIn(y, k));
  }

  /** Appending a row for a pair that has none keeps the pairs unique. */
  lemma AppendKeepsUniquePairs(regs: seq<Registration>, x: Registration)
    requires UniquePairs(regs)
    requires forall i :: 0 <= i < |regs| ==> !IsPair(regs[i], x.student, x.course)
    ensures UniquePairs(regs + [x])
  {
    var r := regs + [x];
    forall i, j | 0 <= i < j < |r| ensures !IsPair(r[j], r[i].student, r[i].course) {
      if j == |regs| {
        assert !IsPair(regs[i], x.student, x.course);
      } else {
        assert r[i] == regs[i] && r[j] == regs[j];
      }
    }
  }

  /** An accepted registration, followed by the counter refresh, keeps the
      ledger valid and raises the course's counter by one. */
  lemma RegisterKeepsLedger(courses: map<CourseId, Course>, students: map<StudentId, Student>,
                            regs: seq<Registration>, s: StudentId, c: CourseId, now: Timestamp)
    requires KeyedById(courses) && StudentsKeyed(students) && LedgerValid(courses, students, regs)
    requires RegisterRejection(courses, students, regs, s, c).None?
    ensures var regs' := regs + [NewRegistration(students[s], courses[c], now)];
            LedgerValid(WithCounter(courses, c, regs'), students, regs')
            && WithCounter(courses, c, regs') == courses[c := courses[c].(currentEnrollments := courses[c].currentEnrollments + 1)]
  {
    var x := NewRegistration(students[s], courses[c], now);
    var regs' := regs + [x];
    var after := WithCounter(courses, c, regs');
    CountAppend(regs, x, (y: Registration) => ActiveIn(y, c));
    assert after[c].currentEnrollments == CountActiveRegistrationsByCourseId(regs', c);
    forall k | k in after
      ensures after[k].currentEnrollments == CountActiveRegistrationsByCourseId(regs', k) {
      if k != c {
        AppendKeepsOtherCount(regs, x, k);
      }
    }
    AppendKeepsUniquePairs(regs, x);
    assert forall i :: 0 <= i < |regs'| ==> regs'[i].course in after && regs'[i].student in students by {
      forall i | 0 <= i < |regs'| ensures regs'[i].course in after && regs'[i].student in students {
        if i < |regs| {
          assert regs'[i] == regs[i];
        }
      }
    }
  }

  /** An accepted registration keeps every database invariant. */
  lemma RegisterKeepsValid(courses: map<CourseId, Course>, nextId: nat, students: map<StudentId, Student>,
                           lecturers: set<LecturerId>, regs: seq<Registration>, results: seq<CourseResult>,
                           s: StudentId, c: CourseId, now: Timestamp)
    requires StateValid(courses, nextId, students, lecturers, regs, results)
    requires RegisterRejection(courses, students, regs, s, c).None?
    ensures var regs' := regs + [NewRegistration(students[s], courses[c], now)];
            var after := WithCounter(courses, c, regs');
            StateValid(after, nextId, students, lecturers, regs', results)
            && after == courses[c := courses[c].(currentEnrollments := courses[c].currentEnrollments + 1)]
  {
    var regs' := regs + [NewRegistration(students[s], courses[c], now)];
    RegisterKeepsLedger(courses, students, regs, s, c, now);
    CounterKeepsCatalog(courses, nextId, c, regs');
  }

  /** The checks `registerStudentForCourse` runs before it writes, in order. */
  method CheckRegistration(courses: map<CourseId, Course>, students: map<StudentId, Student>,
                           regs: seq<Registration>, s: StudentId, c: CourseId) returns (e: Option<Error>)
    ensures e == RegisterRejection(courses, students, regs, s, c)
  {
    if s !in students {
      return Some(StudentNotFound(s));
    }
    if c !in courses {
      return Some(CourseNotFound(c));
    }
    var course := courses[c];
    if !course.active {
      return Some(CourseNotActive(course.code));
    }
    if ExistsByStudentIdAndCourseIdAndStatus(regs, s, c, Active) {
      return Some(AlreadyRegistered);
    }
    if course.maxEnrollments.Some? && course.maxEnrollments.value > 0 {
      var currentRegistrations := CountActiveRegistrationsByCourseId(regs, c);
      if currentRegistrations >= course.maxEnrollments.value {
        return Some(CourseFull);
      }
    }
    // the unique (student_id, course_id) constraint rejects the insert
    if exists i :: 0 <= i < |regs| && IsPair(regs[i], s, c) {
      return Some(RegistrationRowExists);
    }
    return None;
  }

  /** An appended ACTIVE row registers its student for its course. */
  lemma AppendedRowRegisters(regs: seq<Registration>, x: Registration)
    requires x.status == Active
    ensures IsStudentRegisteredForCourse(regs + [x], x.student, x.course)
  {
    assert PairWithStatus((regs + [x])[|regs|], x.student, x.course, Active);
  }

  /** The database after an accepted registration's two writes is valid, its
      counter went up by one and the pair is registered. */
  lemma RegisteredDatabaseValid(db: Database, courses: map<CourseId, Course>, nextId: nat,
                                students: map<StudentId, Student>, lecturers: set<LecturerId>,
                                regs: seq<Registration>, results: seq<CourseResult>,
                                s: StudentId, c: CourseId, now: Timestamp)
    requires StateValid(courses, nextId, students, lecturers, regs, results)
    requires RegisterRejection(courses, students, regs, s, c).None?
    requires db.registrations == regs + [NewRegistration(students[s], courses[c], now)]
    requires db.courses == WithCounter(courses, c, db.registrations)
    requires db.nextCourseId == nextId && db.students == students
    requires db.lecturers == lecturers && db.results == results
    ensures db.Valid()
    ensures db.courses == courses[c := courses[c].(currentEnrollments := courses[c].currentEnrollments + 1)]
    ensures IsStudentRegisteredForCourse(db.registrations, s, c)
  {
    RegisterKeepsValid(courses, nextId, students, lecturers, regs, results, s, c, now);
    AppendedRowRegisters(regs, NewRegistration(students[s], courses[c], now));
  }

  /** `registerStudentForCourse`. On failure nothing changes. */
  method RegisterStudentForCourse(db: Database, s: StudentId, c: CourseId, now: Timestamp)
    returns (r: Result<RegistrationResponse, Error>)
    requires db.Valid()
    modifies db`registrations, db`courses
    ensures db.Valid()
    ensures r.Err? <==> RegisterRejection(old(db.courses), old(db.students), old(db.registrations), s, c).Some?
    ensures r.Err? ==>
              r.error == RegisterRejection(old(db.courses), old(db.students), old(db.registrations), s, c).value
              && db.registrations == old(db.registrations) && db.courses == old(db.courses)
    ensures r.Ok? ==>
              var x := NewRegistration(old(db.students)[s], old(db.courses)[c], now);
              db.registrations == old(db.registrations) + [x]
              && db.courses == old(db.courses)[c := old(db.courses)[c].(currentEnrollments := old(db.courses)[c].currentEnrollments + 1)]
              && r.value == ConvertToResponse(db.courses, x)
              && IsStudentRegisteredForCourse(db.registrations, s, c)
  {
    var rejection := CheckRegistration(db.courses, db.students, db.registrations, s, c);
    if rejection.Some? {
      return Err(rejection.value);
    }
    var x := NewRegistration(db.students[s], db.courses[c], now);
    db.registrations := db.registrations + [x];
    UpdateCourseEnrollmentCount(db, c);
    RegisteredDatabaseValid(db, old(db.courses), old(db.nextCourseId), old(db.students), old(db.lecturers),
                            old(db.registrations), old(db.results), s, c, now);
    r := Ok(ConvertToResponse(db.courses, x));
  }

  /** No accepted registration takes a course past a positive limit. */
  lemma {:induction false} RegisterRespectsCapacity(courses: map<CourseId, Course>, students: map<StudentId, Student>,
                                                    regs: seq<Registration>, s: StudentId, c: CourseId, now: Timestamp)
    requires KeyedById(courses) && StudentsKeyed(students) && LedgerValid(courses, students, regs)
    requires RegisterRejection(courses, students, regs, s, c).None?
    requires courses[c].maxEnrollments.Some? && courses[c].maxEnrollments.value > 0
    ensures CountActiveRegistrationsByCourseId(regs + [NewRegistration(students[s], courses[c], now)], c)
            <= courses[c].maxEnrollments.value
  {
    RegisterKeepsLedger(courses, students, regs, s, c, now);
  }

  /** Deleting a row of `course` keeps every other course's ACTIVE count. */
  lemma RemovalKeepsOtherCounts(regs: seq<Registration>, i: nat, course: CourseId, k: CourseId)
    requires i < |regs| && regs[i].course == course && k != course
    ensures CountActiveRegistrationsByCourseId(RemoveAt(regs, i), k) == CountActiveRegistrationsByCourseId(regs, k)
  {
    CountRemoveAt(regs, i, (x: Registration) => ActiveIn(x, k));
  }

  /** Deleting a row keeps the remaining pairs unique. */
  lemma RemovalKeepsUniquePairs(regs: seq<Registration>, i: nat)
    requires UniquePairs(regs) && i < |regs|
    ensures UniquePairs(RemoveAt(regs, i))
  {
    var r := RemoveAt(regs, i);
    forall a, b | 0 <= a < b < |r| ensures !IsPair(r[b], r[a].student, r[a].course) {
      var a' := if a < i then a else a + 1;
      var b' := if b < i then b else b + 1;
      assert r[a] == regs[a'] && r[b] == regs[b'] && a' < b';
    }
  }

  /** Deleting the pair's ACTIVE row, followed by the counter refresh, keeps
      the ledger valid, lowers the counter by one and leaves the pair
      unregistered. */
  lemma UnregisterKeepsLedger(courses: map<CourseId, Course>, students: map<StudentId, Student>,
                              regs: seq<Registration>, s: StudentId, c: CourseId, i: nat)
    requires LedgerValid(courses, students, regs)
    requires IndexOf(regs, s, c, Active) == Some(i)
    ensures c in courses
    ensures LedgerValid(WithCounter(courses, c, RemoveAt(regs, i)), students, RemoveAt(regs, i))
    ensures CountActiveRegistrationsByCourseId(RemoveAt(regs, i), c) == courses[c].currentEnrollments - 1
    ensures !IsStudentRegisteredForCourse(RemoveAt(regs, i), s, c)
  {
    var r := RemoveAt(regs, i);
    CountRemoveAt(regs, i, (x: Registration) => ActiveIn(x, c));
    forall k | k in courses && k != c
      ensures CountActiveRegistrationsByCourseId(r, k) == CountActiveRegistrationsByCourseId(regs, k) {
      RemovalKeepsOtherCounts(regs, i, c, k);
    }
    RemovalKeepsUniquePairs(regs, i);
    forall j | 0 <= j < |r| ensures !PairWithStatus(r[j], s, c, Active) {
      var j' := if j < i then j else j + 1;
      assert r[j] == regs[j'] && j' != i;
    }
  }

  /** Deleting the pair's ACTIVE row keeps every database invariant. */
  lemma UnregisterKeepsValid(courses: map<CourseId, Course>, nextId: nat, students: map<StudentId, Student>,
                             lecturers: set<LecturerId>, regs: seq<Registration>, results: seq<CourseResult>,
                             s: StudentId, c: CourseId, i: nat)
    requires StateValid(courses, nextId, students, lecturers, regs, results)
    requires IndexOf(regs, s, c, Active) == Some(i)
    ensures c in courses
    ensures StateValid(WithCounter(courses, c, RemoveAt(regs, i)), nextId, students, lecturers, RemoveAt(regs, i), results)
    ensures WithCounter(courses, c, RemoveAt(regs, i))
            == courses[c := courses[c].(currentEnrollments := courses[c].currentEnrollments - 1)]
    ensures !IsStudentRegisteredForCourse(RemoveAt(regs, i), s, c)
  {
    UnregisterKeepsLedger(courses, students, regs, s, c, i);
    CounterKeepsCatalog(courses, nextId, c, RemoveAt(regs, i));
  }

  /** The database after an unregistration's two writes is valid, its counter
      went down by one and the pair is no longer registered. */
  lemma UnregisteredDatabaseValid(db: Database, courses: map<CourseId, Course>, nextId: nat,
                                  students: map<StudentId, Student>, lecturers: set<LecturerId>,
                                  regs: seq<Registration>, results: seq<CourseResult>,
                                  s: StudentId, c: CourseId, i: nat)
    requires StateValid(courses, nextId, students, lecturers, regs, results)
    requires IndexOf(regs, s, c, Active) == Some(i)
    requires db.registrations == RemoveAt(regs, i)
    requires db.courses == WithCounter(courses, c, db.registrations)
    requires db.nextCourseId == nextId && db.students == students
    requires db.lecturers == lecturers && db.results == results
    ensures db.Valid()
    ensures c in courses
    ensures db.courses == courses[c := courses[c].(currentEnrollments := courses[c].currentEnrollments - 1)]
    ensures !IsStudentRegisteredForCourse(db.registrations, s, c)
  {
    UnregisterKeepsValid(courses, nextId, students, lecturers, regs, results, s, c, i);
  }

  /** `unregisterStudentFromCourse`: the ACTIVE row is deleted (not marked
      DROPPED) and the counter refreshed. */
  method UnregisterStudentFromCourse(db: Database, s: StudentId, c: CourseId) returns (r: Outcome<Error>)
    requires db.Valid()
    modifies db`registrations, db`courses
    ensures db.Valid()
    ensures !IsStudentRegisteredForCourse(old(db.registrations), s, c) ==>
              r == Failed(NotRegistered) && db.registrations == old(db.registrations) && db.courses == old(db.courses)
    ensures IsStudentRegisteredForCourse(old(db.registrations), s, c) ==>
              r == Done && c in old(db.courses)
              && db.registrations == RemoveAt(old(db.registrations), IndexOf(old(db.registrations), s, c, Active).value)
              && db.courses == old(db.courses)[c := old(db.courses)[c].(currentEnrollments := old(db.courses)[c].currentEnrollments - 1)]
    ensures !IsStudentRegisteredForCourse(db.registrations, s, c)
  {
    var found := IndexOf(db.registrations, s, c, Active);
    if found.None? {
      return Failed(NotRegistered);
    }
    var i := found.value;
    db.registrations := RemoveAt(db.registrations, i);
    UpdateCourseEnrollmentCount(db, c);
    UnregisteredDatabaseValid(db, old(db.courses), old(db.nextCourseId), old(db.students), old(db.lecturers),
                              old(db.registrations), old(db.results), s, c, i);
    r := Done;
  }

  /** Registering and then unregistering the same pair restores both tables. */
  lemma {:induction false} RegisterThenUnregister(courses: map<CourseId, Course>, students: map<StudentId, Student>,
                                                  regs: seq<Registration>, s: StudentId, c: CourseId, now: Timestamp)
    requires KeyedById(courses) && StudentsKeyed(students) && LedgerValid(courses, students, regs)
    requires RegisterRejection(courses, students, regs, s, c).None?
    ensures var regs' := regs + [NewRegistration(students[s], courses[c], now)];
            IndexOf(regs', s, c, Active) == Some(|regs|)
            && RemoveAt(regs', |regs|) == regs
            && WithCounter(WithCounter(courses, c, regs'), c, regs) == courses
  {
    var regs' := regs + [NewRegistration(students[s], courses[c], now)];
    RegisterKeepsLedger(courses, students, regs, s, c, now);
    FoundActiveIsOnly(regs', s, c, |regs|);
    assert RemoveAt(regs', |regs|) == regs;
  }

  /** `getRegisteredCoursesByStudentId`: the student's ACTIVE rows. */
  function GetRegisteredCoursesByStudentId(courses: map<CourseId, Course>, regs: seq<Registration>, s: StudentId)
    : (r: seq<RegistrationResponse>)
    ensures forall x :: x in regs && x.student == s && x.status == Active ==> ConvertToResponse(courses, x) in r
    ensures forall resp :: resp in r ==>
              exists x :: x in regs && x.student == s && x.status == Active && resp == ConvertToResponse(courses, x)
  {
    var rows := FindActiveRegistrationsByStudentId(regs, s);
    var r := Map(rows, (x: Registration) => ConvertToResponse(courses, x));
    assert forall x :: x in rows ==> ConvertToResponse(courses, x) in r by {
      forall x | x in rows ensures ConvertToResponse(courses, x) in r {
        var i :| 0 <= i < |rows| && rows[i] == x;
        assert r[i] == ConvertToResponse(courses, x);
      }
    }
    r
  }

  /** `getRegisteredCoursesByStudentNumber`: ACTIVE rows by the denormalised number. */
  function GetRegisteredCoursesByStudentNumber(courses: map<CourseId, Course>, regs: seq<Registration>,
                                               studentNumber: string): (r: seq<RegistrationResponse>)
    ensures forall x :: x in regs && x.studentNumber == studentNumber && x.status == Active
              ==> ConvertToResponse(courses, x) in r
    ensures forall resp :: resp in r ==>
              exists x :: x in regs && x.studentNumber == studentNumber && x.status == Active
                          && resp == ConvertToResponse(courses, x)
  {
    var rows := FindActiveRegistrationsByStudentNumber(regs, studentNumber);
    var r := Map(rows, (x: Registration) => ConvertToResponse(courses, x));
    assert forall x :: x in rows ==> ConvertToResponse(courses, x) in r by {
      forall x | x in rows ensures ConvertToResponse(courses, x) in r {
        var i :| 0 <= i < |rows| && rows[i] == x;
        assert r[i] == ConvertToResponse(courses, x);
      }
    }
    r
  }
}
