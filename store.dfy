/** The persistent state the services share: the course, student, lecturer,
    registration and result tables, with the constraints the schema and the
    services maintain. */
module Store {
  import opened CourseEntity
  import opened RegistrationEntity
  import opened CourseResultEntity
  import opened PrerequisiteGraph
  import opened CourseRepository
  import opened RegistrationRepository

  /** The exceptions the services throw (each rolls its transaction back), and
      the constraint violations the database raises on flush. */
  datatype Error =
    | CodeAlreadyExists(code: string)
    | PrerequisiteNotFound(code: string)
    | CodeUniqueViolation
    | CourseNotFound(id: CourseId)
    | CourseCodeNotFound(code: string)
    | CourseNotAvailable(id: CourseId)
    | CourseCodeNotAvailable(code: string)
    | CircularPrerequisite
    | CourseIsPrerequisite(dependentCodes: set<string>)
    | CourseStillReferenced
    | StudentNotFound(id: StudentId)
    | CourseNotActive(code: string)
    | AlreadyRegistered
    | CourseFull
    | RegistrationRowExists
    | NotRegistered
    | NotEnrolled
    | LecturerNotFound

  /** The student fields the services read (`Student` and its `User` base). */
  datatype Student = Student(
    id: StudentId,
    indexNo: string,
    firstName: string,
    lastName: string,
    email: string,
    program: string,
    year: int)

  /** The `courses` table: keyed by id, ids below the next id to assign, the
      `code` column unique and at most 16 characters, and the prerequisite
      relation closed over stored courses and free of cycles. */
  ghost predicate CatalogValid(courses: map<CourseId, Course>, nextId: nat)
  {
    KeyedById(courses)
    && (forall k :: k in courses ==> k < nextId)
    && UniqueCodes(courses)
    && (forall k :: k in courses ==> |courses[k].code| <= MaxCodeLength)
    && Closed(EdgesOf(courses))
    && Acyclic(EdgesOf(courses))
  }

  /** The registration rows: one per (student, course), referring to stored
      rows, and every course's cached counter equal to its ACTIVE count. */
  ghost predicate LedgerValid(courses: map<CourseId, Course>, students: map<StudentId, Student>,
                              registrations: seq<Registration>)
  {
    UniquePairs(registrations)
    && (forall i :: 0 <= i < |registrations| ==>
          registrations[i].course in courses && registrations[i].student in students)
    && (forall k :: k in courses ==>
          courses[k].currentEnrollments == CountActiveRegistrationsByCourseId(registrations, k))
  }

  /** The result rows: one per (student, course), referring to stored rows. */
  ghost predicate ResultsValid(courses: map<CourseId, Course>, students: map<StudentId, Student>,
                               lecturers: set<LecturerId>, results: seq<CourseResult>)
  {
    UniqueResultPairs(results)
    && (forall i :: 0 <= i < |results| ==>
          results[i].course in courses && results[i].student in students && results[i].lecturer in lecturers)
  }

  ghost predicate StudentsKeyed(students: map<StudentId, Student>)
  {
    forall s :: s in students ==> students[s].id == s
  }

  /** Every constraint on the whole state. */
  ghost predicate StateValid(courses: map<CourseId, Course>, nextId: nat, students: map<StudentId, Student>,
                             lecturers: set<LecturerId>, registrations: seq<Registration>, results: seq<CourseResult>)
  {
    CatalogValid(courses, nextId)
    && StudentsKeyed(students)
    && LedgerValid(courses, students, registrations)
    && ResultsValid(courses, students, lecturers, results)
  }

  class Database {
    var courses: map<CourseId, Course>
    var nextCourseId: nat
    var students: map<StudentId, Student>
    var lecturers: set<LecturerId>
    var registrations: seq<Registration>
    var results: seq<CourseResult>

    ghost predicate Valid()
      reads this
    {
      StateValid(courses, nextCourseId, students, lecturers, registrations, results)
    }

    /** An empty database over the given (externally managed) students and lecturers. */
    constructor (students: map<StudentId, Student>, lecturers: set<LecturerId>)
      requires StudentsKeyed(students)
      ensures Valid()
      ensures this.students == students && this.lecturers == lecturers
      ensures courses == map[] && registrations == [] && results == [] && nextCourseId == 0
    {
      this.courses := map[];
      this.nextCourseId := 0;
      this.students := students;
      this.lecturers := lecturers;
      this.registrations := [];
      this.results := [];
      new;
      assert forall a :: !Reachable(EdgesOf(map[]), a, a) by {
        forall a, n: nat ensures !ReachIn(EdgesOf(map[]), a, a, n) {
          NothingReachesMissing(EdgesOf(map[]), a, a, n);
        }
      }
    }

    /** The course table in primary-key order. */
    function Table(): (rows: seq<Course>)
      reads this
      requires Valid()
      ensures forall k :: k in courses ==> courses[k] in rows
      ensures forall i :: 0 <= i < |rows| ==> rows[i].id in courses && courses[rows[i].id] == rows[i]
    {
      CourseRepository.Table(courses, nextCourseId)
    }
  }
}
