/** The `student_course_registrations` table row. */
module RegistrationEntity {
  import opened CourseEntity

  type StudentId = nat

  /** Timestamps (`LocalDateTime`) as opaque instants supplied by the caller. */
  type Timestamp = int

  datatype RegistrationStatus = Active | Dropped

  /** One registration row. `studentNumber`, `courseCode` and `courseTitle` are
      denormalised copies of the student's index number and the course's code
      and name taken when the row is written. */
  datatype Registration = Registration(
    student: StudentId,
    course: CourseId,
    studentNumber: string,
    courseCode: string,
    courseTitle: string,
    registeredAt: Timestamp,
    status: RegistrationStatus)

  predicate IsPair(r: Registration, student: StudentId, course: CourseId)
  {
    r.student == student && r.course == course
  }

  predicate IsActivePair(r: Registration, student: StudentId, course: CourseId)
  {
    IsPair(r, student, course) && r.status == Active
  }

  /** The unique constraint on (`student_id`, `course_id`), whatever the status. */
  ghost predicate UniquePairs(rows: seq<Registration>)
  {
    forall i, j :: 0 <= i < j < |rows| ==> !IsPair(rows[j], rows[i].student, rows[i].course)
  }

  /** Under the unique constraint there is at most one ACTIVE row per pair. */
  lemma AtMostOneActive(rows: seq<Registration>, s: StudentId, c: CourseId, i: nat, j: nat)
    requires UniquePairs(rows)
    requires i < |rows| && j < |rows|
    requires IsActivePair(rows[i], s, c) && IsActivePair(rows[j], s, c)
    ensures i == j
  {
  }
}
