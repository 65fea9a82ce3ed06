/** The `courses` table row and the prerequisite relation stored on it. */
module CourseEntity {
  import opened Wrappers

  type CourseId = nat

  /** Length of the `code` column. */
  const MaxCodeLength := 16

  /** One course row. `prerequisites` is the owning side of the
      `course_prerequisites` join table; `dependentCourses` is not stored but
      derived (see `Dependents`). `maxEnrollments` is nullable: `None` and any
      value that is not positive mean "no limit" to registration. */
  datatype Course = Course(
    id: CourseId,
    code: string,
    title: string,
    name: string,
    credits: int,
    description: Option<string>,
    department: string,
    maxEnrollments: Option<int>,
    currentEnrollments: int,
    active: bool,
    prerequisites: set<CourseId>)

  /** The inverse side of the relation: the courses that list `id` as a prerequisite. */
  function Dependents(courses: map<CourseId, Course>, id: CourseId): (ds: set<CourseId>)
    ensures ds <= courses.Keys
  {
    set d | d in courses && id in courses[d].prerequisites
  }

  /** `d` depends on `c` exactly when `c` is one of `d`'s prerequisites: the
      set comprehension of `Dependents` read back, which is how the inverse
      side of the join table is derived from the owning side. */
  lemma DependentsInverse(courses: map<CourseId, Course>, c: CourseId, d: CourseId)
    requires d in courses
    ensures d in Dependents(courses, c) <==> c in courses[d].prerequisites
  {
  }

  /** The ids of the courses whose stored code is exactly `code`. */
  function IdsWithCode(courses: map<CourseId, Course>, code: string): (ids: set<CourseId>)
    ensures ids <= courses.Keys
  {
    set k | k in courses && courses[k].code == code
  }

  /** The unique constraint on the `code` column. */
  ghost predicate UniqueCodes(courses: map<CourseId, Course>)
  {
    forall j, k :: j in courses && k in courses && courses[j].code == courses[k].code ==> j == k
  }
}
