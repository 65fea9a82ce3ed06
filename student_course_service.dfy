/** `StudentCourseService`: the student-facing course view, which adds an
    availability flag (room left under the enrollment cap) to the catalog's
    course responses. A course without a cap makes the Java comparison unbox
    a null `Integer`; the view is then `None`, and the whole list call that
    meets such a course fails. */
module StudentCourseService {
  import opened Wrappers
  import opened Seqs
  import opened Text
  import opened CourseEntity
  import opened RegistrationEntity
  import opened CourseRepository
  import opened RegistrationRepository
  import opened Store
  import opened CourseService
  import opened RegistrationService

  /** `StudentCourseViewResponse`. */
  datatype StudentCourseView = StudentCourseView(
    id: CourseId,
    code: string,
    name: string,
    description: Option<string>,
    credits: int,
    department: string,
    maxEnrollments: int,
    currentEnrollments: int,
    isAvailable: bool,
    prerequisites: set<PrerequisiteInfo>)

  /** `convertToStudentView`: the response's fields, and available exactly when
      fewer students are enrolled than the cap; `None` when there is no cap. */
  function ConvertToStudentView(resp: CourseResponse): (r: Option<StudentCourseView>)
    ensures r.None? <==> resp.maxEnrollments.None?
    ensures r.Some? ==>
              var v := r.value;
              v.id == resp.id && v.code == resp.code && v.name == resp.name && v.description == resp.description
              && v.credits == resp.credits && v.department == resp.department
              && v.maxEnrollments == resp.maxEnrollments.value && v.currentEnrollments == resp.currentEnrollments
              && v.prerequisites == resp.prerequisites
              && (v.isAvailable <==> resp.currentEnrollments < resp.maxEnrollments.value)
  {
    match resp.maxEnrollments
    case None => None
    case Some(max) =>
      Some(StudentCourseView(resp.id, resp.code, resp.name, resp.description, resp.credits, resp.department,
                             max, resp.currentEnrollments, resp.currentEnrollments < max, resp.prerequisites))
  }

  /** `convertToStudentViews`: one view per response, in order; the first
      response without a cap fails the whole list. */
  function ConvertToStudentViews(rs: seq<CourseResponse>): (r: Option<seq<StudentCourseView>>)
    ensures r.None? <==> exists i :: 0 <= i < |rs| && rs[i].maxEnrollments.None?
    ensures r.Some? ==> |r.value| == |rs|
                        && forall i :: 0 <= i < |rs| ==> Some(r.value[i]) == ConvertToStudentView(rs[i])
  {
    if rs == [] then Some([])
    else
      match ConvertToStudentView(rs[0])
      case None => None
      case Some(v) =>
        match ConvertToStudentViews(rs[1..])
        case None =>
          assert forall i :: 0 <= i < |rs[1..]| ==> rs[1..][i] == rs[i + 1];
          None
        case Some(vs) =>
          assert forall i :: 1 <= i < |rs| ==> rs[i] == rs[1..][i - 1];
          Some([v] + vs)
  }

  ghost predicate ViewsSortedByCode(s: seq<StudentCourseView>)
  {
    forall i, j :: 0 <= i < j < |s| ==> CodeLe(s[i].code, s[j].code)
  }

  /** Converting keeps the responses' code order, and filtering keeps it too. */
  lemma AvailableViewsSorted(rs: seq<CourseResponse>, vs: seq<StudentCourseView>)
    requires ResponsesSortedByCode(rs)
    requires |vs| == |rs| && forall i :: 0 <= i < |rs| ==> Some(vs[i]) == ConvertToStudentView(rs[i])
    ensures ViewsSortedByCode(Filter(vs, (v: StudentCourseView) => v.isAvailable))
  {
    var le := (a: StudentCourseView, b: StudentCourseView) => CodeLe(a.code, b.code);
    forall i, j | 0 <= i < j < |vs| ensures le(vs[i], vs[j]) {
      assert vs[i].code == rs[i].code && vs[j].code == rs[j].code;
    }
    FilterSorted(vs, (v: StudentCourseView) => v.isAvailable, le);
  }

  /** The views of responses to the stored courses selected by `p` are views
      of such courses. */
  lemma SelectedViewsStored(courses: map<CourseId, Course>, rs: seq<CourseResponse>, vs: seq<StudentCourseView>,
                            p: Course -> bool)
    requires forall i :: 0 <= i < |rs| ==>
               rs[i].id in courses && rs[i] == MapToResponse(courses, courses[rs[i].id]) && p(courses[rs[i].id])
    requires |vs| == |rs| && forall i :: 0 <= i < |rs| ==> Some(vs[i]) == ConvertToStudentView(rs[i])
    ensures forall v :: v in vs ==>
              v.id in courses && p(courses[v.id]) && Some(v) == ConvertToStudentView(MapToResponse(courses, courses[v.id]))
  {
    forall v | v in vs
      ensures v.id in courses && p(courses[v.id]) && Some(v) == ConvertToStudentView(MapToResponse(courses, courses[v.id])) {
      var i :| 0 <= i < |vs| && vs[i] == v;
    }
  }

  /** Every selected course with room left has its view among the available ones. */
  lemma SelectedViewsComplete(courses: map<CourseId, Course>, bound: nat, rs: seq<CourseResponse>,
                              vs: seq<StudentCourseView>, p: Course -> bool)
    requires forall k :: k in courses && k < bound && p(courses[k]) ==> MapToResponse(courses, courses[k]) in rs
    requires |vs| == |rs| && forall i :: 0 <= i < |rs| ==> Some(vs[i]) == ConvertToStudentView(rs[i])
    ensures forall k :: (k in courses && k < bound && p(courses[k]) && courses[k].maxEnrollments.Some?
                         && courses[k].currentEnrollments < courses[k].maxEnrollments.value)
                        ==> ConvertToStudentView(MapToResponse(courses, courses[k])).value
                              in Filter(vs, (v: StudentCourseView) => v.isAvailable)
  {
    forall k | k in courses && k < bound && p(courses[k]) && courses[k].maxEnrollments.Some?
               && courses[k].currentEnrollments < courses[k].maxEnrollments.value
      ensures ConvertToStudentView(MapToResponse(courses, courses[k])).value
                in Filter(vs, (v: StudentCourseView) => v.isAvailable) {
      var resp := MapToResponse(courses, courses[k]);
      var i :| 0 <= i < |rs| && rs[i] == resp;
      assert vs[i] == ConvertToStudentView(resp).value && vs[i] in vs;
    }
  }

  /** The conversion fails exactly when a selected course has no cap. */
  lemma SelectedViewsFail(courses: map<CourseId, Course>, bound: nat, rs: seq<CourseResponse>, p: Course -> bool)
    requires forall i :: 0 <= i < |rs| ==>
               rs[i].id in courses && rs[i] == MapToResponse(courses, courses[rs[i].id]) && p(courses[rs[i].id])
    requires forall k :: k in courses && k < bound && p(courses[k]) ==> MapToResponse(courses, courses[k]) in rs
    requires forall k :: k in courses ==> k < bound
    ensures (exists i :: 0 <= i < |rs| && rs[i].maxEnrollments.None?)
            <==> exists k :: k in courses && p(courses[k]) && courses[k].maxEnrollments.None?
  {
    if i :| 0 <= i < |rs| && rs[i].maxEnrollments.None? {
      assert courses[rs[i].id].maxEnrollments.None?;
    }
    if k :| k in courses && p(courses[k]) && courses[k].maxEnrollments.None? {
      var resp := MapToResponse(courses, courses[k]);
      var i :| 0 <= i < |rs| && rs[i] == resp;
    }
  }

  /** `getAvailableCoursesForEnrollment`: the views of the active courses that
      still have room; `None` when some active course has no cap. */
  function GetAvailableCoursesForEnrollment(courses: map<CourseId, Course>, bound: nat)
    : (r: Option<seq<StudentCourseView>>)
    requires KeyedById(courses) && forall k :: k in courses ==> k < bound
    ensures r.None? <==> exists k :: k in courses && courses[k].active && courses[k].maxEnrollments.None?
    ensures r.Some? ==> forall v :: v in r.value ==>
              v.isAvailable && v.id in courses && courses[v.id].active
              && Some(v) == ConvertToStudentView(MapToResponse(courses, courses[v.id]))
    ensures r.Some? ==> forall k :: (k in courses && courses[k].active
                                     && courses[k].currentEnrollments < courses[k].maxEnrollments.value)
                                    ==> ConvertToStudentView(MapToResponse(courses, courses[k])).value in r.value
  {
    var rs := GetAllAvailableCoursesForStudents(courses, bound);
    var p := (c: Course) => c.active;
    SelectedViewsFail(courses, bound, rs, p);
    match ConvertToStudentViews(rs)
    case None => None
    case Some(vs) =>
      SelectedViewsStored(courses, rs, vs, p);
      SelectedViewsComplete(courses, bound, rs, vs, p);
      Some(Filter(vs, (v: StudentCourseView) => v.isAvailable))
  }

  /** `getAvailableCoursesForEnrollmentByDepartment`: as above for one
      department, in code order. */
  function GetAvailableCoursesForEnrollmentByDepartment(courses: map<CourseId, Course>, bound: nat, department: string)
    : (r: Option<seq<StudentCourseView>>)
    requires KeyedById(courses) && forall k :: k in courses ==> k < bound
    ensures r.None? <==> exists k :: k in courses && courses[k].active && courses[k].department == department
                                     && courses[k].maxEnrollments.None?
    ensures r.Some? ==> ViewsSortedByCode(r.value)
    ensures r.Some? ==> forall v :: v in r.value ==> v.isAvailable && v.department == department
    ensures r.Some? ==> forall k :: (k in courses && courses[k].active && courses[k].department == department
                                     && courses[k].currentEnrollments < courses[k].maxEnrollments.value)
                                    ==> ConvertToStudentView(MapToResponse(courses, courses[k])).value in r.value
  {
    var rs := GetCoursesByDepartmentForStudents(courses, bound, department);
    var p := (c: Course) => c.active && c.department == department;
    SelectedViewsFail(courses, bound, rs, p);
    match ConvertToStudentViews(rs)
    case None => None
    case Some(vs) =>
      SelectedViewsStored(courses, rs, vs, p);
      SelectedViewsComplete(courses, bound, rs, vs, p);
      AvailableViewsSorted(rs, vs);
      Some(Filter(vs, (v: StudentCourseView) => v.isAvailable))
  }

  /** `canEnrollInCourse`: a missing or inactive course, or one without a cap,
      raises inside the `try` and answers false; otherwise the availability flag. */
  function CanEnrollInCourse(courses: map<CourseId, Course>, id: CourseId): (b: bool)
    ensures b <==> id in courses && courses[id].active && courses[id].maxEnrollments.Some?
                   && courses[id].currentEnrollments < courses[id].maxEnrollments.value
  {
    match GetCourseForStudent(courses, id)
    case Err(_) => false
    case Ok(resp) =>
      match ConvertToStudentView(resp)
      case None => false
      case Some(v) => v.isAvailable
  }

  /** With the counter in step with the ledger and a positive cap, a course
      the student view calls open is exactly an active one that passes the
      registration capacity check. Without that cap the two disagree:
      registration treats a missing or non-positive cap as unlimited, the view
      as closed. */
  lemma CanEnrollMatchesCapacity(courses: map<CourseId, Course>, students: map<StudentId, Student>,
                                 regs: seq<Registration>, id: CourseId)
    requires LedgerValid(courses, students, regs)
    ensures id in courses && courses[id].maxEnrollments.Some? && courses[id].maxEnrollments.value > 0
            ==> (CanEnrollInCourse(courses, id)
                 <==> courses[id].active && !AtCapacity(courses[id], CountActiveRegistrationsByCourseId(regs, id)))
    ensures id in courses && courses[id].active
            && (courses[id].maxEnrollments.None? || courses[id].maxEnrollments.value <= 0)
            ==> !CanEnrollInCourse(courses, id)
                && !AtCapacity(courses[id], CountActiveRegistrationsByCourseId(regs, id))
  {
  }
}
