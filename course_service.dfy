/** `CourseService`: creating, editing and deleting catalog courses while the
    prerequisite relation stays acyclic, and the course lookups built on the
    repository queries. */
module CourseService {
  import opened Wrappers
  import opened Seqs
  import opened Text
  import opened CourseEntity
  import opened RegistrationEntity
  import opened CourseResultEntity
  import opened PrerequisiteGraph
  import opened CourseRepository
  import opened Store

  datatype CourseCreateRequest = CourseCreateRequest(
    name: string,
    code: string,
    description: Option<string>,
    credits: int,
    department: string,
    maxEnrollments: int,
    prerequisiteCodes: Option<seq<string>>)

  datatype CourseUpdateRequest = CourseUpdateRequest(
    name: string,
    description: Option<string>,
    credits: int,
    department: string,
    maxEnrollments: int,
    prerequisiteCodes: Option<seq<string>>)

  /** The bean-validation constraints of `CourseCreateRequest`. */
  predicate ValidCreateRequest(req: CourseCreateRequest)
  {
    NotBlank(req.name) && |req.name| <= 255
    && NotBlank(req.code) && |req.code| <= MaxCodeLength
    && (req.description.None? || |req.description.value| <= 1000)
    && req.credits > 0
    && NotBlank(req.department) && |req.department| <= 100
    && req.maxEnrollments > 0
  }

  /** The bean-validation constraints of `CourseUpdateRequest`. */
  predicate ValidUpdateRequest(req: CourseUpdateRequest)
  {
    NotBlank(req.name) && |req.name| <= 255
    && (req.description.None? || |req.description.value| <= 1000)
    && req.credits > 0
    && NotBlank(req.department) && |req.department| <= 100
    && req.maxEnrollments > 0
  }

  /** One entry of a response's prerequisite set. */
  datatype PrerequisiteInfo = PrerequisiteInfo(id: CourseId, code: string, name: string, credits: int)

  datatype CourseResponse = CourseResponse(
    id: CourseId,
    code: string,
    name: string,
    credits: int,
    description: Option<string>,
    department: string,
    maxEnrollments: Option<int>,
    currentEnrollments: int,
    isActive: bool,
    prerequisites: set<PrerequisiteInfo>)

  function InfoOf(c: Course): PrerequisiteInfo
  {
    PrerequisiteInfo(c.id, c.code, c.name, c.credits)
  }

  /** `mapToResponse`: the course's own fields and one summary per prerequisite. */
  function MapToResponse(courses: map<CourseId, Course>, c: Course): (r: CourseResponse)
    ensures r.id == c.id && r.code == c.code && r.name == c.name && r.credits == c.credits
    ensures r.description == c.description && r.department == c.department
    ensures r.maxEnrollments == c.maxEnrollments && r.currentEnrollments == c.currentEnrollments
    ensures r.isActive == c.active
  {
    CourseResponse(c.id, c.code, c.name, c.credits, c.description, c.department, c.maxEnrollments,
                   c.currentEnrollments, c.active,
                   set p | p in c.prerequisites && p in courses :: InfoOf(courses[p]))
  }

  /** The response's prerequisite summaries are exactly those of the course's
      stored prerequisites. */
  lemma ResponsePrerequisites(courses: map<CourseId, Course>, c: Course)
    ensures var r := MapToResponse(courses, c);
            (forall p :: p in c.prerequisites && p in courses ==> InfoOf(courses[p]) in r.prerequisites)
            && (forall info :: info in r.prerequisites ==>
                  exists p :: p in c.prerequisites && p in courses && info == InfoOf(courses[p]))
  {
  }

  /** A prerequisite code is known when its upper-cased form is a stored code. */
  predicate Known(rows: seq<Course>, code: string)
  {
    ExistsByCode(rows, ToUpper(code))
  }

  /** The id `findByCode(code.toUpperCase())` yields for a known code. */
  function IdOf(rows: seq<Course>, code: string): (id: CourseId)
    requires Known(rows, code)
    ensures exists i :: 0 <= i < |rows| && rows[i].id == id && rows[i].code == ToUpper(code)
  {
    var c := FindByCode(rows, ToUpper(code)).value;
    assert exists i :: 0 <= i < |rows| && rows[i] == c;
    c.id
  }

  /** The ids of the courses the (all known) codes name. */
  function ResolvedIds(rows: seq<Course>, codes: seq<string>): (ps: set<CourseId>)
    requires forall i :: 0 <= i < |codes| ==> Known(rows, codes[i])
    ensures forall p :: p in ps ==> exists i :: 0 <= i < |rows| && rows[i].id == p
    decreases |codes|
  {
    if codes == [] then {}
    else ResolvedIds(rows, codes[..|codes| - 1]) + {IdOf(rows, codes[|codes| - 1])}
  }

  /** The prerequisite set built from `codes`, each upper-cased and looked up;
      the first unknown code, as the caller wrote it, is reported. */
  function Resolve(rows: seq<Course>, codes: seq<string>): (r: Result<set<CourseId>, Error>)
    ensures r.Ok? <==> forall i :: 0 <= i < |codes| ==> Known(rows, codes[i])
    ensures r.Err? ==> exists i :: 0 <= i < |codes| && !Known(rows, codes[i])
                        && r.error == PrerequisiteNotFound(codes[i])
                        && forall j :: 0 <= j < i ==> Known(rows, codes[j])
    ensures r.Ok? ==> forall p :: p in r.value ==> exists i :: 0 <= i < |rows| && rows[i].id == p
  {
    match FindIndex(codes, (code: string) => !Known(rows, code))
    case Some(i) => Err(PrerequisiteNotFound(codes[i]))
    case None => Ok(ResolvedIds(rows, codes))
  }

  /** `rows` lists exactly the stored courses. */
  ghost predicate Mirrors(rows: seq<Course>, courses: map<CourseId, Course>)
  {
    (forall i :: 0 <= i < |rows| ==> rows[i].id in courses && courses[rows[i].id] == rows[i])
    && (forall k :: k in courses ==> courses[k] in rows)
  }

  /** Over a table of the stored courses, a known code names exactly one course. */
  lemma IdOfIsUnique(courses: map<CourseId, Course>, rows: seq<Course>, code: string, p: CourseId)
    requires UniqueCodes(courses) && Mirrors(rows, courses)
    requires Known(rows, code)
    ensures p == IdOf(rows, code) <==> p in courses && courses[p].code == ToUpper(code)
  {
    var q := IdOf(rows, code);
    var j :| 0 <= j < |rows| && rows[j].id == q && rows[j].code == ToUpper(code);
    assert q in courses && courses[q].code == ToUpper(code);
  }

  lemma ResolvedIdsLast(rows: seq<Course>, codes: seq<string>)
    requires codes != [] && forall i :: 0 <= i < |codes| ==> Known(rows, codes[i])
    ensures ResolvedIds(rows, codes) == ResolvedIds(rows, codes[..|codes| - 1]) + {IdOf(rows, codes[|codes| - 1])}
  {
  }

  /** The induction step: adding the last code adds exactly the course it names. */
  lemma ResolvedIdsStep(courses: map<CourseId, Course>, rows: seq<Course>, codes: seq<string>, p: CourseId)
    requires UniqueCodes(courses) && Mirrors(rows, courses)
    requires codes != [] && forall i :: 0 <= i < |codes| ==> Known(rows, codes[i])
    requires p in ResolvedIds(rows, codes[..|codes| - 1]) <==>
               p in courses && exists i :: 0 <= i < |codes| - 1 && courses[p].code == ToUpper(codes[i])
    ensures p in ResolvedIds(rows, codes) <==>
              p in courses && exists i :: 0 <= i < |codes| && courses[p].code == ToUpper(codes[i])
  {
    var n := |codes| - 1;
    IdOfIsUnique(courses, rows, codes[n], p);
    ResolvedIdsLast(rows, codes);
  }

  /** Over a table of the stored courses, the ids resolved from `codes` are
      exactly the courses whose code is the upper-cased form of one of them. */
  lemma {:induction false} ResolvedIdsAreCodeSet(courses: map<CourseId, Course>, rows: seq<Course>, codes: seq<string>, p: CourseId)
    requires UniqueCodes(courses) && Mirrors(rows, courses)
    requires forall i :: 0 <= i < |codes| ==> Known(rows, codes[i])
    ensures p in ResolvedIds(rows, codes) <==>
              p in courses && exists i :: 0 <= i < |codes| && courses[p].code == ToUpper(codes[i])
    decreases |codes|
  {
    if codes != [] {
      var n := |codes| - 1;
      assert forall i :: 0 <= i < n ==> codes[..n][i] == codes[i];
      ResolvedIdsAreCodeSet(courses, rows, codes[..n], p);
      ResolvedIdsStep(courses, rows, codes, p);
    }
  }

  /** The table lists exactly the stored courses. */
  lemma TableMirrors(courses: map<CourseId, Course>, bound: nat)
    requires KeyedById(courses) && forall k :: k in courses ==> k < bound
    ensures Mirrors(Table(courses, bound), courses)
  {
  }

  /** Over the stored table, the resolved set is exactly the courses whose code
      is the upper-cased form of a requested code. */
  lemma ResolveIsCodeSet(courses: map<CourseId, Course>, bound: nat, codes: seq<string>)
    requires KeyedById(courses) && UniqueCodes(courses)
    requires forall k :: k in courses ==> k < bound
    requires Resolve(Table(courses, bound), codes).Ok?
    ensures forall p :: p in Resolve(Table(courses, bound), codes).value <==>
              p in courses && exists i :: 0 <= i < |codes| && courses[p].code == ToUpper(codes[i])
  {
    var rows := Table(courses, bound);
    TableMirrors(courses, bound);
    ResolveAllKnown(rows, codes);
    forall p ensures p in ResolvedIds(rows, codes) <==>
                     p in courses && exists i :: 0 <= i < |codes| && courses[p].code == ToUpper(codes[i]) {
      ResolvedIdsAreCodeSet(courses, rows, codes, p);
    }
  }

  lemma ResolveFirstUnknown(rows: seq<Course>, codes: seq<string>, i: nat)
    requires i < |codes| && !Known(rows, codes[i])
    requires forall j :: 0 <= j < i ==> Known(rows, codes[j])
    ensures Resolve(rows, codes) == Err(PrerequisiteNotFound(codes[i]))
  {
    var p := (code: string) => !Known(rows, code);
    var k := FindIndex(codes, p);
    assert p(codes[i]);
    assert k.Some?;
    assert !(k.value < i);
    assert !(i < k.value);
  }

  lemma ResolveAllKnown(rows: seq<Course>, codes: seq<string>)
    requires forall j :: 0 <= j < |codes| ==> Known(rows, codes[j])
    ensures Resolve(rows, codes) == Ok(ResolvedIds(rows, codes))
  {
  }

  /** Resolving one more known code adds the course `findByCode` finds for it. */
  lemma ResolvedIdsExtend(rows: seq<Course>, codes: seq<string>, i: nat)
    requires i < |codes| && forall j :: 0 <= j <= i ==> Known(rows, codes[j])
    ensures ResolvedIds(rows, codes[..i + 1])
            == ResolvedIds(rows, codes[..i]) + {FindByCode(rows, ToUpper(codes[i])).value.id}
  {
    assert codes[..i + 1][..i] == codes[..i];
    ResolvedIdsLast(rows, codes[..i + 1]);
  }

  /** The loop that turns prerequisite codes into a set of courses, failing on
      the first code that names no course. */
  method ResolvePrerequisiteCodes(rows: seq<Course>, codes: seq<string>) returns (r: Result<set<CourseId>, Error>)
    ensures r == Resolve(rows, codes)
  {
    var prerequisites: set<CourseId> := {};
    var i := 0;
    while i < |codes|
      invariant 0 <= i <= |codes|
      invariant forall j :: 0 <= j < i ==> Known(rows, codes[j])
      invariant prerequisites == ResolvedIds(rows, codes[..i])
    {
      var found := FindByCode(rows, ToUpper(codes[i]));
      if found.None? {
        ResolveFirstUnknown(rows, codes, i);
        return Err(PrerequisiteNotFound(codes[i]));
      }
      ResolvedIdsExtend(rows, codes, i);
      prerequisites := prerequisites + {found.value.id};
      i := i + 1;
    }
    assert codes[..i] == codes;
    ResolveAllKnown(rows, codes);
    return Ok(prerequisites);
  }

  function CodesOf(codes: Option<seq<string>>): seq<string>
  {
    if codes.Some? then codes.value else []
  }

  /** The row `createCourse` saves: code upper-cased, title equal to the name,
      no enrollments, active, and the resolved prerequisites. */
  function NewCourse(id: CourseId, req: CourseCreateRequest, prerequisites: set<CourseId>): (c: Course)
    ensures c.id == id && c.code == ToUpper(req.code) && c.title == req.name && c.name == req.name
    ensures c.currentEnrollments == 0 && c.active && c.prerequisites == prerequisites
    ensures c.maxEnrollments == Some(req.maxEnrollments)
  {
    Course(id, ToUpper(req.code), req.name, req.name, req.credits, req.description, req.department,
           Some(req.maxEnrollments), 0, true, prerequisites)
  }

  /** Why `createCourse` fails, if it does: the raw code is already stored; a
      prerequisite code is unknown; or the upper-cased code is stored, which
      only the unique column catches (a lower-case duplicate). */
  function CreateRejection(rows: seq<Course>, req: CourseCreateRequest): (e: Option<Error>)
    ensures e.None? ==> Resolve(rows, CodesOf(req.prerequisiteCodes)).Ok?
                        && forall i :: 0 <= i < |rows| ==> rows[i].code != ToUpper(req.code)
    ensures ExistsByCode(rows, req.code) ==> e == Some(CodeAlreadyExists(req.code))
    ensures e.Some? && e.value.PrerequisiteNotFound? ==>
              !ExistsByCode(rows, req.code) && exists code :: code in CodesOf(req.prerequisiteCodes)
                                                               && !Known(rows, code) && e.value.code == code
  {
    if ExistsByCode(rows, req.code) then Some(CodeAlreadyExists(req.code))
    else if Resolve(rows, CodesOf(req.prerequisiteCodes)).Err? then
      Some(Resolve(rows, CodesOf(req.prerequisiteCodes)).error)
    else if ExistsByCode(rows, ToUpper(req.code)) then Some(CodeUniqueViolation)
    else None
  }

  /** A code differing from a stored one only in letter case passes the
      duplicate check and is stopped by the unique column instead. */
  lemma LowerCaseDuplicate(rows: seq<Course>, req: CourseCreateRequest, i: nat)
    requires i < |rows| && rows[i].code == ToUpper(req.code) && req.code != ToUpper(req.code)
    requires forall j :: 0 <= j < |rows| ==> rows[j].code == ToUpper(rows[j].code)
    requires Resolve(rows, CodesOf(req.prerequisiteCodes)).Ok?
    ensures CreateRejection(rows, req) == Some(CodeUniqueViolation)
  {
    forall j | 0 <= j < |rows| ensures rows[j].code != req.code {
      if rows[j].code == req.code {
        ToUpperIdempotent(req.code);
      }
    }
  }

  /** Adding a course with a fresh id, a fresh code and stored prerequisites keeps
      the catalog valid: nothing can depend on it yet, so no cycle appears. */
  lemma AddCourseCatalogValid(courses: map<CourseId, Course>, nextId: nat, c: Course)
    requires CatalogValid(courses, nextId)
    requires c.id == nextId && |c.code| <= MaxCodeLength && c.prerequisites <= courses.Keys
    requires forall k :: k in courses ==> courses[k].code != c.code
    ensures CatalogValid(courses[nextId := c], nextId + 1)
  {
    var g := EdgesOf(courses);
    assert EdgesOf(courses[nextId := c]) == g[nextId := c.prerequisites];
    AddNodeAcyclic(g, nextId, c.prerequisites);
  }

  /** A new course has no registrations, so its zero counter is its ACTIVE count. */
  lemma AddCourseLedgerValid(courses: map<CourseId, Course>, students: map<StudentId, Student>,
                             regs: seq<Registration>, c: Course)
    requires LedgerValid(courses, students, regs)
    requires c.id !in courses && c.currentEnrollments == 0
    ensures LedgerValid(courses[c.id := c], students, regs)
  {
    CountNone(regs, (x: Registration) => RegistrationRepository.ActiveIn(x, c.id));
  }

  /** Storing a course that `createCourse` accepts keeps every database invariant. */
  lemma AddCourseValid(courses: map<CourseId, Course>, nextId: nat, students: map<StudentId, Student>,
                       lecturers: set<LecturerId>, regs: seq<Registration>, results: seq<CourseResult>,
                       rows: seq<Course>, c: Course)
    requires CatalogValid(courses, nextId) && LedgerValid(courses, students, regs)
    requires ResultsValid(courses, students, lecturers, results)
    requires Mirrors(rows, courses) && !ExistsByCode(rows, c.code)
    requires c.id == nextId && |c.code| <= MaxCodeLength && c.currentEnrollments == 0
    requires forall p :: p in c.prerequisites ==> exists i :: 0 <= i < |rows| && rows[i].id == p
    ensures CatalogValid(courses[nextId := c], nextId + 1)
    ensures LedgerValid(courses[nextId := c], students, regs)
    ensures ResultsValid(courses[nextId := c], students, lecturers, results)
  {
    forall k | k in courses ensures courses[k].code != c.code {
      assert courses[k] in rows;
    }
    AddCourseCatalogValid(courses, nextId, c);
    AddCourseLedgerValid(courses, students, regs, c);
  }

  /** The prerequisite set of a create request: none when the list is absent or
      empty, otherwise the resolved codes. */
  method ResolveRequested(rows: seq<Course>, codes: Option<seq<string>>) returns (r: Result<set<CourseId>, Error>)
    ensures r == Resolve(rows, CodesOf(codes))
  {
    if codes.Some? && codes.value != [] {
      r := ResolvePrerequisiteCodes(rows, codes.value);
    } else {
      ResolveAllKnown(rows, []);
      r := Ok({});
    }
  }

  /** `createCourse`. On failure nothing is stored (the transaction rolls back). */
  method CreateCourse(db: Database, req: CourseCreateRequest) returns (r: Result<CourseResponse, Error>)
    requires db.Valid() && ValidCreateRequest(req)
    modifies db`courses, db`nextCourseId
    ensures db.Valid()
    ensures r.Err? <==> CreateRejection(old(db.Table()), req).Some?
    ensures r.Err? ==> r.error == CreateRejection(old(db.Table()), req).value
                       && db.courses == old(db.courses) && db.nextCourseId == old(db.nextCourseId)
    ensures r.Ok? ==>
              var id := old(db.nextCourseId);
              db.nextCourseId == id + 1
              && db.courses == old(db.courses)[id := NewCourse(id, req, Resolve(old(db.Table()), CodesOf(req.prerequisiteCodes)).value)]
              && r.value == MapToResponse(db.courses, db.courses[id])
  {
    var rows := db.Table();
    if ExistsByCode(rows, req.code) {
      return Err(CodeAlreadyExists(req.code));
    }
    var resolved := ResolveRequested(rows, req.prerequisiteCodes);
    if resolved.Err? {
      return Err(resolved.error);
    }
    // the unique `code` column rejects the flush
    if ExistsByCode(rows, ToUpper(req.code)) {
      return Err(CodeUniqueViolation);
    }
    var id := db.nextCourseId;
    var course := NewCourse(id, req, resolved.value);
    AddCourseValid(db.courses, id, db.students, db.lecturers, db.registrations, db.results, rows, course);
    db.courses := db.courses[id := course];
    db.nextCourseId := id + 1;
    r := Ok(MapToResponse(db.courses, course));
  }

  /** The prerequisite set `updateCourse` leaves on the course, or why it refuses:
      absent codes keep the set, an empty list clears it without any check, and
      otherwise every code must resolve and neither the course itself nor any
      course from which the existing edges lead back to it may be listed. */
  ghost function UpdatedPrerequisites(courses: map<CourseId, Course>, rows: seq<Course>, courseId: CourseId,
                                      codes: Option<seq<string>>): (r: Result<set<CourseId>, Error>)
    requires courseId in courses
    ensures codes.None? ==> r == Ok(courses[courseId].prerequisites)
    ensures codes == Some([]) ==> r == Ok({})
    ensures r.Ok? && codes.Some? && codes.value != [] ==>
              r == Resolve(rows, codes.value) && courseId !in r.value
              && forall p :: p in r.value ==> !Reachable(EdgesOf(courses), p, courseId)
    ensures r.Err? ==> r.error == CircularPrerequisite || r.error.PrerequisiteNotFound?
  {
    if codes.None? then Ok(courses[courseId].prerequisites)
    else if codes.value == [] then Ok({})
    else match Resolve(rows, codes.value)
      case Err(e) => Err(e)
      case Ok(ps) =>
        if courseId in ps || exists p :: p in ps && Reachable(EdgesOf(courses), p, courseId) then
          Err(CircularPrerequisite)
        else Ok(ps)
  }

  /** Listing the course's own code among its prerequisites is always refused. */
  lemma SelfPrerequisiteRejected(courses: map<CourseId, Course>, bound: nat, courseId: CourseId, codes: seq<string>, i: nat)
    requires KeyedById(courses) && UniqueCodes(courses)
    requires forall k :: k in courses ==> k < bound
    requires courseId in courses && i < |codes| && ToUpper(codes[i]) == courses[courseId].code
    requires Resolve(Table(courses, bound), codes).Ok?
    ensures UpdatedPrerequisites(courses, Table(courses, bound), courseId, Some(codes)) == Err(CircularPrerequisite)
  {
    ResolveIsCodeSet(courses, bound, codes);
  }

  /** The fields `updateCourse` sets (the code, the counter and `active` are kept). */
  function Updated(c: Course, req: CourseUpdateRequest, prerequisites: set<CourseId>): Course
  {
    c.(name := req.name, title := req.name, credits := req.credits, description := req.description,
       department := req.department, maxEnrollments := Some(req.maxEnrollments), prerequisites := prerequisites)
  }

  /** Rewriting a stored course in place, keeping its code, keeps the catalog
      constraints when its new prerequisites are a subset of the old ones, or
      are stored courses none of which leads back to it. */
  lemma UpdateCourseCatalog(courses: map<CourseId, Course>, nextId: nat, c: Course)
    requires CatalogValid(courses, nextId)
    requires c.id in courses && c.code == courses[c.id].code
    requires c.prerequisites <= courses[c.id].prerequisites
             || (c.prerequisites <= courses.Keys && c.id !in c.prerequisites
                 && forall p :: p in c.prerequisites ==> !Reachable(EdgesOf(courses), p, c.id))
    ensures CatalogValid(courses[c.id := c], nextId)
  {
    var g := EdgesOf(courses);
    var h := EdgesOf(courses[c.id := c]);
    assert h == g[c.id := c.prerequisites];
    if c.prerequisites <= courses[c.id].prerequisites {
      SubgraphAcyclic(g, h);
    } else {
      ReplaceEdgesAcyclic(g, c.id, c.prerequisites);
    }
  }

  /** Rewriting a stored course in place, keeping its id, code and counter,
      under the same condition on its prerequisites keeps every database
      invariant. */
  lemma UpdateCourseValid(courses: map<CourseId, Course>, nextId: nat, students: map<StudentId, Student>,
                          lecturers: set<LecturerId>, regs: seq<Registration>, results: seq<CourseResult>,
                          c: Course)
    requires CatalogValid(courses, nextId) && LedgerValid(courses, students, regs)
    requires ResultsValid(courses, students, lecturers, results)
    requires c.id in courses && c.code == courses[c.id].code
    requires c.currentEnrollments == courses[c.id].currentEnrollments
    requires c.prerequisites <= courses[c.id].prerequisites
             || (c.prerequisites <= courses.Keys && c.id !in c.prerequisites
                 && forall p :: p in c.prerequisites ==> !Reachable(EdgesOf(courses), p, c.id))
    ensures CatalogValid(courses[c.id := c], nextId)
    ensures LedgerValid(courses[c.id := c], students, regs)
    ensures ResultsValid(courses[c.id := c], students, lecturers, results)
  {
    UpdateCourseCatalog(courses, nextId, c);
  }

  /** The prerequisite step of `updateCourse`, against the stored catalog. */
  method UpdatePrerequisites(courses: map<CourseId, Course>, rows: seq<Course>, courseId: CourseId,
                             codes: Option<seq<string>>) returns (r: Result<set<CourseId>, Error>)
    requires Closed(EdgesOf(courses)) && Mirrors(rows, courses) && courseId in courses
    ensures r == UpdatedPrerequisites(courses, rows, courseId, codes)
    ensures r.Ok? ==> r.value <= courses[courseId].prerequisites
                      || (r.value <= courses.Keys && courseId !in r.value
                          && forall p :: p in r.value ==> !Reachable(EdgesOf(courses), p, courseId))
  {
    if codes.None? {
      return Ok(courses[courseId].prerequisites);
    }
    if codes.value == [] {
      return Ok({});
    }
    var resolved := ResolvePrerequisiteCodes(rows, codes.value);
    if resolved.Err? {
      return Err(resolved.error);
    }
    var ps := resolved.value;
    forall p | p in ps ensures p in courses {
      var i :| 0 <= i < |rows| && rows[i].id == p;
    }
    var cycle := courseId in ps;
    if !cycle {
      cycle := AnyCircularDependency(EdgesOf(courses), courseId, ps);
    }
    if cycle {
      return Err(CircularPrerequisite);
    }
    return Ok(ps);
  }

  /** `updateCourse`. Validation has already run; on failure nothing changes. */
  method UpdateCourse(db: Database, courseId: CourseId, req: CourseUpdateRequest) returns (r: Result<CourseResponse, Error>)
    requires db.Valid() && ValidUpdateRequest(req)
    modifies db`courses
    ensures db.Valid()
    ensures courseId !in old(db.courses) ==> r == Err(CourseNotFound(courseId)) && db.courses == old(db.courses)
    ensures courseId in old(db.courses) ==>
              var outcome := UpdatedPrerequisites(old(db.courses), old(db.Table()), courseId, req.prerequisiteCodes);
              (outcome.Err? ==> r == Err(outcome.error) && db.courses == old(db.courses))
              && (outcome.Ok? ==>
                    db.courses == old(db.courses)[courseId := Updated(old(db.courses)[courseId], req, outcome.value)]
                    && r == Ok(MapToResponse(db.courses, db.courses[courseId])))
  {
    if courseId !in db.courses {
      return Err(CourseNotFound(courseId));
    }
    var rows := db.Table();
    var prerequisites := UpdatePrerequisites(db.courses, rows, courseId, req.prerequisiteCodes);
    if prerequisites.Err? {
      return Err(prerequisites.error);
    }
    var course := Updated(db.courses[courseId], req, prerequisites.value);
    UpdateCourseValid(db.courses, db.nextCourseId, db.students, db.lecturers, db.registrations, db.results, course);
    db.courses := db.courses[courseId := course];
    r := Ok(MapToResponse(db.courses, course));
  }

  /** The new cap is not compared with the counter: an update that keeps the
      prerequisites and lowers the cap below the current enrollments is
      accepted, keeps every database invariant, and leaves the course over its
      cap. */
  lemma UpdateCanExceedCap(courses: map<CourseId, Course>, nextId: nat, students: map<StudentId, Student>,
                           lecturers: set<LecturerId>, regs: seq<Registration>, results: seq<CourseResult>,
                           k: CourseId, req: CourseUpdateRequest)
    requires StateValid(courses, nextId, students, lecturers, regs, results)
    requires k in courses && ValidUpdateRequest(req) && req.prerequisiteCodes.None?
    requires req.maxEnrollments < courses[k].currentEnrollments
    ensures UpdatedPrerequisites(courses, Table(courses, nextId), k, req.prerequisiteCodes) == Ok(courses[k].prerequisites)
    ensures var c := Updated(courses[k], req, courses[k].prerequisites);
            StateValid(courses[k := c], nextId, students, lecturers, regs, results)
            && c.maxEnrollments.Some? && c.currentEnrollments > c.maxEnrollments.value
  {
    var c := Updated(courses[k], req, courses[k].prerequisites);
    UpdateCourseValid(courses, nextId, students, lecturers, regs, results, c);
  }

  /** The codes listed in the refusal of `deleteCourse`: one per dependent course. */
  function DependentCodes(courses: map<CourseId, Course>, id: CourseId): (codes: set<string>)
    ensures codes == {} <==> Dependents(courses, id) == {}
    ensures forall d :: d in Dependents(courses, id) ==> courses[d].code in codes
    ensures forall code :: code in codes ==> exists d :: d in Dependents(courses, id) && courses[d].code == code
  {
    var codes := set d | d in Dependents(courses, id) :: courses[d].code;
    assert Dependents(courses, id) != {} ==> codes != {} by {
      if Dependents(courses, id) != {} {
        var d :| d in Dependents(courses, id);
        assert courses[d].code in codes;
      }
    }
    codes
  }

  /** A registration or result row still refers to the course (foreign keys). */
  predicate Referenced(regs: seq<Registration>, results: seq<CourseResult>, id: CourseId)
  {
    (exists i :: 0 <= i < |regs| && regs[i].course == id)
    || (exists i :: 0 <= i < |results| && results[i].course == id)
  }

  /** Why `deleteCourse` fails, if it does. */
  function DeleteRejection(courses: map<CourseId, Course>, regs: seq<Registration>, results: seq<CourseResult>,
                           id: CourseId): (e: Option<Error>)
    ensures id !in courses ==> e == Some(CourseNotFound(id))
    ensures id in courses ==>
              (Dependents(courses, id) != {} <==> e.Some? && e.value.CourseIsPrerequisite?)
    ensures e.Some? && e.value.CourseIsPrerequisite? ==> e.value.dependentCodes == DependentCodes(courses, id)
    ensures e.None? <==> id in courses && Dependents(courses, id) == {} && !Referenced(regs, results, id)
  {
    if id !in courses then Some(CourseNotFound(id))
    else if Dependents(courses, id) != {} then Some(CourseIsPrerequisite(DependentCodes(courses, id)))
    else if Referenced(regs, results, id) then Some(CourseStillReferenced)
    else None
  }

  /** Removing a course nothing depends on keeps the catalog valid. */
  lemma RemoveCourseCatalogValid(courses: map<CourseId, Course>, nextId: nat, id: CourseId)
    requires CatalogValid(courses, nextId) && id in courses && Dependents(courses, id) == {}
    ensures CatalogValid(courses - {id}, nextId)
  {
    var g := EdgesOf(courses);
    var h := EdgesOf(courses - {id});
    assert forall k :: Succ(h, k) <= Succ(g, k);
    SubgraphAcyclic(g, h);
    forall k | k in h ensures h[k] <= h.Keys {
      assert id !in courses[k].prerequisites;
    }
  }

  /** `deleteCourse`: refused while another course lists it as a prerequisite;
      otherwise the course and its own prerequisite edges go. */
  method DeleteCourse(db: Database, courseId: CourseId) returns (r: Outcome<Error>)
    requires db.Valid()
    modifies db`courses
    ensures db.Valid()
    ensures r.Failed? <==> DeleteRejection(old(db.courses), db.registrations, db.results, courseId).Some?
    ensures r.Failed? ==> r.error == DeleteRejection(old(db.courses), db.registrations, db.results, courseId).value
                          && db.courses == old(db.courses)
    ensures r.Done? ==> db.courses == old(db.courses) - {courseId}
  {
    if courseId !in db.courses {
      return Failed(CourseNotFound(courseId));
    }
    var dependents := Dependents(db.courses, courseId);
    if dependents != {} {
      return Failed(CourseIsPrerequisite(DependentCodes(db.courses, courseId)));
    }
    // the foreign keys of the registration and result rows reject the flush
    if Referenced(db.registrations, db.results, courseId) {
      return Failed(CourseStillReferenced);
    }
    RemoveCourseCatalogValid(db.courses, db.nextCourseId, courseId);
    db.courses := db.courses - {courseId};
    r := Done;
  }

  /** `getCourse`: any stored course, active or not. */
  function GetCourse(courses: map<CourseId, Course>, id: CourseId): (r: Result<CourseResponse, Error>)
    ensures r.Ok? <==> id in courses
    ensures r.Ok? ==> r.value == MapToResponse(courses, courses[id])
    ensures r.Err? ==> r.error == CourseNotFound(id)
  {
    if id in courses then Ok(MapToResponse(courses, courses[id])) else Err(CourseNotFound(id))
  }

  /** `getCourseByCode`: the code is upper-cased before the exact lookup. */
  function GetCourseByCode(courses: map<CourseId, Course>, bound: nat, code: string): (r: Result<CourseResponse, Error>)
    requires KeyedById(courses)
    ensures r.Ok? ==> r.value.code == ToUpper(code)
    ensures r.Ok? ==> r.value.id in courses && r.value.id < bound && r.value == MapToResponse(courses, courses[r.value.id])
    ensures r.Err? <==> forall k :: k in courses && k < bound ==> courses[k].code != ToUpper(code)
    ensures r.Err? ==> r.error == CourseCodeNotFound(code)
  {
    match FindByCode(Table(courses, bound), ToUpper(code))
    case None => Err(CourseCodeNotFound(code))
    case Some(c) => Ok(MapToResponse(courses, c))
  }

  /** Any spelling whose upper-cased form is a stored code finds that course. */
  lemma GetCourseByCodeIgnoresCase(courses: map<CourseId, Course>, bound: nat, k: CourseId, code: string)
    requires KeyedById(courses) && UniqueCodes(courses)
    requires k in courses && k < bound && ToUpper(code) == courses[k].code
    ensures GetCourseByCode(courses, bound, code) == Ok(MapToResponse(courses, courses[k]))
  {
    FindByCodeUnique(courses, bound, k);
  }

  /** `ORDER BY code` on responses. */
  ghost predicate ResponsesSortedByCode(s: seq<CourseResponse>)
  {
    forall i, j :: 0 <= i < j < |s| ==> CodeLe(s[i].code, s[j].code)
  }

  /** The responses for a list of rows, in the same order. */
  function Responses(courses: map<CourseId, Course>, rows: seq<Course>): (r: seq<CourseResponse>)
    ensures |r| == |rows| && forall i :: 0 <= i < |r| ==> r[i] == MapToResponse(courses, rows[i])
    ensures SortedByCode(rows) ==> ResponsesSortedByCode(r)
  {
    Map(rows, (c: Course) => MapToResponse(courses, c))
  }

  /** `getAllAvailableCoursesForStudents`: every active course, in table order. */
  function GetAllAvailableCoursesForStudents(courses: map<CourseId, Course>, bound: nat): (r: seq<CourseResponse>)
    requires KeyedById(courses)
    ensures forall i :: 0 <= i < |r| ==> r[i].isActive && r[i].id in courses && r[i] == MapToResponse(courses, courses[r[i].id])
    ensures forall k :: k in courses && k < bound && courses[k].active ==> MapToResponse(courses, courses[k]) in r
  {
    var rows := FindByActiveTrue(Table(courses, bound));
    SelectedRows(courses, bound, rows, (c: Course) => c.active);
    SelectedResponses(courses, bound, rows, (c: Course) => c.active);
    Responses(courses, rows)
  }

  /** `getCourseForStudent`: inactive courses are reported as missing. */
  function GetCourseForStudent(courses: map<CourseId, Course>, id: CourseId): (r: Result<CourseResponse, Error>)
    ensures r.Ok? <==> id in courses && courses[id].active
    ensures r.Ok? ==> r.value == MapToResponse(courses, courses[id]) && r.value.isActive
    ensures r.Err? ==> r.error == CourseNotAvailable(id)
  {
    match FindByIdAndActiveTrue(courses, id)
    case None => Err(CourseNotAvailable(id))
    case Some(c) => Ok(MapToResponse(courses, c))
  }

  /** `getCourseByCodeForStudent`: upper-cased lookup restricted to active courses. */
  function GetCourseByCodeForStudent(courses: map<CourseId, Course>, bound: nat, code: string): (r: Result<CourseResponse, Error>)
    requires KeyedById(courses)
    ensures r.Ok? ==> r.value.code == ToUpper(code) && r.value.isActive
                      && r.value.id in courses && r.value.id < bound
                      && r.value == MapToResponse(courses, courses[r.value.id])
    ensures r.Err? ==> r.error == CourseCodeNotAvailable(code)
    ensures r.Err? <==> forall k :: k in courses && k < bound && courses[k].active ==> courses[k].code != ToUpper(code)
  {
    var rows := Table(courses, bound);
    match FindByCodeAndActiveTrue(rows, ToUpper(code))
    case None =>
      assert forall k :: k in courses && k < bound && courses[k].active ==> courses[k].code != ToUpper(code) by {
        forall k | k in courses && k < bound && courses[k].active ensures courses[k].code != ToUpper(code) {
          var i :| 0 <= i < |rows| && rows[i] == courses[k];
        }
      }
      Err(CourseCodeNotAvailable(code))
    case Some(c) =>
      TableRow(courses, bound, c);
      Ok(MapToResponse(courses, c))
  }

  /** Any spelling whose upper-cased form is the code of a stored active
      course finds that course. */
  lemma GetCourseByCodeForStudentFinds(courses: map<CourseId, Course>, bound: nat, k: CourseId, code: string)
    requires KeyedById(courses) && UniqueCodes(courses)
    requires k in courses && k < bound && courses[k].active && ToUpper(code) == courses[k].code
    ensures GetCourseByCodeForStudent(courses, bound, code) == Ok(MapToResponse(courses, courses[k]))
  {
    var r := GetCourseByCodeForStudent(courses, bound, code);
    assert r.Ok?;
    assert courses[r.value.id].code == courses[k].code;
  }

  /** `getCoursesByDepartmentForStudents`: the department's active courses, by code. */
  function GetCoursesByDepartmentForStudents(courses: map<CourseId, Course>, bound: nat, department: string)
    : (r: seq<CourseResponse>)
    requires KeyedById(courses)
    ensures ResponsesSortedByCode(r)
    ensures forall i :: 0 <= i < |r| ==>
              r[i].id in courses && r[i] == MapToResponse(courses, courses[r[i].id])
              && r[i].isActive && r[i].department == department
    ensures forall k :: k in courses && k < bound && courses[k].active && courses[k].department == department
              ==> MapToResponse(courses, courses[k]) in r
  {
    var rows := FindByDepartmentAndActiveTrueOrderByCode(Table(courses, bound), department);
    SelectedRows(courses, bound, rows, (c: Course) => c.active && c.department == department);
    SelectedResponses(courses, bound, rows, (c: Course) => c.active && c.department == department);
    Responses(courses, rows)
  }

  /** The responses of rows that are exactly the stored courses satisfying
      `p` are those of exactly those courses. */
  lemma SelectedResponses(courses: map<CourseId, Course>, bound: nat, rows: seq<Course>, p: Course -> bool)
    requires forall i :: 0 <= i < |rows| ==> rows[i].id in courses && courses[rows[i].id] == rows[i] && p(rows[i])
    requires forall k :: k in courses && k < bound && p(courses[k]) ==> courses[k] in rows
    ensures var r := Responses(courses, rows);
            (forall i :: 0 <= i < |r| ==>
               r[i].id in courses && r[i] == MapToResponse(courses, courses[r[i].id]) && p(courses[r[i].id]))
            && (forall k :: k in courses && k < bound && p(courses[k]) ==> MapToResponse(courses, courses[k]) in r)
  {
    var r := Responses(courses, rows);
    forall k | k in courses && k < bound && p(courses[k]) ensures MapToResponse(courses, courses[k]) in r {
      var i :| 0 <= i < |rows| && rows[i] == courses[k];
      assert r[i] == MapToResponse(courses, courses[k]);
    }
  }


  /** `getAllCourses()`: every stored course, active or not, in table order. */
  function GetAllCourses(courses: map<CourseId, Course>, bound: nat): (r: seq<CourseResponse>)
    requires KeyedById(courses)
    ensures forall i :: 0 <= i < |r| ==> r[i].id in courses && r[i] == MapToResponse(courses, courses[r[i].id])
    ensures forall k :: k in courses && k < bound ==> MapToResponse(courses, courses[k]) in r
  {
    var rows := Table(courses, bound);
    SelectedRows(courses, bound, rows, (c: Course) => true);
    SelectedResponses(courses, bound, rows, (c: Course) => true);
    Responses(courses, rows)
  }

  /** `getAllCourses(code, name, pageable)` without the paging: the optional
      code and name filters; the name filter is matched against the `title`
      column, as `findWithFilters` does. */
  function GetAllCoursesFiltered(courses: map<CourseId, Course>, bound: nat, code: Option<string>,
                                 name: Option<string>): (r: seq<CourseResponse>)
    requires KeyedById(courses)
    ensures forall i :: 0 <= i < |r| ==>
              r[i].id in courses && r[i] == MapToResponse(courses, courses[r[i].id])
              && MatchesFilter(code, courses[r[i].id].code) && MatchesFilter(name, courses[r[i].id].title)
    ensures forall k :: (k in courses && k < bound && MatchesFilter(code, courses[k].code)
                         && MatchesFilter(name, courses[k].title))
                        ==> MapToResponse(courses, courses[k]) in r
  {
    var table := Table(courses, bound);
    var rows := FindWithFilters(table, code, name);
    var p := (c: Course) => MatchesFilter(code, c.code) && MatchesFilter(name, c.title);
    SelectedRows(courses, bound, rows, p);
    SelectedResponses(courses, bound, rows, p);
    Responses(courses, rows)
  }

  /** `getAvailableCoursesForStudents` without the paging: the active courses
      matching the optional code, name and department filters. */
  function GetAvailableCoursesForStudents(courses: map<CourseId, Course>, bound: nat, code: Option<string>,
                                          name: Option<string>, department: Option<string>): (r: seq<CourseResponse>)
    requires KeyedById(courses)
    ensures forall i :: 0 <= i < |r| ==>
              r[i].id in courses && r[i] == MapToResponse(courses, courses[r[i].id])
              && ActiveWithFilters(courses[r[i].id], code, name, department)
    ensures forall k :: k in courses && k < bound && ActiveWithFilters(courses[k], code, name, department)
                        ==> MapToResponse(courses, courses[k]) in r
  {
    var table := Table(courses, bound);
    var rows := FindActiveCoursesWithFilters(table, code, name, department);
    var p := (c: Course) => ActiveWithFilters(c, code, name, department);
    SelectedRows(courses, bound, rows, p);
    SelectedResponses(courses, bound, rows, p);
    Responses(courses, rows)
  }

  /** `searchCoursesForStudents` without the paging: active courses whose name
      or description matches the keyword. */
  function SearchCoursesForStudents(courses: map<CourseId, Course>, bound: nat, keyword: string)
    : (r: seq<CourseResponse>)
    requires KeyedById(courses)
    ensures forall i :: 0 <= i < |r| ==>
              r[i].id in courses && r[i] == MapToResponse(courses, courses[r[i].id]) && r[i].isActive
              && MatchesKeyword(courses[r[i].id], keyword)
    ensures forall k :: k in courses && k < bound && courses[k].active && MatchesKeyword(courses[k], keyword)
                        ==> MapToResponse(courses, courses[k]) in r
  {
    var table := Table(courses, bound);
    var rows := SearchActiveCoursesByKeyword(table, keyword);
    var p := (c: Course) => c.active && MatchesKeyword(c, keyword);
    SelectedRows(courses, bound, rows, p);
    SelectedResponses(courses, bound, rows, p);
    Responses(courses, rows)
  }

  /** `getCoursesByCreditValueForStudents`: the active courses with that many
      credits, by code. */
  function GetCoursesByCreditValueForStudents(courses: map<CourseId, Course>, bound: nat, credits: int)
    : (r: seq<CourseResponse>)
    requires KeyedById(courses)
    ensures ResponsesSortedByCode(r)
    ensures forall i :: 0 <= i < |r| ==>
              r[i].id in courses && r[i] == MapToResponse(courses, courses[r[i].id])
              && r[i].isActive && r[i].credits == credits
    ensures forall k :: k in courses && k < bound && courses[k].active && courses[k].credits == credits
                        ==> MapToResponse(courses, courses[k]) in r
  {
    var rows := FindByCreditsAndActiveTrueOrderByCode(Table(courses, bound), credits);
    SelectedRows(courses, bound, rows, (c: Course) => c.active && c.credits == credits);
    SelectedResponses(courses, bound, rows, (c: Course) => c.active && c.credits == credits);
    Responses(courses, rows)
  }
}
