# ucms-backend: course catalog, registration ledger and grading engine

A Dafny model of the core of the ucms-backend university course management
service (Spring Boot, Java). The model covers three pieces of stateful logic
over one database, plus the repository queries they use:

- **Course catalog** (`CourseService`): create, update and delete courses. The
  prerequisite relation must stay acyclic. Updating a course's prerequisites
  runs a depth-first search with a visited set from every proposed
  prerequisite. Deleting a course is refused while another course lists it as
  a prerequisite. The model also covers the student-facing read operations.
- **Registration ledger** (`StudentCourseRegistrationService`): register a
  student for a course and unregister them again. A course may have an
  enrollment cap. A student cannot hold two ACTIVE registrations for the same
  course. After every write, a cached `currentEnrollments` counter on the
  course is recomputed from the ACTIVE rows.
- **Grading** (`CourseGradingService`, `CourseResult.Grade`):
  - a submit-grade upsert, allowed only for a student with an ACTIVE
    registration;
  - the letter-grade band table;
  - a batch release of a lecturer's results for a course;
  - a student view that shows released results only.
- **Student course view** (`StudentCourseService`): the availability flag,
  which is true when fewer students are enrolled than the cap. It feeds the
  "available for enrollment" lists and `canEnrollInCourse`.

The state lives in one class, `Store.Database`. Its fields are:

- the course table, a map keyed by id, plus the next id to assign;
- the students and lecturers, which other components manage;
- the registration rows, as a sequence;
- the result rows, as a sequence.

`Database.Valid()` states the constraints the schema and the services keep:

- the course code is unique and at most 16 characters;
- the prerequisite relation only refers to stored courses and has no cycles;
- each (student, course) pair has at most one registration row;
- each course's counter equals its number of ACTIVE registrations;
- each (student, course) pair has at most one result;
- every row refers to stored rows.

The ACTIVE count is not kept at or below the cap. Registration refuses a
student once a positive cap is reached, but `updateCourse` sets a new cap
without comparing it with the counter. So an accepted update can leave a
course over its cap (`CourseService.UpdateCanExceedCap`). Only the per-step
form is proved (`RegistrationService.RegisterRespectsCapacity`).

Each `@Transactional` service method is a Dafny method over `Database`:

- It returns `Result`/`Outcome` with an `Error` value.
- On error the state is unchanged, as the rollback guarantees.
- On success its `ensures` gives the new state as a function of the old one.

Read-only service calls are functions of the tables. Marks are integer
hundredths, matching the `scale = 2` column. Timestamps are a `now` parameter.

Two behaviours of the code differ from what a reader may expect; the model
follows the code:

- **Grade bands.** The bands are closed integer intervals (A 80–84, A+ 85–100,
  and so on), so marks such as 84.5 fall in no band. `fromMarks` returns FAIL
  for them, not the half-open band a reader might expect.
  `CourseResultEntity.GapMarksFail` proves this.
- **Student view without a cap.** `convertToStudentView` compares against a
  nullable `maxEnrollments`. A course without a cap therefore makes the student
  view throw. The list operations that meet such a course fail as a whole, and
  `canEnrollInCourse` answers false. Registration, by contrast, treats a
  missing or non-positive cap as unlimited.
  `StudentCourseService.CanEnrollMatchesCapacity` states both sides of this
  disagreement.

## Model

| member | source | states |
|---|---|---|
| CourseEntity.DependentsInverse | src/main/java/com/uok/ucms_backend/courses/entity/Course.java:48-57 | `d` is a dependent of `c` exactly when `c` is among `d`'s prerequisites (`dependentCourses` is the inverse side of `prerequisites`) |
| RegistrationEntity.AtMostOneActive | src/main/java/com/uok/ucms_backend/enrollments/entity/StudentCourseRegistration.java:15-17 | under the unique (student_id, course_id) constraint, two ACTIVE rows for the same pair are the same row |
| CourseResultEntity.DisplayName | src/main/java/com/uok/ucms_backend/grades/entity/CourseResult.java:67-77 | each grade is shown as one of A, B, C, D, F, with a `+` or `-` after it for the split bands |
| CourseResultEntity.DisplayNamesDistinct | src/main/java/com/uok/ucms_backend/grades/entity/CourseResult.java:67-77 | no two grades are shown with the same letter |
| CourseResultEntity.MinMarks | src/main/java/com/uok/ucms_backend/grades/entity/CourseResult.java:67-77 | a band's lower bound is non-negative and at most its upper bound, and only FAIL starts at zero |
| CourseResultEntity.MaxMarks | src/main/java/com/uok/ucms_backend/grades/entity/CourseResult.java:67-77 | a band's upper bound is at most 100, and only A+ reaches 100 |
| CourseResultEntity.BandTableTiles | src/main/java/com/uok/ucms_backend/grades/entity/CourseResult.java:67-77 | in declaration order the bands run from 100 down to 0, each starting one whole mark above the next band's upper bound |
| CourseResultEntity.FromMarksFrom | src/main/java/com/uok/ucms_backend/grades/entity/CourseResult.java:101-107 | the scan from position `i` returns the first band in declaration order whose closed range holds the marks, and FAIL when no band holds them |
| CourseResultEntity.FromMarks | src/main/java/com/uok/ucms_backend/grades/entity/CourseResult.java:101-107 | the grade is FAIL or a band containing the marks; marks in no band give FAIL |
| CourseResultEntity.FromMarksScan | src/main/java/com/uok/ucms_backend/grades/entity/CourseResult.java:67-77 | `fromMarks` unrolled over the eleven bands of the table, in declaration order |
| CourseResultEntity.IntegerMarksGrade | src/main/java/com/uok/ucms_backend/grades/entity/CourseResult.java:67-77 | every whole mark 0..100 gets the grade of its threshold (A+ from 85, A from 80, …, F below 40) and lies in that band |
| CourseResultEntity.IntegerMarksInOneBand | src/main/java/com/uok/ucms_backend/grades/entity/CourseResult.java:67-77 | every whole mark 0..100 lies in exactly one band |
| CourseResultEntity.BandsDisjoint | src/main/java/com/uok/ucms_backend/grades/entity/CourseResult.java:67-77 | no marks lie in two different bands |
| CourseResultEntity.FromMarksMonotone | src/main/java/com/uok/ucms_backend/grades/entity/CourseResult.java:67-77 | for whole marks 0..100, higher marks never give a lower grade |
| CourseResultEntity.OutOfRangeMarksFail | src/main/java/com/uok/ucms_backend/grades/entity/CourseResult.java:101-107 | negative marks and marks above 100 give FAIL |
| CourseResultEntity.GapMarksFail | src/main/java/com/uok/ucms_backend/grades/entity/CourseResult.java:101-107 | marks strictly between two bands (such as 84.5) give FAIL |
| PrerequisiteGraph.EdgesOf | src/main/java/com/uok/ucms_backend/courses/entity/Course.java:48-54 | the prerequisite graph has one node per stored course, whose edges are its prerequisites |
| PrerequisiteGraph.DependentsAreReverseEdges | src/main/java/com/uok/ucms_backend/courses/entity/Course.java:48-57 | the dependents of a course are exactly the stored courses with a prerequisite edge to it |
| PrerequisiteGraph.SubgraphAcyclic | src/main/java/com/uok/ucms_backend/courses/service/CourseService.java:78-80 | removing edges (clearing or keeping prerequisites) keeps an acyclic graph acyclic |
| PrerequisiteGraph.ReplaceEdgesAcyclic | src/main/java/com/uok/ucms_backend/courses/service/CourseService.java:89-95 | replacing a course's prerequisites with a set that excludes the course and from which the course is unreachable keeps the graph acyclic |
| PrerequisiteGraph.AddNodeAcyclic | src/main/java/com/uok/ucms_backend/courses/service/CourseService.java:48-58 | a new course with stored prerequisites and no dependents keeps the graph acyclic and closed, so creation needs no cycle check |
| PrerequisiteGraph.HasCircularDependencyRecursive | src/main/java/com/uok/ucms_backend/courses/service/CourseService.java:158-175 | the DFS with a visited set answers true only if the target is reachable from `current`; on false, every course it visited cannot reach the target, and the visited set only grows |
| PrerequisiteGraph.HasCircularDependency | src/main/java/com/uok/ucms_backend/courses/service/CourseService.java:154-156 | with a fresh visited set, the check is true exactly when the course is reachable from the prerequisite |
| PrerequisiteGraph.AnyCircularDependency | src/main/java/com/uok/ucms_backend/courses/service/CourseService.java:90-91 | the `anyMatch` over the proposed prerequisites is true exactly when the course is reachable from one of them |
| CourseRepository.Table | src/main/java/com/uok/ucms_backend/courses/repository/CourseRepository.java:15 | the table read in key order holds exactly the stored courses, each under its own id |
| CourseRepository.FindByCode | src/main/java/com/uok/ucms_backend/courses/repository/CourseRepository.java:17 | a found course is in the table and has exactly that code |
| CourseRepository.ExistsByCode | src/main/java/com/uok/ucms_backend/courses/repository/CourseRepository.java:17-19 | `existsByCode(c)` holds exactly when `findByCode(c)` finds a course |
| CourseRepository.FindByCodeUnique | src/main/java/com/uok/ucms_backend/courses/repository/CourseRepository.java:17 | under the unique code column, `findByCode` returns the one course with that code |
| CourseRepository.ExistsByCodeInTable | src/main/java/com/uok/ucms_backend/courses/repository/CourseRepository.java:19 | `existsByCode` holds exactly when some stored course has that code |
| CourseRepository.FindByIdAndActiveTrue | src/main/java/com/uok/ucms_backend/courses/repository/CourseRepository.java:38 | finds the course exactly when it is stored and active |
| CourseRepository.FindByCodeAndActiveTrue | src/main/java/com/uok/ucms_backend/courses/repository/CourseRepository.java:43 | finds a course with that code only if it is active; empty exactly when no active course has the code |
| CourseRepository.FindByActiveTrue | src/main/java/com/uok/ucms_backend/courses/repository/CourseRepository.java:33 | exactly the active rows, every one of them |
| CourseRepository.SortByCode | src/main/java/com/uok/ucms_backend/courses/repository/CourseRepository.java:48 | `ORDER BY code`: the result is sorted by code and is a permutation of the input |
| CourseRepository.FindByDepartmentAndActiveTrueOrderByCode | src/main/java/com/uok/ucms_backend/courses/repository/CourseRepository.java:48 | exactly the active courses of that department, sorted by code |
| CourseRepository.FindByCreditsAndActiveTrueOrderByCode | src/main/java/com/uok/ucms_backend/courses/repository/CourseRepository.java:53 | exactly the active courses with that many credits, sorted by code |
| CourseRepository.FindWithFilters | src/main/java/com/uok/ucms_backend/courses/repository/CourseRepository.java:21-26 | exactly the rows, inactive ones included, whose code and title match the optional LIKE filters, where an absent filter matches everything |
| CourseRepository.MatchesFilterIsContains | src/main/java/com/uok/ucms_backend/courses/repository/CourseRepository.java:21-23 | a wildcard-free filter (no `%`, `_` or backslash) matches exactly when it is a case-insensitive substring of the field |
| CourseRepository.FindActiveCoursesWithFilters | src/main/java/com/uok/ucms_backend/courses/repository/CourseRepository.java:58-65 | exactly the active rows whose code, name and department match the optional filters |
| CourseRepository.ActiveFiltersAreSubstrings | src/main/java/com/uok/ucms_backend/courses/repository/CourseRepository.java:58-61 | with wildcard-free (no `%`, `_` or backslash) filters, a row is listed exactly when it is active and each given filter is a case-insensitive substring of its field |
| CourseRepository.SearchActiveCoursesByKeyword | src/main/java/com/uok/ucms_backend/courses/repository/CourseRepository.java:70-74 | exactly the active rows whose name or (non-null) description matches the keyword |
| CourseRepository.KeywordIsSubstring | src/main/java/com/uok/ucms_backend/courses/repository/CourseRepository.java:70-72 | with a wildcard-free (no `%`, `_` or backslash) keyword, that is a case-insensitive substring search in name or description |
| Text.LikeContains | src/main/java/com/uok/ucms_backend/courses/repository/CourseRepository.java:22 | `LIKE CONCAT('%', x, '%')` with a wildcard-free (no `%`, `_` or backslash) `x` holds exactly when `x` is a substring |
| Text.LikeIgnoreCaseIsSubstring | src/main/java/com/uok/ucms_backend/courses/repository/CourseRepository.java:22 | `LOWER(field) LIKE LOWER('%' + f + '%')` is a case-insensitive substring test |
| Text.ToUpperIdempotent | src/main/java/com/uok/ucms_backend/courses/service/CourseService.java:37 | upper-casing a stored (already upper-case) code changes nothing |
| RegistrationRepository.FindActiveRegistrationsByStudentNumber | src/main/java/com/uok/ucms_backend/enrollments/repository/StudentCourseRegistrationRepository.java:18-19 | exactly the ACTIVE rows carrying that student number |
| RegistrationRepository.FindActiveRegistrationsByStudentId | src/main/java/com/uok/ucms_backend/enrollments/repository/StudentCourseRegistrationRepository.java:24-25 | exactly the student's ACTIVE rows |
| RegistrationRepository.IndexOf | src/main/java/com/uok/ucms_backend/enrollments/repository/StudentCourseRegistrationRepository.java:30 | the position of a row with that student, course and status; none exactly when no such row exists |
| RegistrationRepository.FindByStudentIdAndCourseIdAndStatus | src/main/java/com/uok/ucms_backend/enrollments/repository/StudentCourseRegistrationRepository.java:30 | a found row is stored and has that student, course and status |
| RegistrationRepository.ExistsIffFound | src/main/java/com/uok/ucms_backend/enrollments/repository/StudentCourseRegistrationRepository.java:35 | holds exactly when `findByStudentIdAndCourseIdAndStatus` returns a row |
| RegistrationRepository.CountActiveRegistrationsByCourseId | src/main/java/com/uok/ucms_backend/enrollments/repository/StudentCourseRegistrationRepository.java:40-41 | the ACTIVE count never exceeds the number of rows |
| RegistrationRepository.CountActiveZero | src/main/java/com/uok/ucms_backend/enrollments/repository/StudentCourseRegistrationRepository.java:40-41 | the ACTIVE count of a course is zero exactly when it has no ACTIVE row |
| RegistrationRepository.FoundActiveIsOnly | src/main/java/com/uok/ucms_backend/enrollments/repository/StudentCourseRegistrationRepository.java:30 | under the unique pair constraint, the ACTIVE row found for a pair is its only one |
| RegistrationRepository.FindByStudentNumberAndCourseCode | src/main/java/com/uok/ucms_backend/enrollments/repository/StudentCourseRegistrationRepository.java:46-47 | only an ACTIVE row matching both denormalised fields; empty exactly when there is none |
| CourseResultRepository.FindReleasedResultsByStudentId | src/main/java/com/uok/ucms_backend/grades/repository/CourseResultRepository.java:18-19 | exactly the student's released rows |
| CourseResultRepository.FindReleasedResultsByStudentNumber | src/main/java/com/uok/ucms_backend/grades/repository/CourseResultRepository.java:24-25 | exactly the released rows carrying that student number |
| CourseResultRepository.FindResultsByCourseIdAndLecturerId | src/main/java/com/uok/ucms_backend/grades/repository/CourseResultRepository.java:36-37 | exactly the rows of that course and lecturer, released or not |
| CourseResultRepository.FindByStudentIdAndCourseId | src/main/java/com/uok/ucms_backend/grades/repository/CourseResultRepository.java:42 | a found row belongs to that pair; empty exactly when the pair has none |
| CourseResultRepository.ResultIndexIsOnly | src/main/java/com/uok/ucms_backend/grades/repository/CourseResultRepository.java:42 | under the unique pair constraint, the lookup finds the pair's one row |
| CourseResultRepository.CourseExists | src/main/java/com/uok/ucms_backend/grades/repository/CourseResultRepository.java:47-48 | `COUNT(c) > 0` over the id holds exactly when the course is stored |
| CourseResultRepository.FindGradableCourses | src/main/java/com/uok/ucms_backend/grades/repository/CourseResultRepository.java:53-54 | exactly the active courses |
| CourseResultRepository.GradableAreActive | src/main/java/com/uok/ucms_backend/grades/repository/CourseResultRepository.java:53-54 | the gradable courses are the same list as `findByActiveTrue` |
| CourseResultRepository.FindActiveRegistrationsByCourseId | src/main/java/com/uok/ucms_backend/grades/repository/CourseResultRepository.java:59-60 | exactly the course's ACTIVE registrations |
| CourseResultRepository.ActiveListMatchesCount | src/main/java/com/uok/ucms_backend/grades/repository/CourseResultRepository.java:59-60 | that list has as many entries as `countActiveRegistrationsByCourseId` reports |
| CourseResultRepository.FindEnrolledStudentsByCourseId | src/main/java/com/uok/ucms_backend/grades/repository/CourseResultRepository.java:30-31 | one student per ACTIVE registration of the course, and exactly those students |
| CourseService.MapToResponse | src/main/java/com/uok/ucms_backend/courses/service/CourseService.java:177-205 | the response carries the course's id, code, name, credits, description, department, cap, counter and active flag |
| CourseService.ResponsePrerequisites | src/main/java/com/uok/ucms_backend/courses/service/CourseService.java:177-205 | the response's prerequisite summaries are exactly the summaries of the course's stored prerequisites |
| CourseService.Resolve | src/main/java/com/uok/ucms_backend/courses/service/CourseService.java:48-55 | resolving codes succeeds exactly when every upper-cased code is stored; otherwise it fails naming the first unknown code |
| CourseService.ResolveIsCodeSet | src/main/java/com/uok/ucms_backend/courses/service/CourseService.java:50-54 | the resolved set is exactly the stored courses whose code is the upper-case form of a requested code |
| CourseService.ResolvePrerequisiteCodes | src/main/java/com/uok/ucms_backend/courses/service/CourseService.java:82-87 | the lookup loop returns what `Resolve` specifies |
| CourseService.NewCourse | src/main/java/com/uok/ucms_backend/courses/service/CourseService.java:36-55 | a created course has the upper-cased code, title equal to the name, counter 0, active, the requested cap and the resolved prerequisites |
| CourseService.CreateRejection | src/main/java/com/uok/ucms_backend/courses/service/CourseService.java:31-58 | creation fails on the raw code already stored, then on an unknown prerequisite, then (unique column) on the upper-cased code already stored |
| CourseService.LowerCaseDuplicate | src/main/java/com/uok/ucms_backend/courses/service/CourseService.java:32-37 | a lower-case spelling of a stored code passes the duplicate check and is rejected only by the unique column |
| CourseService.AddCourseValid | src/main/java/com/uok/ucms_backend/courses/service/CourseService.java:36-58 | adding an accepted new course keeps every database constraint |
| CourseService.CreateCourse | src/main/java/com/uok/ucms_backend/courses/service/CourseService.java:28-62 | fails exactly as `CreateRejection` says and then changes nothing; otherwise stores `NewCourse` under the next id and returns its response; keeps `Valid()` |
| CourseService.UpdatedPrerequisites | src/main/java/com/uok/ucms_backend/courses/service/CourseService.java:77-97 | null codes keep the prerequisites, an empty list clears them without a check, and otherwise the resolved set is accepted only if it excludes the course and none of its members reaches the course |
| CourseService.SelfPrerequisiteRejected | src/main/java/com/uok/ucms_backend/courses/service/CourseService.java:90 | naming the course itself as a prerequisite is rejected as circular |
| CourseService.UpdateCourseCatalog | src/main/java/com/uok/ucms_backend/courses/service/CourseService.java:70-95 | rewriting a course with its code kept keeps codes unique and the prerequisite graph closed and acyclic, when the new prerequisites shrink the old ones or none of them leads back to the course |
| CourseService.UpdateCourseValid | src/main/java/com/uok/ucms_backend/courses/service/CourseService.java:70-95 | an accepted update keeps every database constraint, acyclicity included |
| CourseService.UpdatePrerequisites | src/main/java/com/uok/ucms_backend/courses/service/CourseService.java:77-97 | the resolution and DFS checks compute `UpdatedPrerequisites` |
| CourseService.UpdateCourse | src/main/java/com/uok/ucms_backend/courses/service/CourseService.java:64-103 | a missing course or a rejected prerequisite set changes nothing; otherwise only that course's editable fields and prerequisites change; keeps `Valid()` |
| CourseService.UpdateCanExceedCap | src/main/java/com/uok/ucms_backend/courses/service/CourseService.java:75 | an update that keeps the prerequisites and sets a cap below the current enrollments is accepted, keeps every database invariant, and leaves the course over its cap |
| CourseService.DependentCodes | src/main/java/com/uok/ucms_backend/courses/service/CourseService.java:112-117 | the codes named in the refusal are exactly the dependents' codes, and there are none exactly when there are no dependents |
| CourseService.DeleteRejection | src/main/java/com/uok/ucms_backend/courses/service/CourseService.java:105-120 | deletion fails for a missing course or when some course lists it as a prerequisite (naming every dependent), or when registrations or results still refer to it; it succeeds otherwise |
| CourseService.RemoveCourseCatalogValid | src/main/java/com/uok/ucms_backend/courses/service/CourseService.java:120 | removing a course nothing depends on keeps the catalog acyclic and closed |
| CourseService.DeleteCourse | src/main/java/com/uok/ucms_backend/courses/service/CourseService.java:105-122 | fails exactly as `DeleteRejection` says and then changes nothing; otherwise removes the course with its outgoing edges; keeps `Valid()` |
| CourseService.GetCourse | src/main/java/com/uok/ucms_backend/courses/service/CourseService.java:124-130 | any stored course, active or not; an error for a missing id |
| CourseService.GetCourseByCode | src/main/java/com/uok/ucms_backend/courses/service/CourseService.java:132-138 | Ok with the stored course's response exactly when some stored course has the upper-cased code; otherwise an error naming the code |
| CourseService.GetCourseByCodeIgnoresCase | src/main/java/com/uok/ucms_backend/courses/service/CourseService.java:134 | any spelling whose upper-case form is a stored code finds that course |
| CourseService.GetAllCourses | src/main/java/com/uok/ucms_backend/courses/service/CourseService.java:146-152 | the responses of exactly the stored courses |
| CourseService.GetAllCoursesFiltered | src/main/java/com/uok/ucms_backend/courses/service/CourseService.java:140-144 | the responses of exactly the courses whose code and title match the filters |
| CourseService.GetAvailableCoursesForStudents | src/main/java/com/uok/ucms_backend/courses/service/CourseService.java:213-219 | the responses of exactly the active courses matching the code, name and department filters |
| CourseService.GetAllAvailableCoursesForStudents | src/main/java/com/uok/ucms_backend/courses/service/CourseService.java:225-233 | the responses of exactly the active courses |
| CourseService.GetCourseForStudent | src/main/java/com/uok/ucms_backend/courses/service/CourseService.java:239-247 | succeeds exactly for a stored active course; an inactive one is reported as not available |
| CourseService.GetCourseByCodeForStudent | src/main/java/com/uok/ucms_backend/courses/service/CourseService.java:253-261 | a found course is a stored active course with the upper-cased code, returned as its response; the error, naming the code as given, comes exactly when no stored active course has that code |
| CourseService.GetCourseByCodeForStudentFinds | src/main/java/com/uok/ucms_backend/courses/service/CourseService.java:253-261 | any spelling whose upper-cased form is the code of a stored active course returns that course's response |
| CourseService.SearchCoursesForStudents | src/main/java/com/uok/ucms_backend/courses/service/CourseService.java:267-273 | the responses of exactly the active courses whose name or description matches the keyword |
| CourseService.GetCoursesByDepartmentForStudents | src/main/java/com/uok/ucms_backend/courses/service/CourseService.java:279-287 | the responses of exactly the department's active courses, sorted by code |
| CourseService.GetCoursesByCreditValueForStudents | src/main/java/com/uok/ucms_backend/courses/service/CourseService.java:293-301 | the responses of exactly the active courses with that many credits, sorted by code |
| RegistrationService.ConvertToResponse | src/main/java/com/uok/ucms_backend/enrollments/service/StudentCourseRegistrationService.java:157-176 | the registration's own fields, its status name, and the course details when the course is present |
| RegistrationService.AtCapacity | src/main/java/com/uok/ucms_backend/enrollments/service/StudentCourseRegistrationService.java:55-60 | a course without a positive cap is never full, and a full course has at least one ACTIVE registration |
| RegistrationService.RegisteredIffActiveRowStored | src/main/java/com/uok/ucms_backend/enrollments/service/StudentCourseRegistrationService.java:137-140 | `isStudentRegisteredForCourse` holds exactly when an ACTIVE row for that student and course is stored |
| RegistrationService.RegisterRejection | src/main/java/com/uok/ucms_backend/enrollments/service/StudentCourseRegistrationService.java:35-60 | registration succeeds exactly when the student and course exist, the course is active, no ACTIVE row exists for the pair, and the cap (only when set and positive) is not reached; the errors come in the source's order |
| RegistrationService.NewRegistration | src/main/java/com/uok/ucms_backend/enrollments/service/StudentCourseRegistrationService.java:63-70 | the new row is ACTIVE for the pair and copies the index number, code and name (as title), stamped `now` |
| RegistrationService.WithCounter | src/main/java/com/uok/ucms_backend/enrollments/service/StudentCourseRegistrationService.java:145-152 | only that course's counter changes, to its ACTIVE count; a missing course is left alone |
| RegistrationService.UpdateCourseEnrollmentCount | src/main/java/com/uok/ucms_backend/enrollments/service/StudentCourseRegistrationService.java:145-152 | the course table becomes `WithCounter` of the current rows |
| RegistrationService.RegisterKeepsLedger | src/main/java/com/uok/ucms_backend/enrollments/service/StudentCourseRegistrationService.java:63-75 | after an accepted registration every counter equals its ACTIVE count, pairs stay unique, and the course's counter goes up by one |
| RegistrationService.RegisterKeepsValid | src/main/java/com/uok/ucms_backend/enrollments/service/StudentCourseRegistrationService.java:63-75 | an accepted registration keeps every database constraint |
| RegistrationService.RegisteredDatabaseValid | src/main/java/com/uok/ucms_backend/enrollments/service/StudentCourseRegistrationService.java:63-75 | after the save and the counter refresh the database keeps every constraint, the counter is one higher and the pair is registered |
| RegistrationService.CheckRegistration | src/main/java/com/uok/ucms_backend/enrollments/service/StudentCourseRegistrationService.java:35-60 | the checks compute `RegisterRejection` |
| RegistrationService.RegisterStudentForCourse | src/main/java/com/uok/ucms_backend/enrollments/service/StudentCourseRegistrationService.java:31-80 | fails exactly as `RegisterRejection` says and then changes nothing; otherwise appends exactly one ACTIVE row for the pair, raises that course's counter by one and leaves others alone; keeps `Valid()` |
| RegistrationService.RegisterRespectsCapacity | src/main/java/com/uok/ucms_backend/enrollments/service/StudentCourseRegistrationService.java:55-72 | with a positive cap, an accepted registration leaves the ACTIVE count at or below the cap |
| RegistrationService.RemovalKeepsUniquePairs | src/main/java/com/uok/ucms_backend/enrollments/service/StudentCourseRegistrationService.java:94 | deleting a row keeps the pair constraint |
| RegistrationService.UnregisterKeepsLedger | src/main/java/com/uok/ucms_backend/enrollments/service/StudentCourseRegistrationService.java:89-97 | deleting the pair's ACTIVE row lowers that course's count by one, keeps every counter in step, and leaves the pair unregistered |
| RegistrationService.UnregisterKeepsValid | src/main/java/com/uok/ucms_backend/enrollments/service/StudentCourseRegistrationService.java:89-97 | unregistering keeps every database constraint |
| RegistrationService.UnregisteredDatabaseValid | src/main/java/com/uok/ucms_backend/enrollments/service/StudentCourseRegistrationService.java:89-97 | after the delete and the counter refresh the database keeps every constraint, the counter is one lower and the pair is no longer registered |
| RegistrationService.UnregisterStudentFromCourse | src/main/java/com/uok/ucms_backend/enrollments/service/StudentCourseRegistrationService.java:85-101 | fails with nothing changed when the pair has no ACTIVE row; otherwise deletes that row (no DROPPED status) and recomputes the counter; afterwards the pair is not registered |
| RegistrationService.RegisterThenUnregister | src/main/java/com/uok/ucms_backend/enrollments/service/StudentCourseRegistrationService.java:63-97 | registering and then unregistering the same pair restores the registration rows and the course table |
| RegistrationService.GetRegisteredCoursesByStudentId | src/main/java/com/uok/ucms_backend/enrollments/service/StudentCourseRegistrationService.java:106-116 | the responses of exactly the student's ACTIVE registrations |
| RegistrationService.GetRegisteredCoursesByStudentNumber | src/main/java/com/uok/ucms_backend/enrollments/service/StudentCourseRegistrationService.java:121-131 | the responses of exactly the ACTIVE registrations with that student number |
| GradingService.GradeNamesDistinct | src/main/java/com/uok/ucms_backend/grades/service/CourseGradingService.java:232 | the grade names reported in responses identify the grade |
| GradingService.ConvertToResponse | src/main/java/com/uok/ucms_backend/grades/service/CourseGradingService.java:223-244 | the result's fields, the grade's name and display name, the student's full name and the course's credits |
| GradingService.GradeRejection | src/main/java/com/uok/ucms_backend/grades/service/CourseGradingService.java:89-93 | a grade is accepted exactly when the student has an ACTIVE registration for the course and the course and lecturer exist; a missing registration is reported first |
| GradingService.CheckGrade | src/main/java/com/uok/ucms_backend/grades/service/CourseGradingService.java:89-93 | the lookups reject exactly when the student has no ACTIVE registration for the course (reported first), the course is missing, or the lecturer is missing |
| GradingService.GradedResult | src/main/java/com/uok/ucms_backend/grades/service/CourseGradingService.java:77-106 | the saved row belongs to the pair and the submitting lecturer, stores the marks, remarks, `fromMarks` grade and `now`, is unreleased, and keeps an existing row's `releasedAt` |
| GradingService.Upsert | src/main/java/com/uok/ucms_backend/grades/service/CourseGradingService.java:77-86 | the saved row is present afterwards, nothing else is added, and the other pairs' rows stay |
| GradingService.UpsertReplacesPair | src/main/java/com/uok/ucms_backend/grades/service/CourseGradingService.java:77-86 | saving never creates a second row for the pair: afterwards the rows are the new row plus the other pairs' rows, one per pair, and the count grows only for a new pair |
| GradingService.UpsertKeepsResultsValid | src/main/java/com/uok/ucms_backend/grades/service/CourseGradingService.java:96-108 | a saved grade keeps the result table's constraints |
| GradingService.SubmitGrade | src/main/java/com/uok/ucms_backend/grades/service/CourseGradingService.java:71-112 | fails exactly as `GradeRejection` says and then changes nothing; otherwise upserts `GradedResult` for the pair and returns its response; keeps `Valid()` |
| GradingService.RegradeHidesResult | src/main/java/com/uok/ucms_backend/grades/service/CourseGradingService.java:106 | after a (re)grade, the student's released results hold nothing for that course |
| GradingService.SubmittedResultListed | src/main/java/com/uok/ucms_backend/grades/service/CourseGradingService.java:96-108 | after a submission, the lecturer's results for the course contain the new row and no other row of that student |
| GradingService.Released | src/main/java/com/uok/ucms_backend/grades/service/CourseGradingService.java:123-128 | an unreleased row of that course and lecturer becomes released at `now`; every other row is unchanged |
| GradingService.Release | src/main/java/com/uok/ucms_backend/grades/service/CourseGradingService.java:121-130 | the table after a release: same length, each row replaced by `Released` |
| GradingService.ReleaseResults | src/main/java/com/uok/ucms_backend/grades/service/CourseGradingService.java:118-133 | the loop leaves the result table equal to `Release` of the old one; keeps `Valid()` |
| GradingService.ReleaseKeepsResultsValid | src/main/java/com/uok/ucms_backend/grades/service/CourseGradingService.java:123-130 | releasing keeps the result table's constraints |
| GradingService.ReleaseEffect | src/main/java/com/uok/ucms_backend/grades/service/CourseGradingService.java:121-128 | afterwards every row of the course and lecturer is released, with its earlier timestamp if it already was and `now` otherwise, marks and grade unchanged; other rows are untouched |
| GradingService.ReleaseIdempotent | src/main/java/com/uok/ucms_backend/grades/service/CourseGradingService.java:123-128 | a second release changes nothing, timestamps included, whatever its `now` |
| GradingService.ReleasedResultVisible | src/main/java/com/uok/ucms_backend/grades/service/CourseGradingService.java:121-128 | a released row of the lecturer's course appears in the student's released results |
| GradingService.GetCourseResults | src/main/java/com/uok/ucms_backend/grades/service/CourseGradingService.java:139-147 | the responses of exactly the lecturer's rows for the course, released or not |
| GradingService.GetStudentResults | src/main/java/com/uok/ucms_backend/grades/service/CourseGradingService.java:153-161 | the responses of exactly the student's released rows; none unreleased |
| GradingService.GetStudentResultsByNumber | src/main/java/com/uok/ucms_backend/grades/service/CourseGradingService.java:167-175 | exactly the responses of the stored released rows with that student number: every such row is listed, and every response is the conversion of one |
| GradingService.ConvertToEnrolledStudent | src/main/java/com/uok/ucms_backend/grades/service/CourseGradingService.java:195-218 | the registration's student, with `hasGrade` true exactly when the pair has a result, and that result attached |
| GradingService.GetEnrolledStudentsForCourse | src/main/java/com/uok/ucms_backend/grades/service/CourseGradingService.java:52-65 | as many entries as the course has ACTIVE registrations, the i-th for the i-th student `findEnrolledStudentsByCourseId` returns, with `hasGrade` exactly when a result for that student and course exists |
| GradingService.GetGradableCourses | src/main/java/com/uok/ucms_backend/grades/service/CourseGradingService.java:40-46 | the summaries of exactly the active courses |
| GradingService.ConvertToCourseResponse | src/main/java/com/uok/ucms_backend/grades/service/CourseGradingService.java:249-261 | the summary carries the course's id, code, name, description, credits, department, cap, counter and active flag |
| GradingService.GradableSummaryMatchesResponse | src/main/java/com/uok/ucms_backend/grades/service/CourseGradingService.java:249-261 | the grading summary agrees with the catalog's `mapToResponse` on every field it carries |
| StudentCourseService.ConvertToStudentView | src/main/java/com/uok/ucms_backend/students/service/StudentCourseService.java:29-57 | the view copies the response's fields and prerequisites, and is available exactly when fewer students are enrolled than the cap; none without a cap |
| StudentCourseService.ConvertToStudentViews | src/main/java/com/uok/ucms_backend/students/service/StudentCourseService.java:62-66 | one view per response, same length and order; fails exactly when some response has no cap |
| StudentCourseService.AvailableViewsSorted | src/main/java/com/uok/ucms_backend/students/service/StudentCourseService.java:101-104 | views converted one by one from code-sorted responses, then filtered on availability, are still in code order |
| StudentCourseService.GetAvailableCoursesForEnrollment | src/main/java/com/uok/ucms_backend/students/service/StudentCourseService.java:82-91 | the views of exactly the active courses with room left; fails exactly when some active course has no cap |
| StudentCourseService.GetAvailableCoursesForEnrollmentByDepartment | src/main/java/com/uok/ucms_backend/students/service/StudentCourseService.java:96-105 | the views of exactly the department's active courses with room left, sorted by code; fails exactly when one of them has no cap |
| StudentCourseService.CanEnrollInCourse | src/main/java/com/uok/ucms_backend/students/service/StudentCourseService.java:111-124 | true exactly for a stored active course with a cap and fewer enrollments than the cap; every failure answers false |
| StudentCourseService.CanEnrollMatchesCapacity | src/main/java/com/uok/ucms_backend/students/service/StudentCourseService.java:41 | with the counter in step and a positive cap, `canEnrollInCourse` holds exactly when registration's checks for activity and capacity pass; without a positive cap, the view says no while registration sees no limit |

## Left out

- Authentication, roles and the HTTP layer (controllers, exception-to-status mapping): the acting student or lecturer is a parameter.
- Pagination and `Page` building: every paged query is modelled as the full list it pages over.
- Logging and the `createdAt`/`updatedAt` audit columns.
- Row ids of registrations and results, and the lecturer's name in result responses: lecturers are modelled by id only, since their records belong to the user component. Students are the fields the services read.
- Concurrency: each `@Transactional` method is one atomic step, so the unlocked count-then-insert race in registration is not modelled.
- Marks are integer hundredths, as the `scale = 2` column stores them. `doubleValue()` rounding and marks with more digits are not modelled.
- The `Long.intValue()` narrowing of the ACTIVE count, and 32-bit `Integer` limits in general: integers are unbounded.
- Letter case is ASCII only, and `NotBlank` treats only space, tab, CR and LF as blank. Unicode case mapping and whitespace are not modelled.
- LIKE escaping: the queries give no ESCAPE clause, so the database reads a backslash in a filter as an escape character (and rejects a trailing one). `Like` reads it as itself, so it does not model filters holding a backslash. `%` and `_` are wildcards, as in the database. The lemmas that read filters as substring tests assume filters without any of these three characters.
- The `grade` column's declared length of 2, shorter than most enum names. Whether the database rejects such values depends on the vendor's DDL for enum columns, so the model stores any grade.
- The unused lookup `findActiveRegistrationsByStudentNumber(null)` at the start of `getEnrolledStudentsForCourse` has no effect on the result and is not modelled.
- `StudentCourseService.convertToStudentViews(Page)`: this is the list conversion plus paging.
- `CourseService.mapToResponse` loads the prerequisites lazily. The model looks them up in the course table, which holds the same rows.
