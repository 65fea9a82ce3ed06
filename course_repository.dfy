/** `CourseRepository`: the derived and JPQL queries over the `courses` table,
    as functions of the table's rows. */
module CourseRepository {
  import opened Wrappers
  import opened Seqs
  import opened Text
  import opened CourseEntity

  /** Every stored course carries its own key as id. */
  ghost predicate KeyedById(courses: map<CourseId, Course>)
  {
    forall k :: k in courses ==> courses[k].id == k
  }

  /** The table read in primary-key order: the stored courses whose id is below
      `bound` (the next id the table will assign). */
  function Table(courses: map<CourseId, Course>, bound: nat): (rows: seq<Course>)
    requires KeyedById(courses)
    ensures forall i :: 0 <= i < |rows| ==>
              rows[i].id < bound && rows[i].id in courses && courses[rows[i].id] == rows[i]
    ensures forall i, j :: 0 <= i < j < |rows| ==> rows[i].id < rows[j].id
    ensures forall k :: k in courses && k < bound ==> courses[k] in rows
  {
    if bound == 0 then []
    else if bound - 1 in courses then Table(courses, bound - 1) + [courses[bound - 1]]
    else Table(courses, bound - 1)
  }
  /** A row read from the table is the stored course under its own id. */
  lemma TableRow(courses: map<CourseId, Course>, bound: nat, c: Course)
    requires KeyedById(courses) && c in Table(courses, bound)
    ensures c.id in courses && courses[c.id] == c && c.id < bound
  {
    var rows := Table(courses, bound);
    var j :| 0 <= j < |rows| && rows[j] == c;
  }
  /** The rows a query selects by `p` from the table are exactly the stored
      courses satisfying `p`, each under its own id. */
  lemma SelectedRows(courses: map<CourseId, Course>, bound: nat, rows: seq<Course>, p: Course -> bool)
    requires KeyedById(courses)
    requires forall c :: c in rows <==> c in Table(courses, bound) && p(c)
    ensures forall i :: 0 <= i < |rows| ==> rows[i].id in courses && courses[rows[i].id] == rows[i] && p(rows[i])
    ensures forall k :: k in courses && k < bound && p(courses[k]) ==> courses[k] in rows
  {
    forall i | 0 <= i < |rows| ensures rows[i].id in courses && courses[rows[i].id] == rows[i] && p(rows[i]) {
      assert rows[i] in rows;
      TableRow(courses, bound, rows[i]);
    }
  }



  /** `existsByCode`: an exact match on the stored code; it holds exactly
      when `findByCode` finds a course. */
  predicate ExistsByCode(rows: seq<Course>, code: string): (b: bool)
    ensures b <==> FindByCode(rows, code).Some?
  {
    exists i :: 0 <= i < |rows| && rows[i].code == code
  }

  /** `findByCode`: an exact match on the stored code. */
  function FindByCode(rows: seq<Course>, code: string): (r: Option<Course>)
    ensures r.Some? ==> r.value in rows && r.value.code == code
  {
    match FindIndex(rows, (c: Course) => c.code == code)
    case None => None
    case Some(i) => Some(rows[i])
  }

  /** Under the unique `code` column, `findByCode` returns the one course with that code. */
  lemma FindByCodeUnique(courses: map<CourseId, Course>, bound: nat, k: CourseId)
    requires KeyedById(courses) && UniqueCodes(courses)
    requires k in courses && k < bound
    ensures FindByCode(Table(courses, bound), courses[k].code) == Some(courses[k])
  {
    var rows := Table(courses, bound);
    assert courses[k] in rows;
    var c := FindByCode(rows, courses[k].code).value;
    assert c.id in courses && courses[c.id] == c;
  }

  /** A code is found in the table exactly when some stored course has it. */
  lemma ExistsByCodeInTable(courses: map<CourseId, Course>, bound: nat, code: string)
    requires KeyedById(courses)
    requires forall k :: k in courses ==> k < bound
    ensures ExistsByCode(Table(courses, bound), code) <==> IdsWithCode(courses, code) != {}
  {
    var rows := Table(courses, bound);
    if IdsWithCode(courses, code) != {} {
      var k :| k in IdsWithCode(courses, code);
      assert courses[k] in rows;
    }
    if ExistsByCode(rows, code) {
      var i :| 0 <= i < |rows| && rows[i].code == code;
      assert rows[i].id in IdsWithCode(courses, code);
    }
  }

  /** `findByIdAndActiveTrue`. */
  function FindByIdAndActiveTrue(courses: map<CourseId, Course>, id: CourseId): (r: Option<Course>)
    ensures r.Some? <==> id in courses && courses[id].active
    ensures r.Some? ==> r.value == courses[id]
  {
    if id in courses && courses[id].active then Some(courses[id]) else None
  }

  /** `findByCodeAndActiveTrue`. */
  function FindByCodeAndActiveTrue(rows: seq<Course>, code: string): (r: Option<Course>)
    ensures r.Some? ==> r.value in rows && r.value.code == code && r.value.active
    ensures r.None? <==> forall i :: 0 <= i < |rows| ==> !(rows[i].code == code && rows[i].active)
  {
    match FindIndex(rows, (c: Course) => c.code == code && c.active)
    case None => None
    case Some(i) => Some(rows[i])
  }

  /** `findByActiveTrue`: exactly the active rows, in table order. */
  function FindByActiveTrue(rows: seq<Course>): (r: seq<Course>)
    ensures forall c :: c in r <==> c in rows && c.active
  {
    Filter(rows, (c: Course) => c.active)
  }

  /** `ORDER BY code`. */
  ghost predicate SortedByCode(s: seq<Course>)
  {
    forall i, j :: 0 <= i < j < |s| ==> CodeLe(s[i].code, s[j].code)
  }

  function InsertByCode(x: Course, s: seq<Course>): (r: seq<Course>)
    requires SortedByCode(s)
    ensures SortedByCode(r)
    ensures multiset(r) == multiset(s) + multiset{x}
  {
    if s == [] then [x]
    else if CodeLe(x.code, s[0].code) then
      assert forall j :: 0 < j < |s| ==> CodeLe(x.code, s[j].code) by {
        forall j | 0 < j < |s| ensures CodeLe(x.code, s[j].code) {
          CodeLeTransitive(x.code, s[0].code, s[j].code);
        }
      }
      [x] + s
    else
      var t := InsertByCode(x, s[1..]);
      assert s == [s[0]] + s[1..];
      InsertAfterHead(x, s, t);
      [s[0]] + t
  }

  /** Inserting past the head: the head stays below every element of the
      sorted tail it is put in front of. */
  lemma InsertAfterHead(x: Course, s: seq<Course>, t: seq<Course>)
    requires s != [] && SortedByCode(s) && !CodeLe(x.code, s[0].code)
    requires SortedByCode(t) && multiset(t) == multiset(s[1..]) + multiset{x}
    ensures SortedByCode([s[0]] + t)
  {
    CodeLeTotal(x.code, s[0].code);
    forall j | 0 <= j < |t| ensures CodeLe(s[0].code, t[j].code) {
      assert t[j] in multiset(t);
      if t[j] != x {
        assert t[j] in multiset(s[1..]);
        var k :| 0 <= k < |s[1..]| && s[1..][k] == t[j];
        assert s[1..][k] == s[k + 1];
      }
    }
    var r := [s[0]] + t;
    forall i, j | 0 <= i < j < |r| ensures CodeLe(r[i].code, r[j].code) {
      assert r[j] == t[j - 1];
      if i > 0 {
        assert r[i] == t[i - 1];
      }
    }
  }

  /** Insertion sort by code: a sorted permutation of the input. */
  function SortByCode(s: seq<Course>): (r: seq<Course>)
    ensures SortedByCode(r)
    ensures multiset(r) == multiset(s)
  {
    if s == [] then []
    else
      assert s == [s[0]] + s[1..];
      InsertByCode(s[0], SortByCode(s[1..]))
  }

  /** Sorting the rows kept by a filter keeps exactly those rows. */
  lemma SortedFilterMember(rows: seq<Course>, p: Course -> bool, c: Course)
    ensures c in SortByCode(Filter(rows, p)) <==> c in rows && p(c)
  {
    assert c in SortByCode(Filter(rows, p)) <==> c in multiset(SortByCode(Filter(rows, p)));
  }

  /** `findByDepartmentAndActiveTrueOrderByCode`: the active courses of exactly
      that department, sorted by code. */
  function FindByDepartmentAndActiveTrueOrderByCode(rows: seq<Course>, department: string): (r: seq<Course>)
    ensures SortedByCode(r)
    ensures forall c :: c in r <==> c in rows && c.department == department && c.active
  {
    var p := (c: Course) => c.department == department && c.active;
    assert forall c :: c in SortByCode(Filter(rows, p)) <==> c in rows && p(c) by {
      forall c ensures c in SortByCode(Filter(rows, p)) <==> c in rows && p(c) {
        SortedFilterMember(rows, p, c);
      }
    }
    SortByCode(Filter(rows, p))
  }

  /** `findByCreditsAndActiveTrueOrderByCode`: the active courses with exactly
      that credit value, sorted by code. */
  function FindByCreditsAndActiveTrueOrderByCode(rows: seq<Course>, credits: int): (r: seq<Course>)
    ensures SortedByCode(r)
    ensures forall c :: c in r <==> c in rows && c.credits == credits && c.active
  {
    var p := (c: Course) => c.credits == credits && c.active;
    assert forall c :: c in SortByCode(Filter(rows, p)) <==> c in rows && p(c) by {
      forall c ensures c in SortByCode(Filter(rows, p)) <==> c in rows && p(c) {
        SortedFilterMember(rows, p, c);
      }
    }
    SortByCode(Filter(rows, p))
  }

  /** `(:f IS NULL OR LOWER(field) LIKE LOWER(CONCAT('%', :f, '%')))`. */
  predicate MatchesFilter(f: Option<string>, field: string)
  {
    f.None? || LikeIgnoreCase(field, f.value)
  }

  /** The same filter read as a case-insensitive substring test. */
  predicate ContainsFilter(f: Option<string>, field: string)
  {
    f.None? || IsSubstring(ToLower(f.value), ToLower(field))
  }

  predicate NoWildcardFilter(f: Option<string>)
  {
    f.None? || NoWildcards(f.value)
  }

  lemma MatchesFilterIsContains(f: Option<string>, field: string)
    requires NoWildcardFilter(f)
    ensures MatchesFilter(f, field) <==> ContainsFilter(f, field)
  {
    if f.Some? {
      LikeIgnoreCaseIsSubstring(field, f.value);
    }
  }

  /** `findWithFilters` (the administrator listing): code and title filters,
      inactive courses included. */
  function FindWithFilters(rows: seq<Course>, code: Option<string>, title: Option<string>): (r: seq<Course>)
    ensures forall c :: c in r <==> c in rows && MatchesFilter(code, c.code) && MatchesFilter(title, c.title)
  {
    Filter(rows, (c: Course) => MatchesFilter(code, c.code) && MatchesFilter(title, c.title))
  }

  predicate ActiveWithFilters(c: Course, code: Option<string>, name: Option<string>, department: Option<string>)
  {
    c.active && MatchesFilter(code, c.code) && MatchesFilter(name, c.name) && MatchesFilter(department, c.department)
  }

  /** `findActiveCoursesWithFilters` (the student listing). */
  function FindActiveCoursesWithFilters(rows: seq<Course>, code: Option<string>, name: Option<string>,
                                        department: Option<string>): (r: seq<Course>)
    ensures forall c :: c in r <==> c in rows && ActiveWithFilters(c, code, name, department)
  {
    Filter(rows, (c: Course) => ActiveWithFilters(c, code, name, department))
  }

  /** With wildcard-free filters (no `%`, `_` or backslash), a row is listed exactly when it is
      active and every given filter occurs in the matching field, ignoring case;
      an absent filter matches everything. */
  lemma ActiveFiltersAreSubstrings(rows: seq<Course>, code: Option<string>, name: Option<string>,
                                   department: Option<string>, c: Course)
    requires NoWildcardFilter(code) && NoWildcardFilter(name) && NoWildcardFilter(department)
    requires c in rows
    ensures c in FindActiveCoursesWithFilters(rows, code, name, department) <==>
              c.active && ContainsFilter(code, c.code) && ContainsFilter(name, c.name)
              && ContainsFilter(department, c.department)
  {
    MatchesFilterIsContains(code, c.code);
    MatchesFilterIsContains(name, c.name);
    MatchesFilterIsContains(department, c.department);
  }

  /** `LOWER(c.name) LIKE ... OR LOWER(c.description) LIKE ...`; a NULL
      description never matches. */
  predicate MatchesKeyword(c: Course, keyword: string)
  {
    LikeIgnoreCase(c.name, keyword)
    || (c.description.Some? && LikeIgnoreCase(c.description.value, keyword))
  }

  /** `searchActiveCoursesbyKeyword`. */
  function SearchActiveCoursesByKeyword(rows: seq<Course>, keyword: string): (r: seq<Course>)
    ensures forall c :: c in r <==> c in rows && c.active && MatchesKeyword(c, keyword)
  {
    Filter(rows, (c: Course) => c.active && MatchesKeyword(c, keyword))
  }

  /** A wildcard-free keyword search is a case-insensitive substring search in
      the name or the description. */
  lemma KeywordIsSubstring(rows: seq<Course>, keyword: string, c: Course)
    requires NoWildcards(keyword) && c in rows
    ensures c in SearchActiveCoursesByKeyword(rows, keyword) <==>
              c.active && (IsSubstring(ToLower(keyword), ToLower(c.name))
                           || (c.description.Some? && IsSubstring(ToLower(keyword), ToLower(c.description.value))))
  {
    LikeIgnoreCaseIsSubstring(c.name, keyword);
    if c.description.Some? {
      LikeIgnoreCaseIsSubstring(c.description.value, keyword);
    }
  }
}
