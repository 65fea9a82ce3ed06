/** The prerequisite relation as a directed graph (course -> its prerequisites),
    the depth-first reachability check of `CourseService.hasCircularDependency`,
    and the facts that keep the graph acyclic across catalog edits. */
module PrerequisiteGraph {
  import opened CourseEntity

  type Graph = map<CourseId, set<CourseId>>

  /** The edges stored on the course rows. */
  function EdgesOf(courses: map<CourseId, Course>): (g: Graph)
    ensures g.Keys == courses.Keys
    ensures forall k :: k in g ==> g[k] == courses[k].prerequisites
  {
    map k | k in courses :: courses[k].prerequisites
  }

  /** The dependents of `c` are exactly the stored courses with an edge to `c`. */
  lemma DependentsAreReverseEdges(courses: map<CourseId, Course>, c: CourseId, d: CourseId)
    ensures d in Dependents(courses, c) <==> d in EdgesOf(courses) && c in Succ(EdgesOf(courses), d)
  {
  }

  function Succ(g: Graph, a: CourseId): set<CourseId>
  {
    if a in g then g[a] else {}
  }

  /** Every edge ends at a stored course (the join table's foreign key). */
  ghost predicate Closed(g: Graph)
  {
    forall a :: a in g ==> g[a] <= g.Keys
  }

  /** `b` is reached from `a` along at least one and at most `n + 1` edges. */
  ghost predicate ReachIn(g: Graph, a: CourseId, b: CourseId, n: nat)
    decreases n
  {
    b in Succ(g, a) || (n > 0 && exists y :: y in Succ(g, a) && ReachIn(g, y, b, n - 1))
  }

  /** `b` is reached from `a` along at least one edge. */
  ghost predicate Reachable(g: Graph, a: CourseId, b: CourseId)
  {
    exists n: nat :: ReachIn(g, a, b, n)
  }

  ghost predicate Acyclic(g: Graph)
  {
    forall a :: !Reachable(g, a, a)
  }

  lemma ReachEdge(g: Graph, a: CourseId, y: CourseId, b: CourseId)
    ensures y in Succ(g, a) && Reachable(g, y, b) ==> Reachable(g, a, b)
  {
    if y in Succ(g, a) && Reachable(g, y, b) {
      var n: nat :| ReachIn(g, y, b, n);
      assert ReachIn(g, a, b, n + 1);
    }
  }

  lemma {:induction false} ReachInTransitive(g: Graph, a: CourseId, b: CourseId, c: CourseId, n: nat)
    requires ReachIn(g, a, b, n) && Reachable(g, b, c)
    ensures Reachable(g, a, c)
    decreases n
  {
    if b in Succ(g, a) {
      ReachEdge(g, a, b, c);
    } else {
      var y: nat :| y in Succ(g, a) && ReachIn(g, y, b, n - 1);
      ReachInTransitive(g, y, b, c, n - 1);
      ReachEdge(g, a, y, c);
    }
  }

  lemma ReachTransitive(g: Graph, a: CourseId, b: CourseId, c: CourseId)
    ensures Reachable(g, a, b) && Reachable(g, b, c) ==> Reachable(g, a, c)
  {
    if Reachable(g, a, b) && Reachable(g, b, c) {
      var n: nat :| ReachIn(g, a, b, n);
      ReachInTransitive(g, a, b, c, n);
    }
  }

  /** Nothing reaches a node that is not stored when every edge ends at a stored node. */
  lemma {:induction false} NothingReachesMissing(g: Graph, a: CourseId, c: CourseId, n: nat)
    requires Closed(g) && c !in g
    ensures !ReachIn(g, a, c, n)
    decreases n
  {
    if n > 0 {
      forall y | y in Succ(g, a) ensures !ReachIn(g, y, c, n - 1) {
        NothingReachesMissing(g, y, c, n - 1);
      }
    }
  }

  /** Paths in a graph with fewer edges are paths in the original. */
  lemma {:induction false} SubgraphReach(g: Graph, h: Graph, a: CourseId, b: CourseId, n: nat)
    requires forall k :: Succ(h, k) <= Succ(g, k)
    ensures ReachIn(h, a, b, n) ==> ReachIn(g, a, b, n)
    decreases n
  {
    if n > 0 {
      forall y | y in Succ(h, a) ensures ReachIn(h, y, b, n - 1) ==> ReachIn(g, y, b, n - 1) {
        SubgraphReach(g, h, y, b, n - 1);
      }
    }
  }

  /** Removing edges or nodes keeps a graph acyclic. */
  lemma SubgraphAcyclic(g: Graph, h: Graph)
    requires Acyclic(g)
    requires forall k :: Succ(h, k) <= Succ(g, k)
    ensures Acyclic(h)
  {
    forall a, n: nat ensures !ReachIn(h, a, a, n) {
      SubgraphReach(g, h, a, a, n);
      assert !Reachable(g, a, a);
    }
  }

  /** After replacing `c`'s edges by `ps`, a node other than `c` that could not
      reach `c` still cannot. */
  lemma {:induction false} StillCannotReach(g: Graph, c: CourseId, ps: set<CourseId>, x: CourseId, n: nat)
    requires x != c && !Reachable(g, x, c)
    ensures !ReachIn(g[c := ps], x, c, n)
    decreases n
  {
    var h := g[c := ps];
    assert Succ(h, x) == Succ(g, x);
    assert ReachIn(g, x, c, 0) ==> Reachable(g, x, c);
    if n > 0 {
      forall y | y in Succ(h, x) ensures !ReachIn(h, y, c, n - 1) {
        ReachEdge(g, x, y, c);
        StillCannotReach(g, c, ps, y, n - 1);
      }
    }
  }

  /** A path after replacing `c`'s edges either is an old path or passes through `c`. */
  lemma {:induction false} ThroughReplaced(g: Graph, c: CourseId, ps: set<CourseId>, x: CourseId, b: CourseId, n: nat)
    ensures ReachIn(g[c := ps], x, b, n) ==>
              ReachIn(g, x, b, n)
              || ((x == c || Reachable(g[c := ps], x, c)) && Reachable(g[c := ps], c, b))
    decreases n
  {
    var h := g[c := ps];
    if x != c && ReachIn(h, x, b, n) {
      assert Succ(h, x) == Succ(g, x);
      if b !in Succ(h, x) {
        var y: nat :| y in Succ(h, x) && ReachIn(h, y, b, n - 1);
        ThroughReplaced(g, c, ps, y, b, n - 1);
        if !ReachIn(g, y, b, n - 1) {
          assert ReachIn(h, x, c, 0) ==> Reachable(h, x, c);
          ReachEdge(h, x, y, c);
        }
      }
    }
  }

  /** The acceptance condition of `updateCourse`: if no proposed prerequisite is
      the course itself or reaches it, the new edge set keeps the graph acyclic. */
  lemma ReplaceEdgesAcyclic(g: Graph, c: CourseId, ps: set<CourseId>)
    requires Acyclic(g)
    requires c !in ps
    requires forall p :: p in ps ==> !Reachable(g, p, c)
    ensures Acyclic(g[c := ps])
  {
    var h := g[c := ps];
    forall m: nat ensures !ReachIn(h, c, c, m) {
      if m > 0 {
        forall y | y in Succ(h, c) ensures !ReachIn(h, y, c, m - 1) {
          StillCannotReach(g, c, ps, y, m - 1);
        }
      }
    }
    forall a, n: nat ensures !ReachIn(h, a, a, n) {
      ThroughReplaced(g, c, ps, a, a, n);
      assert !Reachable(g, a, a);
      ReachTransitive(h, c, a, c);
    }
  }

  /** A new course whose prerequisites already exist cannot close a cycle:
      nothing depends on it yet. */
  lemma AddNodeAcyclic(g: Graph, c: CourseId, ps: set<CourseId>)
    requires Acyclic(g) && Closed(g)
    requires c !in g && ps <= g.Keys
    ensures Acyclic(g[c := ps]) && Closed(g[c := ps])
  {
    forall p, n: nat | p in ps ensures !ReachIn(g, p, c, n) {
      NothingReachesMissing(g, p, c, n);
    }
    ReplaceEdgesAcyclic(g, c, ps);
  }

  /** Visited nodes outside the current search stack are finished: they have no
      edge to `target` and all their successors are visited. */
  ghost predicate Finished(g: Graph, target: CourseId, visited: set<CourseId>, stack: set<CourseId>)
  {
    forall v :: v in visited && v !in stack ==> target !in Succ(g, v) && Succ(g, v) <= visited
  }

  /** From a finished visited set, `target` is unreachable. */
  lemma {:induction false} FinishedUnreachable(g: Graph, target: CourseId, visited: set<CourseId>, a: CourseId, n: nat)
    requires Finished(g, target, visited, {}) && a in visited
    ensures !ReachIn(g, a, target, n)
    decreases n
  {
    if n > 0 {
      forall y | y in Succ(g, a) ensures !ReachIn(g, y, target, n - 1) {
        FinishedUnreachable(g, target, visited, y, n - 1);
      }
    }
  }

  /** `hasCircularDependencyRecursive(target, current, visited)`: a depth-first
      search from `current` over the prerequisite edges that reports whether it
      meets `target`, skipping courses already in the shared `visited` set.
      The Java method adds to `visited` in place; here the grown set is returned.
      `stack` (proof only) holds the courses whose search is still in progress. */
  method HasCircularDependencyRecursive(g: Graph, target: CourseId, current: CourseId,
                                        visited: set<CourseId>, ghost stack: set<CourseId>)
    returns (found: bool, visited': set<CourseId>)
    requires Closed(g) && current in g && visited <= g.Keys
    requires stack <= visited
    requires Finished(g, target, visited, stack)
    ensures visited <= visited' <= g.Keys
    ensures found ==> Reachable(g, current, target)
    ensures !found ==> current in visited' && Finished(g, target, visited', stack)
    decreases g.Keys - visited
  {
    if current in visited {
      return false, visited;
    }
    visited' := visited + {current};
    var todo := g[current];
    while todo != {}
      invariant visited + {current} <= visited' <= g.Keys
      invariant todo <= g[current]
      invariant g[current] - todo <= visited'
      invariant target !in g[current] - todo
      invariant Finished(g, target, visited', stack + {current})
      decreases todo
    {
      var dependency :| dependency in todo;
      if dependency == target {
        assert ReachIn(g, current, target, 0);
        return true, visited';
      }
      assert current in (g.Keys - visited) - (g.Keys - visited');
      var sub;
      sub, visited' := HasCircularDependencyRecursive(g, target, dependency, visited', stack + {current});
      if sub {
        ReachEdge(g, current, dependency, target);
        return true, visited';
      }
      todo := todo - {dependency};
    }
    return false, visited';
  }

  /** `hasCircularDependency(course, prerequisite)`: a fresh search from the
      proposed prerequisite. It reports exactly whether the existing edges lead
      from the prerequisite back to the course, i.e. whether the new edge
      course -> prerequisite would close a cycle. */
  method HasCircularDependency(g: Graph, course: CourseId, prerequisite: CourseId) returns (cycle: bool)
    requires Closed(g) && prerequisite in g
    ensures cycle <==> Reachable(g, prerequisite, course)
  {
    var visited;
    cycle, visited := HasCircularDependencyRecursive(g, course, prerequisite, {}, {});
    if !cycle {
      forall n: nat ensures !ReachIn(g, prerequisite, course, n) {
        FinishedUnreachable(g, course, visited, prerequisite, n);
      }
    }
  }

  /** `prerequisites.stream().anyMatch(p -> hasCircularDependency(course, p))`,
      each search with its own visited set. */
  method AnyCircularDependency(g: Graph, course: CourseId, prerequisites: set<CourseId>) returns (cycle: bool)
    requires Closed(g) && prerequisites <= g.Keys
    ensures cycle <==> exists p :: p in prerequisites && Reachable(g, p, course)
  {
    var todo := prerequisites;
    while todo != {}
      invariant todo <= prerequisites
      invariant forall p :: p in prerequisites - todo ==> !Reachable(g, p, course)
      decreases todo
    {
      var p: nat :| p in todo;
      cycle := HasCircularDependency(g, course, p);
      if cycle {
        return;
      }
      todo := todo - {p};
    }
    return false;
  }
}
