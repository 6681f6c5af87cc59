/** Whether the parent relation between entities is a rooted tree. */
module RefTreeChecks {
  import opened SchemaModel
  import opened Graphs
  import opened RefTrees

  /** A sequence of entities, each followed by its only parent type. */
  ghost predicate IsChain(arcs: Arcs, entities: seq<Path>, c: seq<Path>) {
    && c != []
    && (forall e | e in c :: e in entities)
    && (forall i, j | 0 <= i < j < |c| && j == i + 1 :: Parents(arcs, c[i]) == {c[j]})
  }

  ghost predicate Climbs(arcs: Arcs, entities: seq<Path>, c: seq<Path>, e: Path, root: Path) {
    IsChain(arcs, entities, c) && c[0] == e && c[|c| - 1] == root
  }

  ghost predicate ClimbsTo(arcs: Arcs, entities: seq<Path>, e: Path, root: Path) {
    exists c :: Climbs(arcs, entities, c, e, root)
  }

  /** `root` has no parent, and following parents leads from every entity to it. */
  ghost predicate RootedAt(arcs: Arcs, entities: seq<Path>, root: Path) {
    root in entities && Parents(arcs, root) == {} && forall e | e in entities :: ClimbsTo(arcs, entities, e, root)
  }

  ghost predicate IsRootedTree(arcs: Arcs, entities: seq<Path>) {
    exists root :: RootedAt(arcs, entities, root)
  }

  // ---- What a rooted tree is ------------------------------------------------

  /** There is one root, every other entity has exactly one parent type, and the way
      to the root is unique and never passes an entity twice. */
  lemma RootedTreeShape(arcs: Arcs, entities: seq<Path>, root: Path)
    requires RootedAt(arcs, entities, root)
    ensures forall e | e in entities :: Parents(arcs, e) == {} <==> e == root
    ensures forall e | e in entities && e != root :: exists p :: p in entities && Parents(arcs, e) == {p}
    ensures forall e, c, d | Climbs(arcs, entities, c, e, root) && Climbs(arcs, entities, d, e, root) :: c == d
    ensures forall e, c | Climbs(arcs, entities, c, e, root) :: Distinct(c)
  {
    forall e | e in entities && e != root
      ensures exists p :: p in entities && Parents(arcs, e) == {p}
    {
      var c :| Climbs(arcs, entities, c, e, root);
      assert Parents(arcs, c[0]) == {c[1]} && c[1] in c;
    }
    forall e, c, d | Climbs(arcs, entities, c, e, root) && Climbs(arcs, entities, d, e, root) ensures c == d {
      ClimbUnique(arcs, entities, c, d, e, root);
    }
    forall e, c | Climbs(arcs, entities, c, e, root) ensures Distinct(c) {
      forall i, j | 0 <= i < j < |c| ensures c[i] != c[j] {
        if c[i] == c[j] {
          ClimbSuffix(arcs, entities, c, i, root);
          ClimbSuffix(arcs, entities, c, j, root);
          ClimbUnique(arcs, entities, c[i..], c[j..], c[i], root);
        }
      }
    }
  }

  lemma ClimbSuffix(arcs: Arcs, entities: seq<Path>, c: seq<Path>, i: nat, root: Path)
    requires IsChain(arcs, entities, c) && c[|c| - 1] == root && i < |c|
    ensures Climbs(arcs, entities, c[i..], c[i], root)
  {
    assert forall k | 0 <= k < |c[i..]| :: c[i..][k] == c[i + k];
  }

  lemma ClimbLength(arcs: Arcs, entities: seq<Path>, c: seq<Path>, e: Path, root: Path)
    requires Climbs(arcs, entities, c, e, root) && Parents(arcs, root) == {}
    ensures |c| == 1 <==> e == root
  {
    if |c| > 1 {
      assert Parents(arcs, c[0]) == {c[1]};
    }
  }

  lemma {:induction false} ClimbUnique(arcs: Arcs, entities: seq<Path>, c: seq<Path>, d: seq<Path>, e: Path, root: Path)
    requires Climbs(arcs, entities, c, e, root) && Climbs(arcs, entities, d, e, root)
    requires Parents(arcs, root) == {}
    ensures c == d
    decreases |c|
  {
    ClimbLength(arcs, entities, c, e, root);
    ClimbLength(arcs, entities, d, e, root);
    if |c| > 1 {
      assert Parents(arcs, e) == {c[1]} == {d[1]};
      assert c[1] == d[1];
      ClimbSuffix(arcs, entities, c, 1, root);
      ClimbSuffix(arcs, entities, d, 1, root);
      ClimbUnique(arcs, entities, c[1..], d[1..], c[1], root);
      assert c == [c[0]] + c[1..] && d == [d[0]] + d[1..];
    }
  }

  // ---- Checking -------------------------------------------------------------

  /** An error says something true about the parent relation. */
  ghost predicate Justified(arcs: Arcs, entities: seq<Path>, error: RefTreeError) {
    match error
    case ConflictingParents(e, parents) =>
      e in entities && |parents| > 1 && Distinct(parents) && forall p :: p in parents <==> p in Parents(arcs, e)
    case NoRoot => forall e | e in entities :: Parents(arcs, e) != {}
    case MultipleRoots(roots) =>
      |roots| > 1 && Distinct(roots) && forall e :: e in roots <==> e in entities && Parents(arcs, e) == {}
    case Unreachable(e) =>
      && e in entities && HasOneParent(arcs, e)
      && exists root :: OnlyRoot(arcs, entities, root) && !ClimbsTo(arcs, entities, e, root)
    case _ => false
  }

  /** Two errors report the same thing. */
  predicate SameFinding(a: RefTreeError, b: RefTreeError) {
    || a == b
    || (a.ConflictingParents? && b.ConflictingParents? && a.entity == b.entity)
    || (a.MultipleRoots? && b.MultipleRoots?)
  }

  /** Nothing is reported twice. */
  ghost predicate OnceEach(errors: seq<RefTreeError>) {
    forall i, j | 0 <= i < j < |errors| :: !SameFinding(errors[i], errors[j])
  }

  lemma OnceEachJoin(a: seq<RefTreeError>, b: seq<RefTreeError>)
    requires OnceEach(a) && OnceEach(b) && forall x, y | x in a && y in b :: !SameFinding(x, y)
    ensures OnceEach(a + b)
  {
    forall i, j | 0 <= i < j < |a + b| ensures !SameFinding((a + b)[i], (a + b)[j]) {
      if i < |a| <= j {
        assert a[i] in a && b[j - |a|] in b;
      }
    }
  }

  ghost predicate HasOneParent(arcs: Arcs, e: Path) {
    exists p :: Parents(arcs, e) == {p}
  }

  /** `root` is the one entity without a parent. */
  ghost predicate OnlyRoot(arcs: Arcs, entities: seq<Path>, root: Path) {
    root in entities && forall e | e in entities :: Parents(arcs, e) == {} <==> e == root
  }

  /** The errors are true, none is repeated, and they name everything that is wrong: every entity with
      several parent types, a missing or repeated root, and, if there is one root,
      every entity with one parent type from which it is not reached. */
  ghost predicate ReportsTree(arcs: Arcs, entities: seq<Path>, errors: seq<RefTreeError>) {
    && (forall error | error in errors :: Justified(arcs, entities, error))
    && OnceEach(errors)
    && (forall e | e in entities && Conflicted(arcs, e) :: NamesConflict(errors, e))
    && ((forall e | e in entities :: Parents(arcs, e) != {}) ==> NoRoot in errors)
    && ((exists a, b :: && a in entities && b in entities && a != b
                        && Parents(arcs, a) == {} && Parents(arcs, b) == {}) ==>
          exists roots :: MultipleRoots(roots) in errors)
    && (forall e | Justified(arcs, entities, Unreachable(e)) :: Unreachable(e) in errors)
  }

  ghost predicate NamesConflict(errors: seq<RefTreeError>, e: Path) {
    exists parents :: ConflictingParents(e, parents) in errors
  }

  ghost predicate Conflicted(arcs: Arcs, e: Path) {
    Parents(arcs, e) != {} && forall p :: Parents(arcs, e) != {p}
  }

  /** The errors name every entity with several parent types once, and nothing else. */
  ghost predicate ListsConflicts(arcs: Arcs, entities: seq<Path>, errors: seq<RefTreeError>) {
    && OnceEach(errors)
    && (forall error | error in errors :: error.ConflictingParents? && Justified(arcs, entities, error))
    && (forall e | e in entities && Conflicted(arcs, e) :: NamesConflict(errors, e))
  }

  /** Sorts entities by how many parent types they have. */
  method Classify(arcs: Arcs, entities: seq<Path>)
    returns (roots: seq<Path>, nonRoots: seq<Path>, edges: seq<(Path, Path)>, errors: seq<RefTreeError>)
    requires Distinct(entities)
    ensures Distinct(roots) && forall e :: e in roots <==> e in entities && Parents(arcs, e) == {}
    ensures Distinct(nonRoots) && forall e :: e in nonRoots <==> e in entities && HasOneParent(arcs, e)
    ensures forall p, e :: (p, e) in edges <==> e in entities && Parents(arcs, e) == {p}
    ensures ListsConflicts(arcs, entities, errors)
    ensures errors == [] <==> forall e | e in entities :: !Conflicted(arcs, e)
  {
    roots, nonRoots, edges, errors := [], [], [], [];
    for i := 0 to |entities|
      invariant Distinct(roots) && forall e :: e in roots <==> e in entities[..i] && Parents(arcs, e) == {}
      invariant Distinct(nonRoots) && forall e :: e in nonRoots <==> e in entities[..i] && HasOneParent(arcs, e)
      invariant forall error | error in errors :: error.ConflictingParents? && error.entity in entities[..i]
      invariant OnceEach(errors)
      invariant forall p, e :: (p, e) in edges <==> e in entities[..i] && Parents(arcs, e) == {p}
      invariant forall error | error in errors :: error.ConflictingParents? && Justified(arcs, entities, error)
      invariant forall e | e in entities[..i] && Conflicted(arcs, e) :: NamesConflict(errors, e)
    {
      var entity := entities[i];
      var parents := EntityUniqueParents(arcs, entity);
      assert entities[..i + 1] == entities[..i] + [entity];
      ParentCount(arcs, entity, parents);
      if |parents| == 0 {
        roots := roots + [entity];
      } else if |parents| == 1 {
        nonRoots := nonRoots + [entity];
        edges := edges + [(parents[0], entity)];
      } else {
        ghost var before := errors;
        OnceEachJoin(errors, [ConflictingParents(entity, parents)]);
        errors := errors + [ConflictingParents(entity, parents)];
        assert ConflictingParents(entity, parents) in errors;
        ConflictsStayNamed(before, errors);
      }
    }
    assert entities[..|entities|] == entities;
    ConflictsExact(arcs, entities, errors);
  }

  lemma ConflictsExact(arcs: Arcs, entities: seq<Path>, errors: seq<RefTreeError>)
    requires forall error | error in errors :: error.ConflictingParents? && Justified(arcs, entities, error)
    requires forall e | e in entities && Conflicted(arcs, e) :: NamesConflict(errors, e)
    ensures errors == [] <==> forall e | e in entities :: !Conflicted(arcs, e)
  {
    if errors != [] {
      ParentCount(arcs, errors[0].entity, errors[0].parents);
    }
  }

  lemma ConflictsStayNamed(some: seq<RefTreeError>, more: seq<RefTreeError>)
    requires some <= more
    ensures forall e | NamesConflict(some, e) :: NamesConflict(more, e)
  {
    forall e | NamesConflict(some, e) ensures NamesConflict(more, e) {
      var parents :| ConflictingParents(e, parents) in some;
      assert ConflictingParents(e, parents) in more;
    }
  }

  lemma ParentCount(arcs: Arcs, e: Path, parents: seq<Path>)
    requires Distinct(parents) && forall p :: p in parents <==> p in Parents(arcs, e)
    ensures |parents| == 0 <==> Parents(arcs, e) == {}
    ensures |parents| == 1 ==> Parents(arcs, e) == {parents[0]}
    ensures |parents| > 1 <==> Conflicted(arcs, e)
  {
    if |parents| > 0 {
      assert parents[0] in Parents(arcs, e);
    }
    if |parents| > 1 {
      assert parents[1] in Parents(arcs, e) && parents[0] != parents[1];
    }
    if |parents| == 1 {
      forall p | p in Parents(arcs, e) ensures p == parents[0] {}
    }
  }

  /** Climbing to the root is going down from it the other way round. */
  lemma ClimbIffReached(arcs: Arcs, entities: seq<Path>, edges: seq<(Path, Path)>, e: Path, root: Path)
    requires root in entities && e in entities
    requires forall p, x :: (p, x) in edges <==> x in entities && Parents(arcs, x) == {p}
    ensures ClimbsTo(arcs, entities, e, root) <==> Reaches(edges, root, e)
  {
    ReversedReaches(edges, root, e);
    if c :| Climbs(arcs, entities, c, e, root) {
      assert Joins(Reversed(edges), c, e, root);
    }
    if c :| Joins(Reversed(edges), c, e, root) {
      forall x | x in c ensures x in entities {
        var i :| 0 <= i < |c| && c[i] == x;
        if i < |c| - 1 { assert (c[i], c[i + 1]) in Reversed(edges); }
      }
      forall i, j | 0 <= i < j < |c| && j == i + 1 ensures Parents(arcs, c[i]) == {c[j]} {
        assert (c[i], c[j]) in Reversed(edges);
      }
      assert Climbs(arcs, entities, c, e, root);
    }
  }

  /** Adds no error exactly when the parent relation is a rooted tree, and otherwise
      names everything that is wrong with it. */
  method CheckTree(arcs: Arcs, entities: seq<Path>, errors: seq<RefTreeError>) returns (result: seq<RefTreeError>)
    requires Distinct(entities)
    ensures errors <= result
    ensures result == errors <==> IsRootedTree(arcs, entities)
    ensures ReportsTree(arcs, entities, result[|errors|..])
  {
    var roots, nonRoots, edges, conflicts := Classify(arcs, entities);
    if |roots| == 0 {
      result := errors + (conflicts + [NoRoot]);
      ReportsNoRoot(arcs, entities, conflicts);
      assert result[|errors|..] == conflicts + [NoRoot];
      return;
    }
    if |roots| > 1 {
      result := errors + (conflicts + [MultipleRoots(roots)]);
      ReportsRoots(arcs, entities, conflicts, roots);
      assert result[|errors|..] == conflicts + [MultipleRoots(roots)];
      return;
    }
    var unreachable := CheckReached(arcs, entities, roots[0], nonRoots, edges, conflicts);
    result := errors + (conflicts + unreachable);
    assert result[|errors|..] == conflicts + unreachable;
  }

  /** With a single root: every other entity must be reached from it. */
  method CheckReached(arcs: Arcs, entities: seq<Path>, root: Path, nonRoots: seq<Path>, edges: seq<(Path, Path)>,
                      conflicts: seq<RefTreeError>) returns (unreachable: seq<RefTreeError>)
    requires OnlyRoot(arcs, entities, root)
    requires forall p, e :: (p, e) in edges <==> e in entities && Parents(arcs, e) == {p}
    requires Distinct(nonRoots) && forall e :: e in nonRoots <==> e in entities && HasOneParent(arcs, e)
    requires ListsConflicts(arcs, entities, conflicts)
    requires conflicts == [] <==> forall e | e in entities :: !Conflicted(arcs, e)
    ensures ReportsTree(arcs, entities, conflicts + unreachable)
    ensures conflicts + unreachable == [] <==> IsRootedTree(arcs, entities)
  {
    var reachable := Bfs(edges, root);
    unreachable := FindUnreached(nonRoots, reachable);
    OneRoot(arcs, entities, edges, root, nonRoots);
    OnceEachJoin(conflicts, unreachable);
    ConflictsStayNamed(conflicts, conflicts + unreachable);
    ReportsWithRoot(arcs, entities, root, nonRoots, conflicts, unreachable);
  }

  lemma NotBefore<T>(s: seq<T>, i: nat)
    requires Distinct(s) && i < |s|
    ensures s[i] !in s[..i]
  {}

  method FindUnreached(nonRoots: seq<Path>, reachable: set<Path>) returns (errors: seq<RefTreeError>)
    ensures forall error | error in errors :: error.Unreachable?
    ensures Distinct(nonRoots) ==> OnceEach(errors)
    ensures forall e :: Unreachable(e) in errors <==> e in nonRoots && e !in reachable
    ensures errors == [] <==> forall e | e in nonRoots :: e in reachable
  {
    errors := [];
    for i := 0 to |nonRoots|
      invariant forall error | error in errors :: error.Unreachable?
      invariant Distinct(nonRoots) ==> OnceEach(errors)
      invariant forall e :: Unreachable(e) in errors <==> e in nonRoots[..i] && e !in reachable
      invariant errors == [] <==> forall e | e in nonRoots[..i] :: e in reachable
    {
      assert nonRoots[..i + 1] == nonRoots[..i] + [nonRoots[i]];
      if nonRoots[i] !in reachable {
        if Distinct(nonRoots) {
          NotBefore(nonRoots, i);
          OnceEachJoin(errors, [Unreachable(nonRoots[i])]);
        }
        errors := errors + [Unreachable(nonRoots[i])];
      }
    }
    assert nonRoots[..|nonRoots|] == nonRoots;
  }

  lemma ReportsNoRoot(arcs: Arcs, entities: seq<Path>, conflicts: seq<RefTreeError>)
    requires ListsConflicts(arcs, entities, conflicts) && forall e | e in entities :: Parents(arcs, e) != {}
    ensures ReportsTree(arcs, entities, conflicts + [NoRoot]) && !IsRootedTree(arcs, entities)
  {
    OnceEachJoin(conflicts, [NoRoot]);
    ConflictsStayNamed(conflicts, conflicts + [NoRoot]);
    NoRootMeansNoTree(arcs, entities);
  }

  lemma ReportsRoots(arcs: Arcs, entities: seq<Path>, conflicts: seq<RefTreeError>, roots: seq<Path>)
    requires ListsConflicts(arcs, entities, conflicts)
    requires Distinct(roots) && |roots| > 1 && forall e :: e in roots <==> e in entities && Parents(arcs, e) == {}
    ensures ReportsTree(arcs, entities, conflicts + [MultipleRoots(roots)]) && !IsRootedTree(arcs, entities)
  {
    OnceEachJoin(conflicts, [MultipleRoots(roots)]);
    ConflictsStayNamed(conflicts, conflicts + [MultipleRoots(roots)]);
    assert MultipleRoots(roots) in conflicts + [MultipleRoots(roots)];
    assert roots[0] in roots && roots[1] in roots;
    TwoRoots(arcs, entities, roots[0], roots[1]);
  }

  lemma NoRootMeansNoTree(arcs: Arcs, entities: seq<Path>)
    requires forall e | e in entities :: Parents(arcs, e) != {}
    ensures !IsRootedTree(arcs, entities) && forall e :: !Justified(arcs, entities, Unreachable(e))
  {}

  lemma ReportsWithRoot(arcs: Arcs, entities: seq<Path>, root: Path, nonRoots: seq<Path>,
                        conflicts: seq<RefTreeError>, unreachable: seq<RefTreeError>)
    requires OnlyRoot(arcs, entities, root)
    requires forall e :: e in nonRoots <==> e in entities && HasOneParent(arcs, e)
    requires forall error | error in conflicts :: error.ConflictingParents? && Justified(arcs, entities, error)
    requires forall e | e in entities && Conflicted(arcs, e) :: NamesConflict(conflicts + unreachable, e)
    requires forall error | error in unreachable :: error.Unreachable?
    requires OnceEach(conflicts + unreachable)
    requires forall e :: Unreachable(e) in unreachable <==> e in nonRoots && !ClimbsTo(arcs, entities, e, root)
    ensures ReportsTree(arcs, entities, conflicts + unreachable)
  {
    forall e | Justified(arcs, entities, Unreachable(e)) ensures Unreachable(e) in unreachable {
      var r :| OnlyRoot(arcs, entities, r) && !ClimbsTo(arcs, entities, e, r);
      assert r == root;
    }
  }

  lemma TwoRoots(arcs: Arcs, entities: seq<Path>, a: Path, b: Path)
    requires a != b && a in entities && b in entities && Parents(arcs, a) == {} && Parents(arcs, b) == {}
    ensures !IsRootedTree(arcs, entities)
  {
    if root :| RootedAt(arcs, entities, root) {
      RootedTreeShape(arcs, entities, root);
    }
  }

  /** With a single parentless entity, the tree is judged by what it reaches. */
  lemma OneRoot(arcs: Arcs, entities: seq<Path>, edges: seq<(Path, Path)>, root: Path, nonRoots: seq<Path>)
    requires forall e | e in entities :: Parents(arcs, e) == {} <==> e == root
    requires root in entities
    requires forall p, e :: (p, e) in edges <==> e in entities && Parents(arcs, e) == {p}
    requires forall e :: e in nonRoots <==> e in entities && HasOneParent(arcs, e)
    ensures IsRootedTree(arcs, entities) <==>
            (forall e | e in entities :: !Conflicted(arcs, e)) && forall e | e in nonRoots :: Reaches(edges, root, e)
    ensures forall e | e in entities :: ClimbsTo(arcs, entities, e, root) <==> Reaches(edges, root, e)
  {
    forall e | e in entities ensures ClimbsTo(arcs, entities, e, root) <==> Reaches(edges, root, e) {
      ClimbIffReached(arcs, entities, edges, e, root);
    }
    ReachesSelf(edges, root);
    if r :| RootedAt(arcs, entities, r) {
      assert r == root;
      RootedTreeShape(arcs, entities, root);
    }
    if (forall e | e in entities :: !Conflicted(arcs, e)) && forall e | e in nonRoots :: Reaches(edges, root, e) {
      forall e | e in entities ensures Reaches(edges, root, e) {
        if e != root { assert !Conflicted(arcs, e); }
      }
      assert RootedAt(arcs, entities, root);
    }
  }

  /** Reports every event node that carries more than one reference, each once. */
  method CheckEvents(nodes: seq<Node>, arcs: Arcs, errors: seq<RefTreeError>) returns (result: seq<RefTreeError>)
    ensures errors <= result
    ensures forall error :: error in result[|errors|..] <==>
              && error.MultiplePerEvent? && EventNode(error.entity, error.event) in nodes
              && RefCount(arcs, EventNode(error.entity, error.event)) > 1
    ensures Distinct(nodes) ==> OnceEach(result[|errors|..])
  {
    var added: seq<RefTreeError> := [];
    for i := 0 to |nodes|
      invariant forall error :: error in added <==>
                  && error.MultiplePerEvent? && EventNode(error.entity, error.event) in nodes[..i]
                  && RefCount(arcs, EventNode(error.entity, error.event)) > 1
      invariant Distinct(nodes) ==> OnceEach(added)
    {
      assert nodes[..i + 1] == nodes[..i] + [nodes[i]];
      if nodes[i].EventNode? {
        var count := EventRefCount(arcs, nodes[i]);
        if count > 1 {
          if Distinct(nodes) {
            NotBefore(nodes, i);
            OnceEachJoin(added, [MultiplePerEvent(nodes[i].entity, nodes[i].event)]);
          }
          added := added + [MultiplePerEvent(nodes[i].entity, nodes[i].event)];
        }
      }
    }
    assert nodes[..|nodes|] == nodes;
    result := errors + added;
    assert result[|errors|..] == added;
  }
}
