/** The graph of entities, events and records that tree-forming references span,
    and the searches that decide whether it is a tree. */
module RefTrees {
  import opened SchemaModel
  import opened Graphs

  datatype Node = EntityNode(path: Path) | EventNode(entity: Path, event: Identifier) | RecordNode(path: Path)

  type Arcs = seq<(Node, Node)>

  datatype RefTreeError =
    | NotTargetConstrained(location: seq<Element>)
    | UnknownTarget(location: seq<Element>, target: Path)
    | MultipleRefsInRecord(location: seq<Element>)
    | MultiplePerEvent(entity: Path, event: Identifier)
    | NoRoot
    | MultipleRoots(roots: seq<Path>)
    | ConflictingParents(entity: Path, parents: seq<Path>)
    | Unreachable(entity: Path)
    | Multiple(errors: seq<RefTreeError>)

  /** The heads of the arcs that leave `n`, newest arc first, one per arc. */
  function Neighbors(arcs: Arcs, n: Node): (r: seq<Node>)
    ensures forall m :: m in r <==> (n, m) in arcs
  {
    if arcs == [] then []
    else
      var last, rest := arcs[|arcs| - 1], Neighbors(arcs[..|arcs| - 1], n);
      assert arcs == arcs[..|arcs| - 1] + [last];
      if last.0 == n then [last.1] + rest else rest
  }

  // ---- References of one event ----------------------------------------------

  /** How many arcs lead from `n` straight to an entity. */
  function DirectRefs(arcs: Arcs, n: Node): nat {
    if arcs == [] then 0
    else DirectRefs(arcs[1..], n) + if arcs[0].0 == n && arcs[0].1.EntityNode? then 1 else 0
  }

  function CountEntities(nodes: seq<Node>): nat {
    if nodes == [] then 0 else CountEntities(nodes[1..]) + if nodes[0].EntityNode? then 1 else 0
  }

  lemma {:induction false} DirectRefsSnoc(arcs: Arcs, arc: (Node, Node), n: Node)
    ensures DirectRefs(arcs + [arc], n) == DirectRefs(arcs, n) + DirectRefs([arc], n)
  {
    if arcs != [] {
      assert (arcs + [arc])[1..] == arcs[1..] + [arc];
      DirectRefsSnoc(arcs[1..], arc, n);
    } else {
      assert arcs + [arc] == [arc];
    }
  }

  lemma {:induction false} DirectRefsAreNeighbors(arcs: Arcs, n: Node)
    ensures CountEntities(Neighbors(arcs, n)) == DirectRefs(arcs, n)
  {
    if arcs != [] {
      var last, rest := arcs[|arcs| - 1], arcs[..|arcs| - 1];
      DirectRefsAreNeighbors(rest, n);
      DirectRefsSnoc(rest, last, n);
      assert arcs == rest + [last];
      if last.0 == n {
        assert ([last.1] + Neighbors(rest, n))[1..] == Neighbors(rest, n);
      }
    }
  }

  /** The arcs that lead into a record. */
  function IntoRecords(arcs: Arcs): (r: Arcs)
    ensures forall x, y :: (x, y) in r <==> (x, y) in arcs && y.RecordNode?
  {
    if arcs == [] then []
    else (if arcs[0].1.RecordNode? then [arcs[0]] else []) + IntoRecords(arcs[1..])
  }

  /** The distinct records an event uses, directly or nested in other records. */
  ghost function UsedRecords(arcs: Arcs, event: Node): set<Node> {
    set n | n in Heads(arcs) && n.RecordNode? && Reaches(IntoRecords(arcs), event, n)
  }

  ghost function TotalRefs(arcs: Arcs, nodes: set<Node>): nat {
    if nodes == {} then 0
    else var n :| n in nodes; DirectRefs(arcs, n) + TotalRefs(arcs, nodes - {n})
  }

  lemma {:induction false} TotalRefsAdd(arcs: Arcs, nodes: set<Node>, n: Node)
    requires n !in nodes
    ensures TotalRefs(arcs, nodes + {n}) == TotalRefs(arcs, nodes) + DirectRefs(arcs, n)
  {
    var all := nodes + {n};
    var m :| m in all && TotalRefs(arcs, all) == DirectRefs(arcs, m) + TotalRefs(arcs, all - {m});
    if m == n {
      assert all - {m} == nodes;
    } else {
      assert all - {m} == (nodes - {m}) + {n};
      TotalRefsAdd(arcs, nodes - {m}, n);
      TotalRefsAdd(arcs, nodes - {m}, m);
      assert (nodes - {m}) + {m} == nodes;
    }
  }

  /** The tree-forming references an event carries: its own, and those of every
      distinct record it uses. */
  ghost function RefCount(arcs: Arcs, event: Node): nat {
    DirectRefs(arcs, event) + TotalRefs(arcs, UsedRecords(arcs, event))
  }

  /** The records at the end of an arc that leaves `n`. */
  function NearRecords(arcs: Arcs, n: Node): set<Node> {
    set m | m in Neighbors(arcs, n) && m.RecordNode?
  }

  /** One neighbourhood of the search: references are counted, records stacked. */
  method ScanNeighbors(arcs: Arcs, n: Node, stack: seq<Node>) returns (count: nat, records: seq<Node>)
    ensures count == DirectRefs(arcs, n)
    ensures Elements(records) == Elements(stack) + NearRecords(arcs, n)
  {
    count, records := 0, stack;
    var neighbors := Neighbors(arcs, n);
    for i := 0 to |neighbors|
      invariant count + CountEntities(neighbors[i..]) == CountEntities(neighbors)
      invariant Elements(records) == Elements(stack) + set m | m in neighbors[..i] && m.RecordNode?
    {
      assert neighbors[i..][1..] == neighbors[i + 1..];
      assert neighbors[..i + 1] == neighbors[..i] + [neighbors[i]];
      match neighbors[i] {
        case EntityNode(_) => count := count + 1;
        case RecordNode(_) =>
          ElementsConcat(records, [neighbors[i]]);
          records := records + [neighbors[i]];
        case EventNode(_, _) =>
      }
    }
    assert neighbors[..|neighbors|] == neighbors;
    DirectRefsAreNeighbors(arcs, n);
  }

  /** Counts the references an event carries; a record that is met again is
      skipped, so the search ends on cyclic records too. */
  method EventRefCount(arcs: Arcs, event: Node) returns (count: nat)
    requires event.EventNode?
    ensures count == RefCount(arcs, event)
  {
    ghost var into, used := IntoRecords(arcs), UsedRecords(arcs, event);
    var records: seq<Node>;
    count, records := ScanNeighbors(arcs, event, []);
    var seen: set<Node> := {};
    ReachesSelf(into, event);
    RecordsStep(arcs, event, event);
    while records != []
      invariant seen + Elements(records) <= used
      invariant count == DirectRefs(arcs, event) + TotalRefs(arcs, seen)
      invariant Expanded(into, {event} + seen, {event} + seen + Elements(records))
      decreases used - seen, |records|
    {
      var record := records[|records| - 1];
      ElementsPop(records);
      ghost var known := {event} + seen + Elements(records);
      records := records[..|records| - 1];
      if record !in seen {
        var more;
        more, records := ScanNeighbors(arcs, record, records);
        count := count + more;
        TotalRefsAdd(arcs, seen, record);
        RecordsStep(arcs, event, record);
        ExpandOne(into, {event} + seen, known, record, NearRecords(arcs, record));
        seen := seen + {record};
        assert {event} + (seen - {record}) + {record} == {event} + seen;
        assert known + NearRecords(arcs, record) == {event} + seen + Elements(records);
      } else {
        assert known == {event} + seen + Elements(records);
      }
    }
    forall n | n in used ensures n in seen {
      assert {event} + seen + Elements(records) == {event} + seen;
      ExpandedHoldsReachable(into, {event} + seen, event, n);
    }
    assert seen == used;
  }

  lemma RecordsStep(arcs: Arcs, event: Node, x: Node)
    requires event.EventNode? && Reaches(IntoRecords(arcs), event, x)
    ensures NearRecords(arcs, x) <= UsedRecords(arcs, event)
    ensures forall y | (x, y) in IntoRecords(arcs) :: y in NearRecords(arcs, x)
  {
    forall y | y in NearRecords(arcs, x) ensures y in UsedRecords(arcs, event) {
      RecordStep(arcs, event, x, y);
    }
  }

  lemma RecordStep(arcs: Arcs, event: Node, x: Node, y: Node)
    requires event.EventNode? && Reaches(IntoRecords(arcs), event, x) && (x, y) in arcs && y.RecordNode?
    ensures y in UsedRecords(arcs, event)
  {
    var i :| 0 <= i < |arcs| && arcs[i] == (x, y);
    assert arcs[i].1 in Heads(arcs);
    ReachesArc(IntoRecords(arcs), x, y);
    ReachesTransitive(IntoRecords(arcs), event, x, y);
  }

  // ---- Parents of one entity ------------------------------------------------

  /** The arcs that do not lead into an entity. */
  function Inner(arcs: Arcs): (r: Arcs)
    ensures forall x, y :: (x, y) in r <==> (x, y) in arcs && !y.EntityNode?
  {
    if arcs == [] then []
    else (if !arcs[0].1.EntityNode? then [arcs[0]] else []) + Inner(arcs[1..])
  }

  /** Some path leads from `entity` to `n`, with only events and records between. */
  ghost predicate LeadsTo(arcs: Arcs, entity: Path, n: Node) {
    exists m :: Reaches(Inner(arcs), EntityNode(entity), m) && (m, n) in arcs
  }

  /** The entity types that the references of `entity` point at. */
  ghost function Parents(arcs: Arcs, entity: Path): set<Path> {
    set n | n in Heads(arcs) && n.EntityNode? && LeadsTo(arcs, entity, n) :: n.path
  }

  lemma LeadsToStep(arcs: Arcs, entity: Path, x: Node, y: Node)
    requires LeadsTo(arcs, entity, x) && !x.EntityNode? && (x, y) in arcs
    ensures LeadsTo(arcs, entity, y)
  {
    var m :| Reaches(Inner(arcs), EntityNode(entity), m) && (m, x) in arcs;
    ReachesArc(Inner(arcs), m, x);
    ReachesTransitive(Inner(arcs), EntityNode(entity), m, x);
  }

  lemma ParentIffLeadsTo(arcs: Arcs, entity: Path, parent: Path)
    ensures parent in Parents(arcs, entity) <==> LeadsTo(arcs, entity, EntityNode(parent))
  {
    if LeadsTo(arcs, entity, EntityNode(parent)) {
      var m :| Reaches(Inner(arcs), EntityNode(entity), m) && (m, EntityNode(parent)) in arcs;
      var i :| 0 <= i < |arcs| && arcs[i] == (m, EntityNode(parent));
      assert arcs[i].1 in Heads(arcs);
    }
  }

  ghost predicate Distinct<T>(s: seq<T>) {
    forall i, j | 0 <= i < j < |s| :: s[i] != s[j]
  }

  /** A search for parents under way: what was seen or waits on the stack is led to,
      and what was expanded leads to nothing else. */
  ghost predicate Searching(arcs: Arcs, entity: Path, expanded: set<Node>, seen: set<Node>, stack: seq<Node>) {
    && seen <= Heads(arcs)
    && (forall n | n in Elements(stack) + seen :: LeadsTo(arcs, entity, n))
    && expanded == {EntityNode(entity)} + (set n | n in seen && !n.EntityNode?)
    && Expanded(arcs, expanded, seen + Elements(stack))
  }

  lemma SearchStarts(arcs: Arcs, entity: Path)
    ensures Searching(arcs, entity, {EntityNode(entity)}, {}, Neighbors(arcs, EntityNode(entity)))
  {
    ReachesSelf(Inner(arcs), EntityNode(entity));
  }

  lemma SearchSkips(arcs: Arcs, entity: Path, expanded: set<Node>, seen: set<Node>, stack: seq<Node>)
    requires stack != [] && Searching(arcs, entity, expanded, seen, stack) && stack[|stack| - 1] in seen
    ensures Searching(arcs, entity, expanded, seen, stack[..|stack| - 1])
  {
    ElementsPop(stack);
    assert seen + Elements(stack) == seen + Elements(stack[..|stack| - 1]);
  }

  lemma SearchFindsEntity(arcs: Arcs, entity: Path, expanded: set<Node>, seen: set<Node>, stack: seq<Node>)
    requires stack != [] && Searching(arcs, entity, expanded, seen, stack) && stack[|stack| - 1].EntityNode?
    ensures Searching(arcs, entity, expanded, seen + {stack[|stack| - 1]}, stack[..|stack| - 1])
  {
    var node := stack[|stack| - 1];
    ElementsPop(stack);
    LeadsToHead(arcs, entity, node);
    assert seen + Elements(stack) == seen + {node} + Elements(stack[..|stack| - 1]);
  }

  lemma SearchExpands(arcs: Arcs, entity: Path, expanded: set<Node>, seen: set<Node>, stack: seq<Node>)
    requires stack != [] && Searching(arcs, entity, expanded, seen, stack) && !stack[|stack| - 1].EntityNode?
    ensures var node := stack[|stack| - 1];
            Searching(arcs, entity, expanded + {node}, seen + {node}, stack[..|stack| - 1] + Neighbors(arcs, node))
  {
    var node := stack[|stack| - 1];
    var rest, near := Elements(stack[..|stack| - 1]), Elements(Neighbors(arcs, node));
    ElementsPop(stack);
    LeadsToHead(arcs, entity, node);
    ExpandParents(arcs, entity, expanded, seen + Elements(stack), node);
    ElementsConcat(stack[..|stack| - 1], Neighbors(arcs, node));
    MovedToSeen(seen, rest, node, near);
    InnerSeen(seen, node);
  }

  lemma InnerSeen(seen: set<Node>, node: Node)
    requires !node.EntityNode?
    ensures (set n | n in seen + {node} && !n.EntityNode?) == (set n | n in seen && !n.EntityNode?) + {node}
  {}

  lemma MovedToSeen<T>(seen: set<T>, rest: set<T>, node: T, more: set<T>)
    ensures seen + (rest + {node}) + more == (seen + {node}) + (rest + more)
  {}

  /** Lists the parent types of `entity` once each, with a last-in first-out
      worklist that expands events and records only. */
  method EntityUniqueParents(arcs: Arcs, entity: Path) returns (parents: seq<Path>)
    ensures Distinct(parents)
    ensures forall p :: p in parents <==> p in Parents(arcs, entity)
  {
    parents := [];
    var seen: set<Node> := {};
    var stack := Neighbors(arcs, EntityNode(entity));
    ghost var expanded := {EntityNode(entity)};
    SearchStarts(arcs, entity);
    while stack != []
      invariant Searching(arcs, entity, expanded, seen, stack)
      invariant Distinct(parents) && forall p :: p in parents <==> EntityNode(p) in seen
      decreases Heads(arcs) - seen, |stack|
    {
      var node, rest := stack[|stack| - 1], stack[..|stack| - 1];
      if node in seen {
        SearchSkips(arcs, entity, expanded, seen, stack);
        stack := rest;
      } else if node.EntityNode? {
        SearchFindsEntity(arcs, entity, expanded, seen, stack);
        seen, stack, parents := seen + {node}, rest, parents + [node.path];
      } else {
        SearchExpands(arcs, entity, expanded, seen, stack);
        seen, stack, expanded := seen + {node}, rest + Neighbors(arcs, node), expanded + {node};
      }
    }
    assert seen + Elements(stack) == seen;
    forall p ensures p in parents <==> p in Parents(arcs, entity) {
      ParentsAllSeen(arcs, entity, expanded, seen, p);
    }
  }

  lemma ExpandParents(arcs: Arcs, entity: Path, expanded: set<Node>, known: set<Node>, node: Node)
    requires LeadsTo(arcs, entity, node) && !node.EntityNode? && Expanded(arcs, expanded, known)
    ensures forall n | n in Elements(Neighbors(arcs, node)) :: LeadsTo(arcs, entity, n)
    ensures Expanded(arcs, expanded + {node}, known + Elements(Neighbors(arcs, node)))
  {
    forall n | n in Elements(Neighbors(arcs, node)) ensures LeadsTo(arcs, entity, n) {
      LeadsToStep(arcs, entity, node, n);
    }
    ExpandOne(arcs, expanded, known, node, Elements(Neighbors(arcs, node)));
  }

  lemma ParentsAllSeen(arcs: Arcs, entity: Path, expanded: set<Node>, seen: set<Node>, p: Path)
    requires expanded == {EntityNode(entity)} + set n | n in seen && !n.EntityNode?
    requires Expanded(arcs, expanded, seen)
    requires forall n | n in seen :: LeadsTo(arcs, entity, n)
    ensures EntityNode(p) in seen <==> p in Parents(arcs, entity)
  {
    ParentIffLeadsTo(arcs, entity, p);
    if m :| Reaches(Inner(arcs), EntityNode(entity), m) && (m, EntityNode(p)) in arcs {
      assert Expanded(Inner(arcs), expanded, expanded);
      ExpandedHoldsReachable(Inner(arcs), expanded, EntityNode(entity), m);
    }
  }

  lemma LeadsToHead(arcs: Arcs, entity: Path, n: Node)
    requires LeadsTo(arcs, entity, n)
    ensures n in Heads(arcs)
  {
    var m :| Reaches(Inner(arcs), EntityNode(entity), m) && (m, n) in arcs;
    var i :| 0 <= i < |arcs| && arcs[i] == (m, n);
    assert arcs[i].1 in Heads(arcs);
  }
}
