/** The tree-reference constraint as a visitor of a whole schema. */
module RefTreeValidation {
  import opened Wrappers
  import opened SchemaModel
  import opened RefTrees
  import opened RefTreeChecks

  // ---- Reading a cursor -----------------------------------------------------

  /** The event that encloses the cursor, if one does. */
  function EventAt(c: seq<Element>): Option<Node> {
    if |c| >= 3 && c[1].EntityEl? && c[2].EventEl? then Some(EventNode(c[1].entity.path, c[2].event.name)) else None
  }

  /** The record declaration that encloses the cursor, if one does. */
  function RecordAt(c: seq<Element>): Option<Path> {
    if |c| >= 2 && c[1].RecordEl? then Some(c[1].record.path) else None
  }

  /** The cursor is at a tree-forming entity reference. */
  predicate IsTreeRef(c: seq<Element>) {
    c != [] && Current(c).DataTypeEl? && Current(c).ty.EntityRef? && Current(c).ty.annotations.refTree
  }

  /** The entity type the reference is restricted to. */
  function TargetOf(c: seq<Element>): Option<Path>
    requires IsTreeRef(c)
  {
    var target := Current(c).ty.annotations.refTarget;
    if target.Payload? then Some(target.value) else None
  }

  /** The reference is restricted to an entity the schema declares. */
  predicate IsTargeted(c: seq<Element>)
    requires IsTreeRef(c)
  {
    && TargetOf(c).Some? && c[0].SchemaEl? && HasEntity(c[0].schema, TargetOf(c).value)
  }

  /** The arc, if any, a visit adds to the graph. */
  function ArcsAt(c: seq<Element>): Arcs {
    if c == [] then []
    else if Current(c).EventEl? && |c| >= 2 && c[1].EntityEl? then
      [(EntityNode(c[1].entity.path), EventNode(c[1].entity.path, Current(c).event.name))]
    else if IsTreeRef(c) then
      if !IsTargeted(c) then []
      else if EventAt(c).Some? then [(EventAt(c).value, EntityNode(TargetOf(c).value))]
      else if RecordAt(c).Some? then [(RecordNode(RecordAt(c).value), EntityNode(TargetOf(c).value))]
      else []
    else if Current(c).DataTypeEl? && Current(c).ty.RecordType? then
      if EventAt(c).Some? then [(EventAt(c).value, RecordNode(Current(c).ty.path))]
      else if RecordAt(c).Some? then [(RecordNode(RecordAt(c).value), RecordNode(Current(c).ty.path))]
      else []
    else []
  }

  function ArcsOf(cursors: seq<seq<Element>>): Arcs {
    if cursors == [] then [] else ArcsOf(cursors[..|cursors| - 1]) + ArcsAt(cursors[|cursors| - 1])
  }

  // ---- The visitor ----------------------------------------------------------

  datatype View = View(
    nodes: seq<Node>, arcs: Arcs, entities: seq<Path>, recordsSeen: set<Path>, used: bool, errors: seq<RefTreeError>)

  const START := View([], [], [], {}, false, [])

  function WithNode(nodes: seq<Node>, n: Node): seq<Node> {
    if n in nodes then nodes else nodes + [n]
  }

  function WithEntities(nodes: seq<Node>, entities: seq<Entity>): seq<Node> {
    if entities == [] then nodes
    else WithNode(WithEntities(nodes, entities[..|entities| - 1]), EntityNode(entities[|entities| - 1].path))
  }

  function EntityPaths(entities: seq<Entity>): seq<Path> {
    seq(|entities|, i requires 0 <= i < |entities| => entities[i].path)
  }

  lemma EntitiesSnoc(nodes: seq<Node>, entities: seq<Entity>, i: nat)
    requires i < |entities|
    ensures EntityPaths(entities[..i + 1]) == EntityPaths(entities[..i]) + [entities[i].path]
    ensures WithEntities(nodes, entities[..i + 1]) ==
            WithNode(WithEntities(nodes, entities[..i]), EntityNode(entities[i].path))
  {
    assert entities[..i + 1][..i] == entities[..i];
  }

  /** Adding the nodes of an arc, then the arc. */
  function WithArc(v: View, from: Node, to: Node): View {
    v.(nodes := WithNode(WithNode(v.nodes, from), to), arcs := v.arcs + [(from, to)])
  }

  /** What one visit makes of the state. */
  function Next(v: View, c: seq<Element>): View {
    if c == [] then v
    else match Current(c)
      case SchemaEl(schema) =>
        v.(nodes := WithEntities(v.nodes, schema.entities), entities := v.entities + EntityPaths(schema.entities))
      case EventEl(event) =>
        if |c| >= 2 && c[1].EntityEl? then
          WithArc(v, EntityNode(c[1].entity.path), EventNode(c[1].entity.path, event.name))
        else v
      case DataTypeEl(ty) =>
        if IsTreeRef(c) then NextTreeRef(v, c)
        else if ty.RecordType? then
          if EventAt(c).Some? then WithArc(v, EventAt(c).value, RecordNode(ty.path))
          else if RecordAt(c).Some? then WithArc(v, RecordNode(RecordAt(c).value), RecordNode(ty.path))
          else v
        else v
      case _ => v
  }

  function NextTreeRef(v: View, c: seq<Element>): View
    requires IsTreeRef(c)
  {
    if TargetOf(c).None? then v.(errors := v.errors + [NotTargetConstrained(c)])
    else if !IsTargeted(c) then v.(errors := v.errors + [UnknownTarget(c, TargetOf(c).value)])
    else NextTargeted(v, c, EntityNode(TargetOf(c).value))
  }

  function NextTargeted(v: View, c: seq<Element>, target: Node): View {
    var w := v.(nodes := WithNode(v.nodes, target));
    if EventAt(c).Some? then WithArc(w, EventAt(c).value, target).(used := true)
    else if RecordAt(c).Some? then NextRecordRef(w, c, RecordAt(c).value, target)
    else w
  }

  function NextRecordRef(v: View, c: seq<Element>, record: Path, target: Node): View {
    if record !in v.recordsSeen then
      WithArc(v, RecordNode(record), target).(used := true, recordsSeen := v.recordsSeen + {record})
    else v.(errors := v.errors + [MultipleRefsInRecord(c)])
  }

  /** The index maps every node of the graph to its position, and edges join nodes
      of the graph. */
  ghost predicate Consistent(nodes: seq<Node>, edges: seq<(nat, nat)>, index: map<Node, nat>) {
    && (forall i | 0 <= i < |nodes| :: nodes[i] in index && index[nodes[i]] == i)
    && (forall n | n in index :: index[n] < |nodes| && nodes[index[n]] == n)
    && (forall k | 0 <= k < |edges| :: edges[k].0 < |nodes| && edges[k].1 < |nodes|)
  }

  /** The arcs between nodes that the edges between positions stand for. */
  function ArcsBetween(nodes: seq<Node>, edges: seq<(nat, nat)>): (r: Arcs)
    requires forall k | 0 <= k < |edges| :: edges[k].0 < |nodes| && edges[k].1 < |nodes|
    ensures |r| == |edges| && forall k | 0 <= k < |r| :: r[k] == (nodes[edges[k].0], nodes[edges[k].1])
  {
    seq(|edges|, k requires 0 <= k < |edges| => (nodes[edges[k].0], nodes[edges[k].1]))
  }

  lemma ArcsKept(nodes: seq<Node>, more: seq<Node>, edges: seq<(nat, nat)>)
    requires nodes <= more && forall k | 0 <= k < |edges| :: edges[k].0 < |nodes| && edges[k].1 < |nodes|
    ensures ArcsBetween(more, edges) == ArcsBetween(nodes, edges)
  {}

  lemma ArcAdded(nodes: seq<Node>, edges: seq<(nat, nat)>, a: nat, b: nat)
    requires forall k | 0 <= k < |edges| :: edges[k].0 < |nodes| && edges[k].1 < |nodes|
    requires a < |nodes| && b < |nodes|
    ensures ArcsBetween(nodes, edges + [(a, b)]) == ArcsBetween(nodes, edges) + [(nodes[a], nodes[b])]
  {}

  lemma NodeIndexed(nodes: seq<Node>, edges: seq<(nat, nat)>, index: map<Node, nat>, node: Node)
    requires Consistent(nodes, edges, index) && node !in index
    ensures node !in nodes && Consistent(nodes + [node], edges, index[node := |nodes|])
  {}

  lemma AddedErrors(errors: seq<RefTreeError>, all: seq<RefTreeError>)
    requires errors < all
    ensures exists e :: e in all[|errors|..]
  {
    assert all[|errors|..][0] in all[|errors|..];
  }

  /** Nothing, the only error, or all of them together. */
  predicate Concludes(output: Outcome<RefTreeError>, all: seq<RefTreeError>) {
    output == if |all| == 0 then Pass else if |all| == 1 then Fail(all[0]) else Fail(Multiple(all))
  }

  /** The errors an outcome stands for. */
  function Reported(output: Outcome<RefTreeError>): seq<RefTreeError> {
    match output
    case Pass => []
    case Fail(Multiple(errors)) => errors
    case Fail(error) => [error]
  }

  lemma ReportedIsConcluded(output: Outcome<RefTreeError>, all: seq<RefTreeError>)
    requires Concludes(output, all) && forall e | e in all :: !e.Multiple?
    ensures Reported(output) == all
  {
    assert |all| == 1 ==> all[0] in all;
  }

  /** First the events that carry more than one reference, then what is wrong with
      the tree; nothing else, nothing less, and nothing twice. */
  ghost predicate ReportsAll(arcs: Arcs, nodes: seq<Node>, entities: seq<Path>, errors: seq<RefTreeError>) {
    exists events, tree ::
      && errors == events + tree && OnceEach(errors)
      && (forall e :: e in events <==> IsCrowded(arcs, nodes, e))
      && ReportsTree(arcs, entities, tree)
  }

  ghost predicate IsCrowded(arcs: Arcs, nodes: seq<Node>, e: RefTreeError) {
    e.MultiplePerEvent? && EventNode(e.entity, e.event) in nodes && RefCount(arcs, EventNode(e.entity, e.event)) > 1
  }

  lemma TailsJoin<T>(a: seq<T>, b: seq<T>, c: seq<T>)
    requires a <= b <= c
    ensures c[|a|..] == b[|a|..] + c[|b|..]
    ensures c == a <==> b == a && c == b
  {
    assert c == b + c[|b|..];
  }

  predicate TreeIsChecked(used: bool, errors: seq<RefTreeError>) {
    used && !exists e :: e in errors && (e.NotTargetConstrained? || e.UnknownTarget?)
  }

  /** Checks the events, then the tree. */
  method CheckGraph(nodes: seq<Node>, arcs: Arcs, entities: seq<Path>, errors: seq<RefTreeError>)
    returns (all: seq<RefTreeError>)
    requires Distinct(entities) && Distinct(nodes)
    ensures errors <= all && ReportsAll(arcs, nodes, entities, all[|errors|..])
    ensures all == errors <==>
            (forall n | n in nodes && n.EventNode? :: RefCount(arcs, n) <= 1) && IsRootedTree(arcs, entities)
  {
    var checked := CheckEvents(nodes, arcs, errors);
    all := CheckTree(arcs, entities, checked);
    TailsJoin(errors, checked, all);
    NothingCrowded(arcs, nodes, errors, checked);
    ReportsBoth(arcs, nodes, entities, checked[|errors|..], all[|checked|..]);
  }

  lemma ReportsBoth(arcs: Arcs, nodes: seq<Node>, entities: seq<Path>,
                    events: seq<RefTreeError>, tree: seq<RefTreeError>)
    requires (forall e :: e in events <==> IsCrowded(arcs, nodes, e)) && ReportsTree(arcs, entities, tree)
    requires OnceEach(events)
    ensures ReportsAll(arcs, nodes, entities, events + tree)
  {
    OnceEachJoin(events, tree);
  }

  lemma NothingCrowded(arcs: Arcs, nodes: seq<Node>, errors: seq<RefTreeError>, checked: seq<RefTreeError>)
    requires errors <= checked && forall e :: e in checked[|errors|..] <==> IsCrowded(arcs, nodes, e)
    ensures checked == errors <==> forall n | n in nodes && n.EventNode? :: RefCount(arcs, n) <= 1
  {
    if checked != errors {
      AddedErrors(errors, checked);
    }
    if n :| n in nodes && n.EventNode? && RefCount(arcs, n) > 1 {
      assert IsCrowded(arcs, nodes, MultiplePerEvent(n.entity, n.event));
    }
  }

  class RefTreeConstraint {
    var nodes: seq<Node>
    var edges: seq<(nat, nat)>
    var index: map<Node, nat>
    var entities: seq<Path>
    var recordsSeen: set<Path>
    var used: bool
    var errors: seq<RefTreeError>

    ghost predicate Valid()
      reads this
    {
      Consistent(nodes, edges, index)
    }

    ghost function Abstract(): View
      reads this
      requires Valid()
    {
      View(nodes, ArcsBetween(nodes, edges), entities, recordsSeen, used, errors)
    }

    constructor ()
      ensures Valid() && Abstract() == START
    {
      nodes, edges, index, entities, recordsSeen, used, errors := [], [], map[], [], {}, false, [];
    }

    method NodeOrInsert(node: Node) returns (i: nat)
      requires Valid()
      modifies `nodes, `index
      ensures Valid() && i < |nodes| && nodes[i] == node
      ensures old(nodes) <= nodes == WithNode(old(nodes), node)
      ensures ArcsBetween(nodes, edges) == ArcsBetween(old(nodes), old(edges))
    {
      if node in index {
        return index[node];
      }
      i := |nodes|;
      NodeIndexed(nodes, edges, index, node);
      ArcsKept(nodes, nodes + [node], edges);
      nodes := nodes + [node];
      index := index[node := i];
    }

    method AddArc(from: Node, to: Node)
      requires Valid()
      modifies `nodes, `index, `edges
      ensures Valid()
      ensures nodes == WithNode(WithNode(old(nodes), from), to)
      ensures ArcsBetween(nodes, edges) == ArcsBetween(old(nodes), old(edges)) + [(from, to)]
    {
      var a := NodeOrInsert(from);
      var b := NodeOrInsert(to);
      ArcAdded(nodes, edges, a, b);
      edges := edges + [(a, b)];
    }

    method AddEntities(declared: seq<Entity>)
      requires Valid()
      modifies `nodes, `index, `entities
      ensures Valid() && ArcsBetween(nodes, edges) == ArcsBetween(old(nodes), old(edges))
      ensures nodes == WithEntities(old(nodes), declared) && entities == old(entities) + EntityPaths(declared)
    {
      for i := 0 to |declared|
        invariant Valid() && ArcsBetween(nodes, edges) == ArcsBetween(old(nodes), old(edges))
        invariant nodes == WithEntities(old(nodes), declared[..i])
        invariant entities == old(entities) + EntityPaths(declared[..i])
      {
        EntitiesSnoc(old(nodes), declared, i);
        entities := entities + [declared[i].path];
        var _ := NodeOrInsert(EntityNode(declared[i].path));
      }
      assert declared[..|declared|] == declared;
    }

    method Visit(c: seq<Element>)
      requires Valid() && c != []
      modifies this
      ensures Valid() && Abstract() == Next(old(Abstract()), c)
    {
      match Current(c) {
        case SchemaEl(schema) => AddEntities(schema.entities);
        case EventEl(event) =>
          if |c| >= 2 && c[1].EntityEl? {
            AddArc(EntityNode(c[1].entity.path), EventNode(c[1].entity.path, event.name));
          }
        case DataTypeEl(ty) =>
          if IsTreeRef(c) {
            VisitTreeRef(c);
          } else if ty.RecordType? {
            if EventAt(c).Some? {
              AddArc(EventAt(c).value, RecordNode(ty.path));
            } else if RecordAt(c).Some? {
              AddArc(RecordNode(RecordAt(c).value), RecordNode(ty.path));
            }
          }
        case _ =>
      }
    }

    method VisitTreeRef(c: seq<Element>)
      requires Valid() && IsTreeRef(c)
      modifies this
      ensures Valid() && Abstract() == NextTreeRef(old(Abstract()), c)
    {
      if TargetOf(c).None? {
        errors := errors + [NotTargetConstrained(c)];
      } else if !IsTargeted(c) {
        errors := errors + [UnknownTarget(c, TargetOf(c).value)];
      } else {
        VisitTargeted(c, EntityNode(TargetOf(c).value));
      }
    }

    method VisitTargeted(c: seq<Element>, target: Node)
      requires Valid()
      modifies this
      ensures Valid() && Abstract() == NextTargeted(old(Abstract()), c, target)
    {
      var _ := NodeOrInsert(target);
      assert Abstract() == old(Abstract()).(nodes := WithNode(old(nodes), target));
      if EventAt(c).Some? {
        VisitEventRef(EventAt(c).value, target);
      } else if RecordAt(c).Some? {
        VisitRecordRef(c, RecordAt(c).value, target);
      }
    }

    method VisitEventRef(event: Node, target: Node)
      requires Valid()
      modifies this
      ensures Valid() && Abstract() == WithArc(old(Abstract()), event, target).(used := true)
    {
      AddArc(event, target);
      used := true;
    }

    method VisitRecordRef(c: seq<Element>, record: Path, target: Node)
      requires Valid()
      modifies this
      ensures Valid() && Abstract() == NextRecordRef(old(Abstract()), c, record, target)
    {
      if record !in recordsSeen {
        recordsSeen := recordsSeen + {record};
        AddArc(RecordNode(record), target);
        used := true;
      } else {
        errors := errors + [MultipleRefsInRecord(c)];
      }
    }

    /** The tree is validated only when a reference uses the constraint and no
        reference is left without a declared target; what it adds is true. */
    method Finish() returns (output: Outcome<RefTreeError>)
      requires Valid() && Distinct(entities)
      ensures output.Pass? <==>
              && errors == []
              && (used ==>
                    && (forall n | n in nodes && n.EventNode? :: RefCount(ArcsBetween(nodes, edges), n) <= 1)
                    && IsRootedTree(ArcsBetween(nodes, edges), entities))
      ensures exists all :: Concludes(output, all) && errors <= all
                            && if TreeIsChecked(used, errors)
                               then ReportsAll(ArcsBetween(nodes, edges), nodes, entities, all[|errors|..])
                               else all == errors
    {
      var all := errors;
      if TreeIsChecked(used, errors) {
        all := CheckGraph(nodes, ArcsBetween(nodes, edges), entities, errors);
      }
      output := match |all|
        case 0 => Pass
        case 1 => Fail(all[0])
        case _ => Fail(Multiple(all));
      assert Concludes(output, all);
    }
  }
}
