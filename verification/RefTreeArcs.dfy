/** The arcs of the tree-reference graph, and the parent types it gives an entity,
    read off the schema itself. */
module RefTreeArcs {
  import opened Wrappers
  import opened SchemaModel
  import opened Graphs
  import opened Walk
  import opened Cursors
  import opened Records
  import opened RefTrees
  import opened RefTreeValidation

  /** Somewhere in the field's type there is a tree reference to the declared entity
      `target`. */
  ghost predicate HoldsTreeRef(schema: Schema, f: Field, target: Path) {
    exists d :: InField(f, d) && IsTreeRef(d) && TargetOf(d) == Some(target) && HasEntity(schema, target)
  }

  /** What a field leads to: the target of a tree reference, or a record. */
  ghost predicate FieldLeads(schema: Schema, f: Field, y: Node) {
    match y
    case EntityNode(t) => HoldsTreeRef(schema, f, t)
    case RecordNode(p) => Mentioned(f.ty) == Some(p)
    case EventNode(_, _) => false
  }

  ghost predicate EntityArc(schema: Schema, x: Node, y: Node) {
    exists e, ev :: e in schema.entities && ev in e.events && x == EntityNode(e.path) && y == EventNode(e.path, ev.name)
  }

  ghost predicate EventArc(schema: Schema, x: Node, y: Node) {
    exists e, ev, f :: e in schema.entities && ev in e.events && f in ev.fields
                       && x == EventNode(e.path, ev.name) && FieldLeads(schema, f, y)
  }

  ghost predicate RecordArc(schema: Schema, x: Node, y: Node) {
    exists r, f :: r in schema.records && f in r.fields && x == RecordNode(r.path) && FieldLeads(schema, f, y)
  }

  ghost predicate SchemaArc(schema: Schema, x: Node, y: Node) {
    EntityArc(schema, x, y) || EventArc(schema, x, y) || RecordArc(schema, x, y)
  }

  lemma {:induction false} ArcsOfVisited(cursors: seq<seq<Element>>, arc: (Node, Node))
    ensures arc in ArcsOf(cursors) <==> exists c :: c in cursors && arc in ArcsAt(c)
  {
    if cursors != [] {
      var rest, last := cursors[..|cursors| - 1], cursors[|cursors| - 1];
      ArcsOfVisited(rest, arc);
      assert forall c :: c in cursors <==> c in rest || c == last;
    }
  }

  // ---- Where a data type lies -----------------------------------------------

  lemma TypeLeads(schema: Schema, f: Field, d: seq<Element>, y: Node)
    requires InField(f, d) && Current(d).DataTypeEl?
    requires || (IsTreeRef(d) && y.EntityNode? && TargetOf(d) == Some(y.path) && HasEntity(schema, y.path))
             || (Current(d).ty.RecordType? && y == RecordNode(Current(d).ty.path))
    ensures FieldLeads(schema, f, y)
  {
    if y.RecordNode? {
      assert Current(d) == DataTypeEl(RecordType(y.path));
      MentionedIffInField(f, y.path);
    }
  }

  lemma FieldLeadsBy(schema: Schema, f: Field, y: Node) returns (d: seq<Element>)
    requires FieldLeads(schema, f, y)
    ensures InField(f, d) && Current(d).DataTypeEl?
    ensures || (IsTreeRef(d) && y.EntityNode? && TargetOf(d) == Some(y.path) && HasEntity(schema, y.path))
            || (Current(d).ty.RecordType? && y == RecordNode(Current(d).ty.path))
  {
    match y {
      case EntityNode(t) =>
        d :| InField(f, d) && IsTreeRef(d) && TargetOf(d) == Some(t) && HasEntity(schema, t);
      case RecordNode(p) =>
        MentionedIffInField(f, p);
        d :| InField(f, d) && Current(d) == DataTypeEl(RecordType(p));
    }
  }

  // ---- Arcs -----------------------------------------------------------------

  lemma VisitShowsSchemaArc(schema: Schema, c: seq<Element>, x: Node, y: Node)
    requires c in Visits(schema) && (x, y) in ArcsAt(c)
    ensures SchemaArc(schema, x, y)
  {
    CursorShape(schema, c);
    if Current(c).EventEl? {
      assert c[1].entity in schema.entities && c[2].event in c[1].entity.events;
      assert EntityArc(schema, x, y);
    } else {
      VisitedIffInSchema(schema, c);
      var d := c[1..];
      assert |c| >= 4 && Current(d) == Current(c) && d[0] == c[1] && d[1] == c[2];
      if c[1].EntityEl? {
        var ev, f := TypeInEntity(c[1].entity, d);
        TypeLeads(schema, f, d[2..], y);
        assert EventArc(schema, x, y);
      } else {
        var f := TypeInRecord(c[1].record, d);
        TypeLeads(schema, f, d[1..], y);
        assert RecordArc(schema, x, y);
      }
    }
  }

  lemma EntityArcVisited(schema: Schema, e: Entity, ev: Event) returns (c: seq<Element>)
    requires e in schema.entities && ev in e.events
    ensures c in Visits(schema) && (EntityNode(e.path), EventNode(e.path, ev.name)) in ArcsAt(c)
  {
    c := [SchemaEl(schema), EntityEl(e), EventEl(ev)];
    assert InEvent(ev, c[1..][1..]);
    assert InEntity(e, c[1..]);
    VisitedIffInSchema(schema, c);
  }

  lemma EventArcVisited(schema: Schema, e: Entity, ev: Event, f: Field, y: Node) returns (c: seq<Element>)
    requires e in schema.entities && ev in e.events && f in ev.fields && FieldLeads(schema, f, y)
    ensures c in Visits(schema) && (EventNode(e.path, ev.name), y) in ArcsAt(c)
  {
    var d := FieldLeadsBy(schema, f, y);
    c := EventFieldCursor(schema, e, ev, f, d);
  }

  lemma RecordArcVisited(schema: Schema, r: Record, f: Field, y: Node) returns (c: seq<Element>)
    requires r in schema.records && f in r.fields && FieldLeads(schema, f, y)
    ensures c in Visits(schema) && (RecordNode(r.path), y) in ArcsAt(c)
  {
    var d := FieldLeadsBy(schema, f, y);
    c := RecordFieldCursor(schema, r, f, d);
  }

  lemma SchemaArcVisited(schema: Schema, x: Node, y: Node) returns (c: seq<Element>)
    requires SchemaArc(schema, x, y)
    ensures c in Visits(schema) && (x, y) in ArcsAt(c)
  {
    if EntityArc(schema, x, y) {
      var e, ev :| e in schema.entities && ev in e.events && x == EntityNode(e.path) && y == EventNode(e.path, ev.name);
      c := EntityArcVisited(schema, e, ev);
    } else if EventArc(schema, x, y) {
      var e, ev, f :| e in schema.entities && ev in e.events && f in ev.fields
                      && x == EventNode(e.path, ev.name) && FieldLeads(schema, f, y);
      c := EventArcVisited(schema, e, ev, f, y);
    } else {
      var r, f :| r in schema.records && f in r.fields && x == RecordNode(r.path) && FieldLeads(schema, f, y);
      c := RecordArcVisited(schema, r, f, y);
    }
  }

  /** The graph built by a walk has exactly the arcs the schema declares. */
  lemma ArcsAreDeclared(schema: Schema, x: Node, y: Node)
    ensures (x, y) in ArcsOf(Visits(schema)) <==> SchemaArc(schema, x, y)
  {
    ArcsOfVisited(Visits(schema), (x, y));
    if c :| c in Visits(schema) && (x, y) in ArcsAt(c) {
      VisitShowsSchemaArc(schema, c, x, y);
    }
    if SchemaArc(schema, x, y) {
      var c := SchemaArcVisited(schema, x, y);
    }
  }

  // ---- Parents --------------------------------------------------------------

  /** A tree reference to `target` lies in the field, or in a record that is reached
      from it through any number of nested records. */
  ghost predicate Carries(schema: Schema, f: Field, target: Path) {
    HoldsTreeRef(schema, f, target) ||
    exists r, g :: r in schema.records && g in r.fields && HoldsTreeRef(schema, g, target)
                   && Mentioned(f.ty).Some? && Reaches(RecordArcs(schema.records), Mentioned(f.ty).value, r.path)
  }

  /** Inside the graph a path from an entity goes to one of its events and from
      there through records only, each a field of the one before. */
  lemma InnerPath(schema: Schema, e: Path, p: seq<Node>, i: nat)
    requires IsPath(Inner(ArcsOf(Visits(schema))), p) && p[0] == EntityNode(e) && 0 < i < |p|
    ensures i == 1 ==> EntityArc(schema, p[0], p[1])
    ensures i == 2 ==> p[1].EventNode? && p[2].RecordNode? && EventArc(schema, p[1], p[2])
    ensures i > 2 ==>
              p[i - 1].RecordNode? && p[i].RecordNode? && (p[i - 1].path, p[i].path) in RecordArcs(schema.records)
    decreases i
  {
    assert (p[i - 1], p[i]) in Inner(ArcsOf(Visits(schema)));
    ArcsAreDeclared(schema, p[i - 1], p[i]);
    if i > 1 {
      InnerPath(schema, e, p, i - 1);
    }
  }

  lemma RecordsOfInnerPath(schema: Schema, e: Path, p: seq<Node>)
    requires IsPath(Inner(ArcsOf(Visits(schema))), p) && p[0] == EntityNode(e) && |p| > 2
    ensures p[2].RecordNode? && p[|p| - 1].RecordNode?
    ensures Reaches(RecordArcs(schema.records), p[2].path, p[|p| - 1].path)
  {
    forall i | 2 <= i < |p| ensures p[i].RecordNode? {
      InnerPath(schema, e, p, i);
    }
    forall i, j | 2 <= i < j < |p| && j == i + 1 ensures (p[i].path, p[j].path) in RecordArcs(schema.records) {
      InnerPath(schema, e, p, j);
    }
    RecordChain(RecordArcs(schema.records), p, 2);
  }

  lemma RecordChain(arcs: seq<(Path, Path)>, p: seq<Node>, k: nat)
    requires k < |p| && forall i | k <= i < |p| :: p[i].RecordNode?
    requires forall i, j | k <= i < j < |p| && j == i + 1 :: (p[i].path, p[j].path) in arcs
    ensures Reaches(arcs, p[k].path, p[|p| - 1].path)
  {
    var q := seq(|p| - k, i requires 0 <= i < |p| - k => p[i + k].path);
    assert Joins(arcs, q, p[k].path, p[|p| - 1].path);
  }

  lemma RecordsReachInside(schema: Schema, a: Path, b: Path)
    requires Reaches(RecordArcs(schema.records), a, b)
    ensures Reaches(Inner(ArcsOf(Visits(schema))), RecordNode(a), RecordNode(b))
  {
    var q :| Joins(RecordArcs(schema.records), q, a, b);
    var p := seq(|q|, i requires 0 <= i < |q| => RecordNode(q[i]));
    forall i, j | 0 <= i < j < |p| && j == i + 1 ensures (p[i], p[j]) in Inner(ArcsOf(Visits(schema))) {
      assert (q[i], q[j]) in RecordArcs(schema.records);
      var x, f :| x in schema.records && x.path == q[i] && f in x.fields && Mentioned(f.ty) == Some(q[j]);
      assert FieldLeads(schema, f, p[j]) && RecordArc(schema, p[i], p[j]);
      ArcsAreDeclared(schema, p[i], p[j]);
    }
    assert Joins(Inner(ArcsOf(Visits(schema))), p, RecordNode(a), RecordNode(b));
  }

  lemma EventReachedInside(schema: Schema, e: Entity, ev: Event)
    requires e in schema.entities && ev in e.events
    ensures Reaches(Inner(ArcsOf(Visits(schema))), EntityNode(e.path), EventNode(e.path, ev.name))
  {
    var x, y := EntityNode(e.path), EventNode(e.path, ev.name);
    assert EntityArc(schema, x, y);
    ArcsAreDeclared(schema, x, y);
    ReachesArc(Inner(ArcsOf(Visits(schema))), x, y);
  }

  lemma CarriedLeads(schema: Schema, e: Entity, ev: Event, f: Field, target: Path)
    requires e in schema.entities && ev in e.events && f in ev.fields && Carries(schema, f, target)
    ensures LeadsTo(ArcsOf(Visits(schema)), e.path, EntityNode(target))
  {
    var arcs, x, t := ArcsOf(Visits(schema)), EventNode(e.path, ev.name), EntityNode(target);
    EventReachedInside(schema, e, ev);
    if HoldsTreeRef(schema, f, target) {
      assert FieldLeads(schema, f, t) && EventArc(schema, x, t);
      ArcsAreDeclared(schema, x, t);
    } else {
      var r, g :| r in schema.records && g in r.fields && HoldsTreeRef(schema, g, target)
                  && Mentioned(f.ty).Some? && Reaches(RecordArcs(schema.records), Mentioned(f.ty).value, r.path);
      var first, last := RecordNode(Mentioned(f.ty).value), RecordNode(r.path);
      assert FieldLeads(schema, f, first) && EventArc(schema, x, first);
      assert FieldLeads(schema, g, t) && RecordArc(schema, last, t);
      ArcsAreDeclared(schema, x, first);
      ArcsAreDeclared(schema, last, t);
      RecordsReachInside(schema, first.path, last.path);
      ReachesArc(Inner(arcs), x, first);
      ReachesTransitive(Inner(arcs), EntityNode(e.path), x, first);
      ReachesTransitive(Inner(arcs), EntityNode(e.path), first, last);
    }
  }

  lemma LeadsCarried(schema: Schema, e: Entity, target: Path) returns (ev: Event, f: Field)
    requires WellFormed(schema) && e in schema.entities
    requires LeadsTo(ArcsOf(Visits(schema)), e.path, EntityNode(target))
    ensures ev in e.events && f in ev.fields && Carries(schema, f, target)
  {
    var arcs, t := ArcsOf(Visits(schema)), EntityNode(target);
    var m :| Reaches(Inner(arcs), EntityNode(e.path), m) && (m, t) in arcs;
    var p :| Joins(Inner(arcs), p, EntityNode(e.path), m);
    ArcsAreDeclared(schema, m, t);
    assert |p| > 1;
    InnerPath(schema, e.path, p, 1);
    if |p| == 2 {
      ev, f := EventOfEntity(schema, e, p[1], t);
    } else {
      InnerPath(schema, e.path, p, 2);
      RecordsOfInnerPath(schema, e.path, p);
      ev, f := EventOfEntity(schema, e, p[1], p[2]);
      var r, g :| r in schema.records && g in r.fields && m == RecordNode(r.path) && FieldLeads(schema, g, t);
      assert Carries(schema, f, target);
    }
  }

  /** Paths are unique, so an event node of an entity is one of its events. */
  lemma EventOfEntity(schema: Schema, e: Entity, x: Node, y: Node) returns (ev: Event, f: Field)
    requires WellFormed(schema) && e in schema.entities && x.EventNode? && x.entity == e.path && EventArc(schema, x, y)
    ensures ev in e.events && x == EventNode(e.path, ev.name) && f in ev.fields && FieldLeads(schema, f, y)
  {
    var e', v, g :| e' in schema.entities && v in e'.events && g in v.fields
                    && x == EventNode(e'.path, v.name) && FieldLeads(schema, g, y);
    var i :| 0 <= i < |schema.entities| && schema.entities[i] == e;
    var j :| 0 <= j < |schema.entities| && schema.entities[j] == e';
    assert i == j;
    ev, f := v, g;
  }

  /** The parent types of an entity are exactly the declared targets of the tree
      references its events carry, in their fields or in records nested in them. */
  lemma ParentsAreCarried(schema: Schema, e: Entity, target: Path)
    requires WellFormed(schema) && e in schema.entities
    ensures target in Parents(ArcsOf(Visits(schema)), e.path) <==>
            exists ev, f :: ev in e.events && f in ev.fields && Carries(schema, f, target)
  {
    ParentIffLeadsTo(ArcsOf(Visits(schema)), e.path, target);
    if ev, f :| ev in e.events && f in ev.fields && Carries(schema, f, target) {
      CarriedLeads(schema, e, ev, f, target);
    }
    if LeadsTo(ArcsOf(Visits(schema)), e.path, EntityNode(target)) {
      var ev, f := LeadsCarried(schema, e, target);
    }
  }
}
