/** The second requirement on tree references, that events and records carry at most
    one of them across their nested fields, and how far acceptance guarantees it. */
module RefTreeRequirements {
  import opened Wrappers
  import opened SchemaModel
  import opened Graphs
  import opened Walk
  import opened Cursors
  import opened TypeParts
  import opened Records
  import opened Expansion
  import opened RefTrees
  import opened RefTreeChecks
  import opened RefTreeValidation
  import opened RefTreeSchemas
  import opened RefTreeArcs
  import opened RefTreeCounts

  // ---- Nested counts --------------------------------------------------------

  /** The fields mention `path`, or a record from which `path` is reached. */
  ghost predicate FieldsReach(schema: Schema, fields: seq<Field>, path: Path) {
    exists f :: f in fields && Mentioned(f.ty).Some? && Reaches(RecordArcs(schema.records), Mentioned(f.ty).value, path)
  }

  ghost function MentionedIn(fields: seq<Field>): set<Path> {
    set f | f in fields && Mentioned(f.ty).Some? :: Mentioned(f.ty).value
  }

  /** The distinct records the fields reach. */
  ghost function RecordsReached(schema: Schema, fields: seq<Field>): set<Path> {
    set p | p in MentionedIn(fields) + Heads(RecordArcs(schema.records)) && FieldsReach(schema, fields, p)
  }

  lemma ReachedIff(schema: Schema, fields: seq<Field>, path: Path)
    ensures path in RecordsReached(schema, fields) <==> FieldsReach(schema, fields, path)
  {
    if f :| f in fields && Mentioned(f.ty).Some? && Reaches(RecordArcs(schema.records), Mentioned(f.ty).value, path) {
      var arcs, m := RecordArcs(schema.records), Mentioned(f.ty).value;
      var q :| Joins(arcs, q, m, path);
      if |q| > 1 {
        assert (q[|q| - 2], q[|q| - 1]) in arcs;
        ArcHead(arcs, q[|q| - 2], path);
      } else {
        assert path in MentionedIn(fields);
      }
    }
  }

  /** The tree references that distinct records carry together. */
  ghost function SumRefs(schema: Schema, paths: set<Path>): nat {
    if paths == {} then 0
    else var p :| p in paths; RefsAt(schema, p) + SumRefs(schema, paths - {p})
  }

  lemma {:induction false} SumRefsAdd(schema: Schema, paths: set<Path>, p: Path)
    requires p !in paths
    ensures SumRefs(schema, paths + {p}) == SumRefs(schema, paths) + RefsAt(schema, p)
  {
    var all := paths + {p};
    var m :| m in all && SumRefs(schema, all) == RefsAt(schema, m) + SumRefs(schema, all - {m});
    if m == p {
      assert all - {m} == paths;
    } else {
      assert all - {m} == (paths - {m}) + {p};
      SumRefsAdd(schema, paths - {m}, p);
      SumRefsAdd(schema, paths - {m}, m);
      assert (paths - {m}) + {m} == paths;
    }
  }

  lemma {:induction false} SumRefsGrows(schema: Schema, some: set<Path>, more: set<Path>)
    requires some <= more
    ensures SumRefs(schema, some) <= SumRefs(schema, more)
  {
    if some != more {
      var p :| p in more && p !in some;
      SumRefsGrows(schema, some, more - {p});
      SumRefsAdd(schema, more - {p}, p);
      assert (more - {p}) + {p} == more;
    }
  }

  /** The tree references of an event: in its own fields and in the distinct records
      they reach. */
  ghost function EventRefs(schema: Schema, ev: Event): nat {
    RefsInFields(ev.fields) + SumRefs(schema, RecordsReached(schema, ev.fields))
  }

  /** The tree references of a record: its own and those of the distinct records its
      fields reach. */
  ghost function RecordRefs(schema: Schema, r: Record): nat {
    SumRefs(schema, {r.path} + RecordsReached(schema, r.fields))
  }

  // ---- What the search counts -----------------------------------------------

  /** Within the arcs into records, a path from an event visits records only. */
  lemma RecordsOfPath(schema: Schema, n: Node, p: seq<Node>)
    requires n.EventNode? && IsPath(IntoRecords(ArcsOf(Visits(schema))), p) && p[0] == n && |p| > 1
    ensures p[1].RecordNode? && p[|p| - 1].RecordNode? && EventArc(schema, n, p[1])
    ensures Reaches(RecordArcs(schema.records), p[1].path, p[|p| - 1].path)
  {
    var arcs := ArcsOf(Visits(schema));
    forall i | 1 <= i < |p| ensures p[i].RecordNode? {
      assert (p[i - 1], p[i]) in IntoRecords(arcs);
    }
    assert (p[0], p[1]) in IntoRecords(arcs);
    ArcsAreDeclared(schema, p[0], p[1]);
    forall i, j | 1 <= i < j < |p| && j == i + 1 ensures (p[i].path, p[j].path) in RecordArcs(schema.records) {
      assert (p[i], p[j]) in IntoRecords(arcs);
      DeclaredRecordArc(schema, p[i], p[j]);
    }
    RecordChain(RecordArcs(schema.records), p, 1);
  }

  lemma DeclaredRecordArc(schema: Schema, x: Node, y: Node)
    requires x.RecordNode? && y.RecordNode? && (x, y) in ArcsOf(Visits(schema))
    ensures (x.path, y.path) in RecordArcs(schema.records)
  {
    ArcsAreDeclared(schema, x, y);
  }

  lemma RecordsReachInto(schema: Schema, a: Path, b: Path)
    requires Reaches(RecordArcs(schema.records), a, b)
    ensures Reaches(IntoRecords(ArcsOf(Visits(schema))), RecordNode(a), RecordNode(b))
  {
    var q :| Joins(RecordArcs(schema.records), q, a, b);
    var p := seq(|q|, i requires 0 <= i < |q| => RecordNode(q[i]));
    forall i, j | 0 <= i < j < |p| && j == i + 1 ensures (p[i], p[j]) in IntoRecords(ArcsOf(Visits(schema))) {
      assert (q[i], q[j]) in RecordArcs(schema.records);
      RecordArcDeclared(schema, q[i], q[j]);
    }
    assert Joins(IntoRecords(ArcsOf(Visits(schema))), p, RecordNode(a), RecordNode(b));
  }

  lemma RecordArcDeclared(schema: Schema, a: Path, b: Path)
    requires (a, b) in RecordArcs(schema.records)
    ensures (RecordNode(a), RecordNode(b)) in ArcsOf(Visits(schema))
  {
    var x, f :| x in schema.records && x.path == a && f in x.fields && Mentioned(f.ty) == Some(b);
    assert FieldLeads(schema, f, RecordNode(b)) && RecordArc(schema, RecordNode(a), RecordNode(b));
    ArcsAreDeclared(schema, RecordNode(a), RecordNode(b));
  }

  lemma ReachedIsUsed(schema: Schema, e: Entity, ev: Event, path: Path)
    requires e in schema.entities && ev in e.events && FieldsReach(schema, ev.fields, path)
    ensures RecordNode(path) in UsedRecords(ArcsOf(Visits(schema)), EventNode(e.path, ev.name))
  {
    var arcs, n := ArcsOf(Visits(schema)), EventNode(e.path, ev.name);
    var f :| f in ev.fields && Mentioned(f.ty).Some?
             && Reaches(RecordArcs(schema.records), Mentioned(f.ty).value, path);
    var first := RecordNode(Mentioned(f.ty).value);
    assert FieldLeads(schema, f, first) && EventArc(schema, n, first);
    ArcsAreDeclared(schema, n, first);
    ReachesArc(IntoRecords(arcs), n, first);
    RecordsReachInto(schema, first.path, path);
    ReachesTransitive(IntoRecords(arcs), n, first, RecordNode(path));
    var p :| Joins(IntoRecords(arcs), p, n, RecordNode(path));
    assert (p[|p| - 2], p[|p| - 1]) in IntoRecords(arcs);
    var i :| 0 <= i < |arcs| && arcs[i] == (p[|p| - 2], p[|p| - 1]);
    assert arcs[i].1 in Heads(arcs);
  }

  lemma UsedIsReached(schema: Schema, e: Entity, ev: Event, n: Node)
    requires WellFormed(schema) && e in schema.entities && ev in e.events
    requires n in UsedRecords(ArcsOf(Visits(schema)), EventNode(e.path, ev.name))
    ensures n.RecordNode? && FieldsReach(schema, ev.fields, n.path)
  {
    var event := EventNode(e.path, ev.name);
    var first := FirstRecord(schema, event, n);
    var v, f := EventOfEntity(schema, e, event, RecordNode(first));
    SameEvent(e, v, ev);
  }

  lemma FirstRecord(schema: Schema, event: Node, n: Node) returns (first: Path)
    requires event.EventNode? && n.RecordNode? && Reaches(IntoRecords(ArcsOf(Visits(schema))), event, n)
    ensures EventArc(schema, event, RecordNode(first)) && Reaches(RecordArcs(schema.records), first, n.path)
  {
    var p: seq<Node> :| Joins(IntoRecords(ArcsOf(Visits(schema))), p, event, n);
    RecordsOfPath(schema, event, p);
    first := p[1].path;
  }

  lemma SameEvent(e: Entity, a: Event, b: Event)
    requires UniqueEvents(e.events) && a in e.events && b in e.events && a.name == b.name
    ensures a == b
  {
    var i :| 0 <= i < |e.events| && e.events[i] == a;
    var j :| 0 <= j < |e.events| && e.events[j] == b;
    assert i == j;
  }

  ghost function PathsOf(nodes: set<Node>): set<Path> {
    set n | n in nodes && n.RecordNode? :: n.path
  }

  lemma {:induction false} TotalIsSum(schema: Schema, nodes: set<Node>)
    requires WellFormed(schema) && AllTargeted(Visits(schema)) && forall n | n in nodes :: n.RecordNode?
    ensures TotalRefs(ArcsOf(Visits(schema)), nodes) == SumRefs(schema, PathsOf(nodes))
  {
    if nodes == {} {
      assert PathsOf(nodes) == {};
    } else {
      var n :| n in nodes;
      TotalIsSum(schema, nodes - {n});
      DirectRefsOfRecord(schema, n.path);
      TotalRefsAdd(ArcsOf(Visits(schema)), nodes - {n}, n);
      SumRefsAdd(schema, PathsOf(nodes - {n}), n.path);
      assert (nodes - {n}) + {n} == nodes && PathsOf(nodes) == PathsOf(nodes - {n}) + {n.path};
    }
  }

  /** What the search counts for an event is the tree references in its field types and
      in those of the distinct records they reach. */
  lemma RefCountIsEventRefs(schema: Schema, e: Entity, ev: Event)
    requires WellFormed(schema) && AllTargeted(Visits(schema)) && e in schema.entities && ev in e.events
    ensures RefCount(ArcsOf(Visits(schema)), EventNode(e.path, ev.name)) == EventRefs(schema, ev)
  {
    var used := UsedRecords(ArcsOf(Visits(schema)), EventNode(e.path, ev.name));
    forall p ensures p in PathsOf(used) <==> p in RecordsReached(schema, ev.fields) {
      ReachedIff(schema, ev.fields, p);
      if p in PathsOf(used) { UsedIsReached(schema, e, ev, RecordNode(p)); }
      if FieldsReach(schema, ev.fields, p) { ReachedIsUsed(schema, e, ev, p); }
    }
    assert PathsOf(used) == RecordsReached(schema, ev.fields);
    DirectRefsOfEvent(schema, e, ev);
    TotalIsSum(schema, used);
  }

  // ---- Acceptance, counted --------------------------------------------------

  ghost predicate UsesTreeRefs(schema: Schema) {
    exists c :: c in Visits(schema) && IsTreeRef(c)
  }

  /** If the type is a tree reference, it is restricted to an entity the schema declares. */
  predicate HasTarget(schema: Schema, ty: DataType) {
    ty.EntityRef? && ty.annotations.refTree ==>
      ty.annotations.refTarget.Payload? && HasEntity(schema, ty.annotations.refTarget.value)
  }

  function TargetCheck(schema: Schema): DataType -> bool {
    (ty: DataType) => HasTarget(schema, ty)
  }

  lemma TargetedIffDeclared(schema: Schema)
    ensures AllTargeted(Visits(schema)) <==> EveryType(schema, TargetCheck(schema))
  {
    EveryTypeVisited(schema, TargetCheck(schema));
    forall c | c in Visits(schema) ensures c != [] && c[0] == SchemaEl(schema) {
      CursorShape(schema, c);
    }
  }

  /** Acceptance in terms of the schema's own types. */
  ghost predicate DeclaredSound(schema: Schema) {
    && EveryType(schema, TargetCheck(schema))
    && (forall r | r in schema.records :: RefsInFields(r.fields) <= 1)
    && (UsesTreeRefs(schema) ==>
          && (forall e, ev | e in schema.entities && ev in e.events :: EventRefs(schema, ev) <= 1)
          && IsRootedTree(ArcsOf(Visits(schema)), EntityPaths(schema.entities)))
  }

  lemma RecordOfDeclared(schema: Schema, r: Record)
    requires WellFormed(schema) && r in schema.records
    ensures HasRecord(schema, r.path) && RecordOf(schema, r.path) == r
    ensures RefsAt(schema, r.path) == RefsInFields(r.fields)
  {
    assert HasRecord(schema, r.path);
    var x := RecordOf(schema, r.path);
    var i :| 0 <= i < |schema.records| && schema.records[i] == r;
    var j :| 0 <= j < |schema.records| && schema.records[j] == x;
    assert i == j;
  }

  lemma OnePerRecordIff(schema: Schema)
    requires WellFormed(schema)
    ensures OnePerRecord(Visits(schema)) <==> forall r | r in schema.records :: RefsInFields(r.fields) <= 1
  {
    var visits := Visits(schema);
    forall path ensures AtMostOne(OfRecord(path), visits) <==> RefsAt(schema, path) <= 1 {
      CountAtMostOne(OfRecord(path), visits);
      RefsOfRecordInSchema(schema, path);
    }
    forall r | r in schema.records ensures RefsAt(schema, r.path) == RefsInFields(r.fields) {
      RecordOfDeclared(schema, r);
    }
    OnePerRecordByPath(visits);
    if forall r | r in schema.records :: RefsInFields(r.fields) <= 1 {
      forall path ensures RefsAt(schema, path) <= 1 {
        if HasRecord(schema, path) { assert RecordOf(schema, path) in schema.records; }
      }
    }
  }

  lemma OnePerRecordByPath(visits: seq<seq<Element>>)
    ensures OnePerRecord(visits) <==> forall path :: AtMostOne(OfRecord(path), visits)
  {
    if forall path :: AtMostOne(OfRecord(path), visits) {
      forall i, j | 0 <= i < j < |visits| && IsRecordRef(visits[i]) && IsRecordRef(visits[j])
        ensures RecordAt(visits[i]) != RecordAt(visits[j])
      {
        var path := RecordAt(visits[i]).value;
        assert AtMostOne(OfRecord(path), visits);
        assert OfRecord(path)(visits[i]);
        assert !OfRecord(path)(visits[j]);
      }
    }
  }

  /** A schema is accepted exactly when, counted in its types, its tree references are
      targeted, single in every record declaration, and, once one is used, single per
      event across nested records and the parent relation is a rooted tree. */
  lemma SoundIffDeclared(schema: Schema)
    requires WellFormed(schema)
    ensures TreeReferencesSound(schema) <==> DeclaredSound(schema)
  {
    OnePerRecordIff(schema);
    TargetedIffDeclared(schema);
    if AllTargeted(Visits(schema)) {
      OnePerEventIff(schema);
    }
  }

  lemma OnePerEventIff(schema: Schema)
    requires WellFormed(schema) && AllTargeted(Visits(schema))
    ensures (forall n | IsEventOf(schema, n) :: RefCount(ArcsOf(Visits(schema)), n) <= 1) <==>
            (forall e, ev | e in schema.entities && ev in e.events :: EventRefs(schema, ev) <= 1)
  {
    if forall n | IsEventOf(schema, n) :: RefCount(ArcsOf(Visits(schema)), n) <= 1 {
      forall e, ev | e in schema.entities && ev in e.events ensures EventRefs(schema, ev) <= 1 {
        RefCountIsEventRefs(schema, e, ev);
        assert IsEventOf(schema, EventNode(e.path, ev.name));
      }
    }
    if forall e, ev | e in schema.entities && ev in e.events :: EventRefs(schema, ev) <= 1 {
      forall n | IsEventOf(schema, n) ensures RefCount(ArcsOf(Visits(schema)), n) <= 1 {
        var e, ev :| e in schema.entities && ev in e.events && n == EventNode(e.path, ev.name);
        RefCountIsEventRefs(schema, e, ev);
      }
    }
  }

  // ---- The requirement on records -------------------------------------------

  /** Some event reaches the record. */
  ghost predicate ReachedByEvent(schema: Schema, r: Record) {
    exists e, ev :: e in schema.entities && ev in e.events && FieldsReach(schema, ev.fields, r.path)
  }

  lemma EventReachesMore(schema: Schema, ev: Event, r: Record)
    requires r in schema.records && FieldsReach(schema, ev.fields, r.path)
    ensures {r.path} + RecordsReached(schema, r.fields) <= RecordsReached(schema, ev.fields)
  {
    var arcs := RecordArcs(schema.records);
    var f :| f in ev.fields && Mentioned(f.ty).Some? && Reaches(arcs, Mentioned(f.ty).value, r.path);
    forall p | p in {r.path} + RecordsReached(schema, r.fields) ensures p in RecordsReached(schema, ev.fields) {
      ReachedIff(schema, ev.fields, p);
      if p != r.path {
        ReachedIff(schema, r.fields, p);
        var g :| g in r.fields && Mentioned(g.ty).Some? && Reaches(arcs, Mentioned(g.ty).value, p);
        assert (r.path, Mentioned(g.ty).value) in arcs;
        ReachesArc(arcs, r.path, Mentioned(g.ty).value);
        ReachesTransitive(arcs, r.path, Mentioned(g.ty).value, p);
        ReachesTransitive(arcs, Mentioned(f.ty).value, r.path, p);
      }
    }
  }

  /** A record that an event reaches carries no more than that event. */
  lemma RecordRefsBounded(schema: Schema, ev: Event, r: Record)
    requires r in schema.records && FieldsReach(schema, ev.fields, r.path)
    ensures RecordRefs(schema, r) <= EventRefs(schema, ev)
  {
    EventReachesMore(schema, ev, r);
    SumRefsGrows(schema, {r.path} + RecordsReached(schema, r.fields), RecordsReached(schema, ev.fields));
  }

  /** In an accepted schema that uses tree references, every record that an event
      reaches carries at most one across its nested fields. */
  lemma ReachedRecordsCarryOne(schema: Schema, r: Record)
    requires WellFormed(schema) && TreeReferencesSound(schema) && UsesTreeRefs(schema)
    requires r in schema.records && ReachedByEvent(schema, r)
    ensures RecordRefs(schema, r) <= 1
  {
    SoundIffDeclared(schema);
    var e, ev :| e in schema.entities && ev in e.events && FieldsReach(schema, ev.fields, r.path);
    RecordRefsBounded(schema, ev, r);
  }

  lemma UnusedCountsNothing(schema: Schema, path: Path)
    requires WellFormed(schema) && !UsesTreeRefs(schema)
    ensures RefsAt(schema, path) == 0
  {
    RefsOfRecordInSchema(schema, path);
    CountHolds(OfRecord(path), Visits(schema));
  }

  lemma {:induction false} UnusedSumsToNothing(schema: Schema, paths: set<Path>)
    requires WellFormed(schema) && !UsesTreeRefs(schema)
    ensures SumRefs(schema, paths) == 0
  {
    if paths != {} {
      var p :| p in paths;
      UnusedSumsToNothing(schema, paths - {p});
      UnusedCountsNothing(schema, p);
      SumRefsAdd(schema, paths - {p}, p);
      assert (paths - {p}) + {p} == paths;
    }
  }

  /** In an accepted schema every record carries at most one tree reference across its
      nested fields if and only if the records that no event reaches do. */
  lemma RecordRequirementIff(schema: Schema)
    requires WellFormed(schema) && TreeReferencesSound(schema)
    ensures (forall r | r in schema.records :: RecordRefs(schema, r) <= 1) <==>
            (forall r | r in schema.records && !ReachedByEvent(schema, r) :: RecordRefs(schema, r) <= 1)
  {
    if forall r | r in schema.records && !ReachedByEvent(schema, r) :: RecordRefs(schema, r) <= 1 {
      forall r | r in schema.records ensures RecordRefs(schema, r) <= 1 {
        if !UsesTreeRefs(schema) {
          UnusedSumsToNothing(schema, {r.path} + RecordsReached(schema, r.fields));
        } else if ReachedByEvent(schema, r) {
          ReachedRecordsCarryOne(schema, r);
        }
      }
    }
  }

  // ---- The requirement can fail ---------------------------------------------

  const ROOT := Path([], "X")
  const CHILD := Path([], "Y")
  const OUTER := Path([], "A")
  const INNER := Path([], "B")
  const PARENT := EntityRef(None, NO_ANNOTATIONS.(refTree := true, refTarget := Payload(ROOT)))
  const PARENT_FIELD := Field("parent", PARENT, NO_ANNOTATIONS)
  const NESTED_FIELD := Field("inner", RecordType(INNER), NO_ANNOTATIONS)
  const ATTACHED := Event("attached", Once, [PARENT_FIELD], NO_ANNOTATIONS)
  const CREATED := Event("created", Once, [], NO_ANNOTATIONS)
  const ROOT_ENTITY := Entity(ROOT, [CREATED], NO_ANNOTATIONS)
  const CHILD_ENTITY := Entity(CHILD, [ATTACHED], NO_ANNOTATIONS)
  const OUTER_RECORD := Record(OUTER, [PARENT_FIELD, NESTED_FIELD], NO_ANNOTATIONS)
  const INNER_RECORD := Record(INNER, [PARENT_FIELD], NO_ANNOTATIONS)

  /** A root entity, a child entity whose one event refers to the root, and an unused record that
      refers to the root itself and once more through a record in it. */
  const UNUSED_RECORD_SCHEMA :=
    Schema("m", [ROOT_ENTITY, CHILD_ENTITY], [OUTER_RECORD, INNER_RECORD], NO_ANNOTATIONS)

  lemma PathsDiffer()
    ensures ROOT != CHILD && OUTER != INNER && WellFormed(UNUSED_RECORD_SCHEMA)
  {
    assert ROOT.name[0] == 'X' && CHILD.name[0] == 'Y' && OUTER.name[0] == 'A' && INNER.name[0] == 'B';
    assert PARENT_FIELD.name[0] == 'p' && NESTED_FIELD.name[0] == 'i';
  }

  /** Below a plain reference or record field, the only type is the field's own. */
  lemma OnlyTypeOfField(f: Field, d: seq<Element>)
    requires f == PARENT_FIELD || f == NESTED_FIELD
    requires InField(f, d) && Current(d).DataTypeEl?
    ensures Current(d).ty == f.ty
  {
    assert |d| > 1 && Current(d) == Current(d[1..]);
  }

  lemma OnlyFields(f: Field)
    ensures f in ATTACHED.fields || f in OUTER_RECORD.fields || f in INNER_RECORD.fields ==>
              f == PARENT_FIELD || f == NESTED_FIELD
  {}

  lemma WitnessTargeted()
    ensures AllTargeted(Visits(UNUSED_RECORD_SCHEMA))
  {
    var schema := UNUSED_RECORD_SCHEMA;
    forall c: seq<Element> | c in Visits(schema) && IsTreeRef(c) ensures IsTargeted(c) {
      CursorShape(schema, c);
      VisitedIffInSchema(schema, c);
      var d := c[1..];
      assert |c| >= 4 && Current(d) == Current(c) && d[0] == c[1];
      if c[1].EntityEl? {
        var ev, f := TypeInEntity(c[1].entity, d);
        OnlyFields(f);
        OnlyTypeOfField(f, d[2..]);
      } else {
        var f := TypeInRecord(c[1].record, d);
        OnlyFields(f);
        OnlyTypeOfField(f, d[1..]);
      }
      assert Current(c).ty == PARENT && ROOT_ENTITY in schema.entities;
    }
  }

  lemma WitnessFieldCounts()
    ensures RefsInFields(ATTACHED.fields) == 1
    ensures RefsInFields(INNER_RECORD.fields) == 1 && RefsInFields(OUTER_RECORD.fields) == 1
  {
    assert [PARENT_FIELD][..0] == [] && [PARENT_FIELD, NESTED_FIELD][..1] == [PARENT_FIELD];
    assert RefsInFields([PARENT_FIELD]) == RefsInFields([]) + RefsInType(PARENT);
  }

  lemma WitnessHolds(f: Field, t: Path)
    requires f == PARENT_FIELD || f == NESTED_FIELD
    ensures HoldsTreeRef(UNUSED_RECORD_SCHEMA, f, t) <==> f == PARENT_FIELD && t == ROOT
  {
    if d :| InField(f, d) && IsTreeRef(d) && TargetOf(d) == Some(t) && HasEntity(UNUSED_RECORD_SCHEMA, t) {
      OnlyTypeOfField(f, d);
    }
    var d := [FieldEl(PARENT_FIELD), DataTypeEl(PARENT)];
    assert d[1..] == [DataTypeEl(PARENT)];
    assert InField(PARENT_FIELD, d) && IsTreeRef(d) && TargetOf(d) == Some(ROOT);
    assert ROOT_ENTITY in UNUSED_RECORD_SCHEMA.entities;
  }

  lemma WitnessCarries(t: Path)
    ensures RefTreeArcs.Carries(UNUSED_RECORD_SCHEMA, PARENT_FIELD, t) <==> t == ROOT
  {
    WitnessHolds(PARENT_FIELD, t);
    assert Mentioned(PARENT_FIELD.ty) == None;
  }

  lemma WitnessRootParents(t: Path)
    ensures t !in Parents(ArcsOf(Visits(UNUSED_RECORD_SCHEMA)), ROOT)
  {
    PathsDiffer();
    assert ROOT_ENTITY in UNUSED_RECORD_SCHEMA.entities;
    ParentsAreCarried(UNUSED_RECORD_SCHEMA, ROOT_ENTITY, t);
  }

  lemma WitnessChildParents(t: Path)
    ensures t in Parents(ArcsOf(Visits(UNUSED_RECORD_SCHEMA)), CHILD) <==> t == ROOT
  {
    PathsDiffer();
    assert CHILD_ENTITY in UNUSED_RECORD_SCHEMA.entities;
    ParentsAreCarried(UNUSED_RECORD_SCHEMA, CHILD_ENTITY, t);
    WitnessCarries(t);
    assert PARENT_FIELD in ATTACHED.fields && ATTACHED in CHILD_ENTITY.events;
  }

  lemma WitnessIsTree()
    ensures IsRootedTree(ArcsOf(Visits(UNUSED_RECORD_SCHEMA)), EntityPaths(UNUSED_RECORD_SCHEMA.entities))
  {
    var arcs, entities := ArcsOf(Visits(UNUSED_RECORD_SCHEMA)), EntityPaths(UNUSED_RECORD_SCHEMA.entities);
    assert entities == [ROOT, CHILD];
    forall t ensures t !in Parents(arcs, ROOT) && (t in Parents(arcs, CHILD) <==> t == ROOT) {
      WitnessRootParents(t);
      WitnessChildParents(t);
    }
    assert Parents(arcs, ROOT) == {} && Parents(arcs, CHILD) == {ROOT};
    assert Climbs(arcs, entities, [ROOT], ROOT, ROOT);
    assert Climbs(arcs, entities, [CHILD, ROOT], CHILD, ROOT);
    assert RootedAt(arcs, entities, ROOT);
  }

  lemma WitnessEvents()
    ensures EventRefs(UNUSED_RECORD_SCHEMA, ATTACHED) == 1
    ensures EventRefs(UNUSED_RECORD_SCHEMA, CREATED) == 0
  {
    WitnessFieldCounts();
    forall p ensures p !in RecordsReached(UNUSED_RECORD_SCHEMA, ATTACHED.fields) {}
    assert RecordsReached(UNUSED_RECORD_SCHEMA, ATTACHED.fields) == {};
    assert RecordsReached(UNUSED_RECORD_SCHEMA, CREATED.fields) == {};
  }

  lemma WitnessRecord()
    ensures RecordRefs(UNUSED_RECORD_SCHEMA, OUTER_RECORD) >= 2
  {
    var schema := UNUSED_RECORD_SCHEMA;
    PathsDiffer();
    WitnessFieldCounts();
    RecordOfDeclared(schema, OUTER_RECORD);
    RecordOfDeclared(schema, INNER_RECORD);
    ReachesSelf(RecordArcs(schema.records), INNER);
    assert NESTED_FIELD in OUTER_RECORD.fields && Mentioned(NESTED_FIELD.ty) == Some(INNER);
    ReachedIff(schema, OUTER_RECORD.fields, INNER);
    SumRefsAdd(schema, {}, OUTER);
    SumRefsAdd(schema, {OUTER}, INNER);
    SumRefsGrows(schema, {OUTER} + {INNER}, {OUTER} + RecordsReached(schema, OUTER_RECORD.fields));
    assert {} + {OUTER} == {OUTER};
  }

  lemma WitnessSound()
    ensures DeclaredSound(UNUSED_RECORD_SCHEMA)
  {
    var schema := UNUSED_RECORD_SCHEMA;
    WitnessTargeted();
    TargetedIffDeclared(schema);
    WitnessFieldCounts();
    WitnessIsTree();
    WitnessEvents();
    forall e, ev | e in schema.entities && ev in e.events ensures ev == ATTACHED || ev == CREATED {}
    forall r | r in schema.records ensures r == OUTER_RECORD || r == INNER_RECORD {}
  }

  /** What validation asks of every schema, whatever constraints it is validated for. */
  ghost predicate BaseSound(schema: Schema) {
    && (forall e | e in schema.entities :: e.events != [])
    && (forall e, r | e in schema.entities && r in schema.records :: e.path != r.path)
    && AllResolved(schema) && NoRecursion(schema)
  }

  lemma WitnessMentions(f: Field, p: Path)
    requires f == PARENT_FIELD || f == NESTED_FIELD
    ensures Mentioned(f.ty) == Some(p) <==> f == NESTED_FIELD && p == INNER
  {}

  lemma WitnessMentionsIn(r: Record, f: Field, p: Path)
    requires r in UNUSED_RECORD_SCHEMA.records && f in r.fields && Mentioned(f.ty) == Some(p)
    ensures r.path == OUTER && p == INNER
  {
    OnlyFields(f);
    WitnessMentions(f, p);
    assert NESTED_FIELD.name[0] != PARENT_FIELD.name[0];
  }

  lemma WitnessResolved()
    ensures AllResolved(UNUSED_RECORD_SCHEMA)
  {
    var schema := UNUSED_RECORD_SCHEMA;
    assert INNER_RECORD in schema.records && HasRecord(schema, INNER);
    forall r, f, p | r in schema.records && f in r.fields && Mentioned(f.ty) == Some(p) ensures HasRecord(schema, p) {
      WitnessMentionsIn(r, f, p);
    }
  }

  lemma WitnessNotRecursive()
    ensures NoRecursion(UNUSED_RECORD_SCHEMA)
  {
    var schema := UNUSED_RECORD_SCHEMA;
    PathsDiffer();
    var rank := (p: Path) => if p == OUTER then 1 else 0;
    forall a, b | (a, b) in RecordArcs(schema.records) ensures rank(b) < rank(a) {
      var r, f :| r in schema.records && r.path == a && f in r.fields && Mentioned(f.ty) == Some(b);
      WitnessMentionsIn(r, f, b);
    }
    assert Ranks(schema, rank);
    NoRecursionIffRanked(schema);
  }

  lemma WitnessBaseSound()
    ensures BaseSound(UNUSED_RECORD_SCHEMA)
  {
    WitnessResolved();
    WitnessNotRecursive();
    assert ROOT.name[0] == 'X' && CHILD.name[0] == 'Y' && OUTER.name[0] == 'A' && INNER.name[0] == 'B';
  }

  /** An accepted schema that uses tree references and breaks no other rule, with a
      record that carries two across its nested fields: no event reaches it. */
  lemma UnreachedRecordMayCarryTwo()
    ensures WellFormed(UNUSED_RECORD_SCHEMA) && TreeReferencesSound(UNUSED_RECORD_SCHEMA)
    ensures BaseSound(UNUSED_RECORD_SCHEMA) && UsesTreeRefs(UNUSED_RECORD_SCHEMA)
    ensures OUTER_RECORD in UNUSED_RECORD_SCHEMA.records && RecordRefs(UNUSED_RECORD_SCHEMA, OUTER_RECORD) > 1
  {
    var schema := UNUSED_RECORD_SCHEMA;
    PathsDiffer();
    WitnessBaseSound();
    WitnessSound();
    WitnessFieldCounts();
    WitnessRecord();
    SoundIffDeclared(schema);
    RefsOfEventInSchema(schema, CHILD_ENTITY, ATTACHED);
    CountHolds(OfEvent(EventNode(CHILD, ATTACHED.name)), Visits(schema));
  }
}
