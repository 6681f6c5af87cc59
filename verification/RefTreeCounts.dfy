/** How many tree references a schema places on its events and records, counted in
    its field types and in the cursors a walk shows. */
module RefTreeCounts {
  import opened Wrappers
  import opened SchemaModel
  import opened Trees
  import opened Walk
  import opened Expansion
  import opened RefTrees
  import opened RefTreeValidation
  import opened RefTreeSchemas

  // ---- Counting in types ----------------------------------------------------

  /** The tree references in a type, under any options, lists and reference data. */
  function RefsInType(ty: DataType): nat {
    match ty
    case OptionType(inner) => RefsInType(inner)
    case ListType(inner) => RefsInType(inner)
    case EntityRef(data, annotations) =>
      (if annotations.refTree then 1 else 0) + if data.Some? then RefsInType(data.value) else 0
    case _ => 0
  }

  function RefsInFields(fields: seq<Field>): nat {
    if fields == [] then 0 else RefsInFields(fields[..|fields| - 1]) + RefsInType(fields[|fields| - 1].ty)
  }

  // ---- Counting visits ------------------------------------------------------

  ghost function Count(p: seq<Element> -> bool, cursors: seq<seq<Element>>): nat {
    if cursors == [] then 0
    else Count(p, cursors[..|cursors| - 1]) + if p(cursors[|cursors| - 1]) then 1 else 0
  }

  lemma {:induction false} CountConcat(p: seq<Element> -> bool, a: seq<seq<Element>>, b: seq<seq<Element>>)
    ensures Count(p, a + b) == Count(p, a) + Count(p, b)
    decreases |b|
  {
    if b == [] {
      assert a + b == a;
    } else {
      assert (a + b)[..|a + b| - 1] == a + b[..|b| - 1];
      CountConcat(p, a, b[..|b| - 1]);
    }
  }

  lemma CountOne(p: seq<Element> -> bool, c: seq<Element>)
    ensures Count(p, [c]) == if p(c) then 1 else 0
  {
    assert [c][..0] == [];
    assert Count(p, [c][..0]) == 0;
  }

  lemma {:induction false} CountAgrees(p: seq<Element> -> bool, q: seq<Element> -> bool, cursors: seq<seq<Element>>)
    requires forall c | c in cursors :: p(c) <==> q(c)
    ensures Count(p, cursors) == Count(q, cursors)
  {
    if cursors != [] {
      CountAgrees(p, q, cursors[..|cursors| - 1]);
    }
  }

  lemma {:induction false} CountNone(p: seq<Element> -> bool, cursors: seq<seq<Element>>)
    requires forall c | c in cursors :: !p(c)
    ensures Count(p, cursors) == 0
  {
    if cursors != [] {
      CountNone(p, cursors[..|cursors| - 1]);
    }
  }

  lemma {:induction false} CountHolds(p: seq<Element> -> bool, cursors: seq<seq<Element>>)
    ensures Count(p, cursors) == 0 <==> forall c | c in cursors :: !p(c)
  {
    if cursors != [] {
      var rest, last := cursors[..|cursors| - 1], cursors[|cursors| - 1];
      CountHolds(p, rest);
      assert forall c :: c in cursors <==> c in rest || c == last;
    }
  }

  ghost predicate AtMostOne(p: seq<Element> -> bool, cursors: seq<seq<Element>>) {
    forall i, j | 0 <= i < j < |cursors| :: !(p(cursors[i]) && p(cursors[j]))
  }

  lemma {:induction false} CountAtMostOne(p: seq<Element> -> bool, cursors: seq<seq<Element>>)
    ensures Count(p, cursors) <= 1 <==> AtMostOne(p, cursors)
  {
    if cursors != [] {
      var rest, last := cursors[..|cursors| - 1], cursors[|cursors| - 1];
      CountAtMostOne(p, rest);
      CountHolds(p, rest);
      if p(last) && exists c :: c in rest && p(c) {
        var c :| c in rest && p(c);
        var i :| 0 <= i < |rest| && rest[i] == c;
        assert p(cursors[i]) && p(cursors[|cursors| - 1]);
      }
      if AtMostOne(p, cursors) {
        forall i, j | 0 <= i < j < |rest| ensures !(p(rest[i]) && p(rest[j])) {
          assert rest[i] == cursors[i] && rest[j] == cursors[j];
        }
        forall c | c in rest ensures !(p(last) && p(c)) {
          var i :| 0 <= i < |rest| && rest[i] == c;
          assert !(p(cursors[i]) && p(cursors[|cursors| - 1]));
        }
      }
    }
  }

  // ---- The tree references below a field ------------------------------------

  const TREE_REF: seq<Element> -> bool := c => IsTreeRef(c)

  lemma TrailOfTwo(prefix: seq<Element>, value: Element, first: Tree<Element>, rest: seq<Tree<Element>>)
    ensures Trail(prefix, Node(value, [first] + rest)) ==
            [prefix + [value]] + Trail(prefix + [value], first) + Trails(prefix + [value], rest)
  {
    TrailOfNode([], prefix, value, first, rest);
    assert [] + [prefix + [value]] == [prefix + [value]];
    assert [] + Trail(prefix, Node(value, [first] + rest)) == Trail(prefix, Node(value, [first] + rest));
  }

  /** Counting along a node: itself, its first child, the others. */
  lemma CountNode(p: seq<Element> -> bool, prefix: seq<Element>, value: Element,
                  first: Tree<Element>, rest: seq<Tree<Element>>)
    ensures Count(p, Trail(prefix, Node(value, [first] + rest))) ==
            (if p(prefix + [value]) then 1 else 0)
            + Count(p, Trail(prefix + [value], first)) + Count(p, Trails(prefix + [value], rest))
  {
    var here := prefix + [value];
    TrailOfTwo(prefix, value, first, rest);
    CountConcat(p, [here] + Trail(here, first), Trails(here, rest));
    CountConcat(p, [here], Trail(here, first));
    CountOne(p, here);
  }

  lemma CountLeaf(p: seq<Element> -> bool, prefix: seq<Element>, value: Element)
    ensures Count(p, Trail(prefix, Leaf(value))) == if p(prefix + [value]) then 1 else 0
  {
    assert Trail(prefix, Leaf(value)) == [prefix + [value]];
    CountOne(p, prefix + [value]);
  }

  lemma CountSingle(p: seq<Element> -> bool, prefix: seq<Element>, t: Tree<Element>)
    ensures Count(p, Trails(prefix, [t])) == Count(p, Trail(prefix, t))
  {
    assert Trails(prefix, [t][1..]) == [];
    assert Trails(prefix, [t]) == Trail(prefix, t);
  }

  lemma {:induction false} RefsOfType(prefix: seq<Element>, ty: DataType)
    ensures Count(TREE_REF, Trail(prefix, DataTypeTree(ty))) == RefsInType(ty)
    decreases ty
  {
    var here := prefix + [DataTypeEl(ty)];
    assert Current(here) == DataTypeEl(ty);
    match ty {
      case OptionType(inner) => RefsOfWrapped(prefix, ty, inner); RefsOfType(here, inner);
      case ListType(inner) => RefsOfWrapped(prefix, ty, inner); RefsOfType(here, inner);
      case EntityRef(data, annotations) =>
        RefsOfReference(prefix, data, annotations);
        if data.Some? {
          RefsOfType(here, data.value);
        }
      case _ => CountLeaf(TREE_REF, prefix, DataTypeEl(ty));
    }
  }

  lemma RefsOfReference(prefix: seq<Element>, data: Option<DataType>, annotations: Annotations)
    ensures var ty := EntityRef(data, annotations);
            Count(TREE_REF, Trail(prefix, DataTypeTree(ty))) ==
            (if annotations.refTree then 1 else 0) +
            if data.Some? then Count(TREE_REF, Trail(prefix + [DataTypeEl(ty)], DataTypeTree(data.value))) else 0
  {
    var ty := EntityRef(data, annotations);
    var here := prefix + [DataTypeEl(ty)];
    var rest := if data.Some? then [DataTypeTree(data.value)] else [];
    assert Current(here) == DataTypeEl(ty);
    CountNode(TREE_REF, prefix, DataTypeEl(ty), Leaf(AnnotationsEl(annotations)), rest);
    CountLeaf(TREE_REF, here, AnnotationsEl(annotations));
    assert Current(here + [AnnotationsEl(annotations)]) == AnnotationsEl(annotations);
    if data.Some? {
      CountSingle(TREE_REF, here, DataTypeTree(data.value));
    } else {
      assert Trails(here, rest) == [];
    }
  }

  lemma RefsOfWrapped(prefix: seq<Element>, ty: DataType, inner: DataType)
    requires ty == OptionType(inner) || ty == ListType(inner)
    ensures Count(TREE_REF, Trail(prefix, DataTypeTree(ty)))
         == Count(TREE_REF, Trail(prefix + [DataTypeEl(ty)], DataTypeTree(inner)))
  {
    var here := prefix + [DataTypeEl(ty)];
    assert Current(here) == DataTypeEl(ty);
    assert [DataTypeTree(inner)] + [] == DataTypeTree(ty).children;
    CountNode(TREE_REF, prefix, DataTypeEl(ty), DataTypeTree(inner), []);
  }

  lemma RefsOfField(prefix: seq<Element>, f: Field)
    ensures Count(TREE_REF, Trail(prefix, FieldTree(f))) == RefsInType(f.ty)
  {
    var here := prefix + [FieldEl(f)];
    assert Current(here) == FieldEl(f);
    CountNode(TREE_REF, prefix, FieldEl(f), Leaf(AnnotationsEl(f.annotations)), [DataTypeTree(f.ty)]);
    CountLeaf(TREE_REF, here, AnnotationsEl(f.annotations));
    assert Current(here + [AnnotationsEl(f.annotations)]) == AnnotationsEl(f.annotations);
    CountSingle(TREE_REF, here, DataTypeTree(f.ty));
    RefsOfType(here, f.ty);
  }

  lemma {:induction false} RefsOfFields(prefix: seq<Element>, fields: seq<Field>)
    ensures Count(TREE_REF, Trails(prefix, FieldTrees(fields))) == RefsInFields(fields)
  {
    if fields != [] {
      var rest, last := fields[..|fields| - 1], fields[|fields| - 1];
      RefsOfFields(prefix, rest);
      assert FieldTrees(fields) == FieldTrees(rest) + [FieldTree(last)];
      TrailsSnoc(prefix, FieldTrees(rest), FieldTree(last));
      CountConcat(TREE_REF, Trails(prefix, FieldTrees(rest)), Trail(prefix, FieldTree(last)));
      RefsOfField(prefix, last);
    }
  }

  /** An annotated element that is no type counts only what lies in its other children. */
  lemma RefsOfAnnotated(prefix: seq<Element>, value: Element, a: Annotations, rest: seq<Tree<Element>>)
    requires !value.DataTypeEl?
    ensures Count(TREE_REF, Trail(prefix, Node(value, [Leaf(AnnotationsEl(a))] + rest)))
         == Count(TREE_REF, Trails(prefix + [value], rest))
  {
    var here := prefix + [value];
    assert Current(here) == value && Current(here + [AnnotationsEl(a)]) == AnnotationsEl(a);
    CountNode(TREE_REF, prefix, value, Leaf(AnnotationsEl(a)), rest);
    CountLeaf(TREE_REF, here, AnnotationsEl(a));
  }

  // ---- The tree references of an event and of a record ----------------------

  /** Tree references of the event at node `n`. */
  ghost function OfEvent(n: Node): seq<Element> -> bool {
    c => IsTreeRef(c) && EventAt(c) == Some(n)
  }

  /** Tree references of the record declaration at `path`. */
  ghost function OfRecord(path: Path): seq<Element> -> bool {
    c => IsRecordRef(c) && RecordAt(c) == Some(path)
  }

  /** If only tree `i` of a forest contributes, it alone is counted. */
  lemma {:induction false} CountInForest(p: seq<Element> -> bool, prefix: seq<Element>, ts: seq<Tree<Element>>, i: nat)
    requires i < |ts| && forall k | 0 <= k < |ts| && k != i :: Count(p, Trail(prefix, ts[k])) == 0
    ensures Count(p, Trails(prefix, ts)) == Count(p, Trail(prefix, ts[i]))
  {
    CountConcat(p, Trail(prefix, ts[0]), Trails(prefix, ts[1..]));
    if i > 0 {
      CountInForest(p, prefix, ts[1..], i - 1);
    } else {
      NoneInForest(p, prefix, ts[1..]);
    }
  }

  lemma {:induction false} NoneInForest(p: seq<Element> -> bool, prefix: seq<Element>, ts: seq<Tree<Element>>)
    requires forall k | 0 <= k < |ts| :: Count(p, Trail(prefix, ts[k])) == 0
    ensures Count(p, Trails(prefix, ts)) == 0
  {
    if ts != [] {
      CountConcat(p, Trail(prefix, ts[0]), Trails(prefix, ts[1..]));
      NoneInForest(p, prefix, ts[1..]);
    }
  }

  /** All of a tree's cursors pass through its root. */
  lemma TrailPassesRoot(prefix: seq<Element>, t: Tree<Element>, c: seq<Element>)
    requires c in Trail(prefix, t)
    ensures |c| > |prefix| && prefix <= c && c[|prefix|] == t.value
  {
    TrailHolds(prefix, t, c);
  }

  lemma CountVisits(schema: Schema, p: seq<Element> -> bool)
    requires var here := [SchemaEl(schema)]; !p(here) && !p(here + [AnnotationsEl(schema.annotations)])
    ensures var here := [SchemaEl(schema)];
            Count(p, Visits(schema)) ==
            Count(p, Trails(here, EntityTrees(schema.entities))) + Count(p, Trails(here, RecordTrees(schema.records)))
  {
    var here, first := [SchemaEl(schema)], Leaf(AnnotationsEl(schema.annotations));
    var es, rs := Trails(here, EntityTrees(schema.entities)), Trails(here, RecordTrees(schema.records));
    VisitsOfSchema(schema);
    CountConcat(p, [here] + Trail(here, first) + es, rs);
    CountConcat(p, [here] + Trail(here, first), es);
    CountConcat(p, [here], Trail(here, first));
    CountOne(p, here);
    CountLeaf(p, here, AnnotationsEl(schema.annotations));
  }

  lemma EventsOfOthers(schema: Schema, n: Node, e: Entity)
    requires n.EventNode? && n.entity != e.path
    ensures Count(OfEvent(n), Trail([SchemaEl(schema)], EntityTree(e))) == 0
  {
    var cursors := Trail([SchemaEl(schema)], EntityTree(e));
    forall c | c in cursors ensures !OfEvent(n)(c) {
      TrailPassesRoot([SchemaEl(schema)], EntityTree(e), c);
    }
    CountNone(OfEvent(n), cursors);
  }

  lemma EventsOfRecords(schema: Schema, n: Node, r: Record)
    ensures Count(OfEvent(n), Trail([SchemaEl(schema)], RecordTree(r))) == 0
  {
    var cursors := Trail([SchemaEl(schema)], RecordTree(r));
    forall c | c in cursors ensures !OfEvent(n)(c) {
      TrailPassesRoot([SchemaEl(schema)], RecordTree(r), c);
    }
    CountNone(OfEvent(n), cursors);
  }

  lemma RefsOfEvent(schema: Schema, e: Entity, ev: Event)
    ensures Count(OfEvent(EventNode(e.path, ev.name)), Trail([SchemaEl(schema), EntityEl(e)], EventTree(ev)))
         == RefsInFields(ev.fields)
  {
    var n, prefix := EventNode(e.path, ev.name), [SchemaEl(schema), EntityEl(e)];
    var cursors := Trail(prefix, EventTree(ev));
    forall c | c in cursors ensures OfEvent(n)(c) <==> TREE_REF(c) {
      TrailPassesRoot(prefix, EventTree(ev), c);
      assert c[1] == prefix[1];
    }
    CountAgrees(OfEvent(n), TREE_REF, cursors);
    RefsOfAnnotated(prefix, EventEl(ev), ev.annotations, FieldTrees(ev.fields));
    RefsOfFields(prefix + [EventEl(ev)], ev.fields);
  }

  lemma OtherEvent(schema: Schema, e: Entity, ev: Event, name: Identifier)
    requires ev.name != name
    ensures Count(OfEvent(EventNode(e.path, name)), Trail([SchemaEl(schema), EntityEl(e)], EventTree(ev))) == 0
  {
    var n, prefix := EventNode(e.path, name), [SchemaEl(schema), EntityEl(e)];
    var cursors := Trail(prefix, EventTree(ev));
    forall c | c in cursors ensures !OfEvent(n)(c) {
      TrailPassesRoot(prefix, EventTree(ev), c);
      assert c[1] == prefix[1];
    }
    CountNone(OfEvent(n), cursors);
  }

  lemma RefsOfEventInEntity(schema: Schema, e: Entity, k: nat)
    requires UniqueEvents(e.events) && k < |e.events|
    ensures Count(OfEvent(EventNode(e.path, e.events[k].name)), Trail([SchemaEl(schema)], EntityTree(e)))
         == RefsInFields(e.events[k].fields)
  {
    var n, here := EventNode(e.path, e.events[k].name), [SchemaEl(schema)];
    var p, inside, trees := OfEvent(n), [SchemaEl(schema), EntityEl(e)], EventTrees(e.events);
    assert here + [EntityEl(e)] == inside;
    CountNode(p, here, EntityEl(e), Leaf(AnnotationsEl(e.annotations)), trees);
    CountLeaf(p, inside, AnnotationsEl(e.annotations));
    assert Current(inside + [AnnotationsEl(e.annotations)]) == AnnotationsEl(e.annotations);
    forall j | 0 <= j < |trees| && j != k ensures Count(p, Trail(inside, trees[j])) == 0 {
      OtherEvent(schema, e, e.events[j], e.events[k].name);
    }
    CountInForest(p, inside, trees, k);
    RefsOfEvent(schema, e, e.events[k]);
  }

  /** The visits that show tree references of an event number the tree references in
      its field types. */
  lemma RefsOfEventInSchema(schema: Schema, e: Entity, ev: Event)
    requires WellFormed(schema) && e in schema.entities && ev in e.events
    ensures Count(OfEvent(EventNode(e.path, ev.name)), Visits(schema)) == RefsInFields(ev.fields)
  {
    var n, here := EventNode(e.path, ev.name), [SchemaEl(schema)];
    var es, rs := EntityTrees(schema.entities), RecordTrees(schema.records);
    var i :| 0 <= i < |schema.entities| && schema.entities[i] == e;
    var k :| 0 <= k < |e.events| && e.events[k] == ev;
    forall j | 0 <= j < |es| && j != i ensures Count(OfEvent(n), Trail(here, es[j])) == 0 {
      EventsOfOthers(schema, n, schema.entities[j]);
    }
    forall j | 0 <= j < |rs| ensures Count(OfEvent(n), Trail(here, rs[j])) == 0 {
      EventsOfRecords(schema, n, schema.records[j]);
    }
    CountVisits(schema, OfEvent(n));
    CountInForest(OfEvent(n), here, es, i);
    NoneInForest(OfEvent(n), here, rs);
    RefsOfEventInEntity(schema, e, k);
  }

  lemma OtherTree(schema: Schema, path: Path, t: Tree<Element>)
    requires !t.value.SchemaEl? && (t.value.RecordEl? ==> t.value.record.path != path)
    ensures Count(OfRecord(path), Trail([SchemaEl(schema)], t)) == 0
  {
    var cursors := Trail([SchemaEl(schema)], t);
    forall c | c in cursors ensures !OfRecord(path)(c) {
      TrailPassesRoot([SchemaEl(schema)], t, c);
    }
    CountNone(OfRecord(path), cursors);
  }

  lemma RefsOfRecord(schema: Schema, r: Record)
    ensures Count(OfRecord(r.path), Trail([SchemaEl(schema)], RecordTree(r))) == RefsInFields(r.fields)
  {
    var here := [SchemaEl(schema)];
    var cursors := Trail(here, RecordTree(r));
    forall c | c in cursors ensures OfRecord(r.path)(c) <==> TREE_REF(c) {
      TrailPassesRoot(here, RecordTree(r), c);
    }
    CountAgrees(OfRecord(r.path), TREE_REF, cursors);
    RefsOfAnnotated(here, RecordEl(r), r.annotations, FieldTrees(r.fields));
    RefsOfFields(here + [RecordEl(r)], r.fields);
  }

  /** The tree references in the fields of the record declared at `path`, if any is. */
  ghost function RefsAt(schema: Schema, path: Path): nat {
    if HasRecord(schema, path) then RefsInFields(RecordOf(schema, path).fields) else 0
  }

  lemma RefsOfRecordInSchema(schema: Schema, path: Path)
    requires WellFormed(schema)
    ensures Count(OfRecord(path), Visits(schema)) == RefsAt(schema, path)
  {
    var here, es, rs := [SchemaEl(schema)], EntityTrees(schema.entities), RecordTrees(schema.records);
    forall j | 0 <= j < |es| ensures Count(OfRecord(path), Trail(here, es[j])) == 0 {
      OtherTree(schema, path, es[j]);
    }
    forall j | 0 <= j < |rs| && schema.records[j].path != path ensures Count(OfRecord(path), Trail(here, rs[j])) == 0 {
      OtherTree(schema, path, rs[j]);
    }
    CountVisits(schema, OfRecord(path));
    NoneInForest(OfRecord(path), here, es);
    if HasRecord(schema, path) {
      var r := RecordOf(schema, path);
      var i :| 0 <= i < |schema.records| && schema.records[i] == r;
      CountInForest(OfRecord(path), here, rs, i);
      RefsOfRecord(schema, r);
    } else {
      NoneInForest(OfRecord(path), here, rs);
    }
  }

  // ---- Arcs count references ------------------------------------------------

  lemma {:induction false} DirectRefsConcat(a: Arcs, b: Arcs, n: Node)
    ensures DirectRefs(a + b, n) == DirectRefs(a, n) + DirectRefs(b, n)
  {
    if a == [] {
      assert a + b == b;
    } else {
      assert (a + b)[1..] == a[1..] + b;
      DirectRefsConcat(a[1..], b, n);
    }
  }

  lemma {:induction false} ArcsCountRefs(cursors: seq<seq<Element>>, p: seq<Element> -> bool, n: Node)
    requires forall c | c in cursors :: DirectRefs(ArcsAt(c), n) == if p(c) then 1 else 0
    ensures DirectRefs(ArcsOf(cursors), n) == Count(p, cursors)
  {
    if cursors != [] {
      ArcsCountRefs(cursors[..|cursors| - 1], p, n);
      DirectRefsConcat(ArcsOf(cursors[..|cursors| - 1]), ArcsAt(cursors[|cursors| - 1]), n);
    }
  }

  lemma ArcOfVisit(c: seq<Element>, n: Node)
    requires IsTreeRef(c) ==> IsTargeted(c)
    ensures n.EventNode? ==> DirectRefs(ArcsAt(c), n) == if OfEvent(n)(c) then 1 else 0
    ensures n.RecordNode? ==> DirectRefs(ArcsAt(c), n) == if OfRecord(n.path)(c) then 1 else 0
  {
    if ArcsAt(c) != [] {
      assert ArcsAt(c)[1..] == [];
    }
  }

  lemma DirectRefsOfEvent(schema: Schema, e: Entity, ev: Event)
    requires WellFormed(schema) && AllTargeted(Visits(schema)) && e in schema.entities && ev in e.events
    ensures DirectRefs(ArcsOf(Visits(schema)), EventNode(e.path, ev.name)) == RefsInFields(ev.fields)
  {
    var n := EventNode(e.path, ev.name);
    forall c | c in Visits(schema) ensures DirectRefs(ArcsAt(c), n) == if OfEvent(n)(c) then 1 else 0 {
      ArcOfVisit(c, n);
    }
    ArcsCountRefs(Visits(schema), OfEvent(n), n);
    RefsOfEventInSchema(schema, e, ev);
  }

  lemma DirectRefsOfRecord(schema: Schema, path: Path)
    requires WellFormed(schema) && AllTargeted(Visits(schema))
    ensures DirectRefs(ArcsOf(Visits(schema)), RecordNode(path)) == RefsAt(schema, path)
  {
    var n := RecordNode(path);
    forall c | c in Visits(schema) ensures DirectRefs(ArcsAt(c), n) == if OfRecord(path)(c) then 1 else 0 {
      ArcOfVisit(c, n);
    }
    ArcsCountRefs(Visits(schema), OfRecord(path), n);
    RefsOfRecordInSchema(schema, path);
  }
}
