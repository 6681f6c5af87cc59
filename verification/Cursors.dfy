/** Which cursors a walk presents, read off the schema itself. */
module Cursors {
  import opened SchemaModel
  import opened Trees
  import opened Walk

  /** `d` leads from a field's type down to a part of it or to the annotations of
      an entity reference in it. */
  ghost predicate InType(ty: DataType, d: seq<Element>) {
    && d != [] && d[0] == DataTypeEl(ty)
    && (|d| == 1 ||
        match ty
        case OptionType(inner) => InType(inner, d[1..])
        case ListType(inner) => InType(inner, d[1..])
        case EntityRef(data, annotations) =>
          d[1..] == [AnnotationsEl(annotations)] || (data.Some? && InType(data.value, d[1..]))
        case _ => false)
  }

  ghost predicate InField(field: Field, d: seq<Element>) {
    && d != [] && d[0] == FieldEl(field)
    && (|d| == 1 || d[1..] == [AnnotationsEl(field.annotations)] || InType(field.ty, d[1..]))
  }

  ghost predicate InEvent(event: Event, d: seq<Element>) {
    && d != [] && d[0] == EventEl(event)
    && (|d| == 1 || d[1..] == [AnnotationsEl(event.annotations)] ||
        exists f :: f in event.fields && InField(f, d[1..]))
  }

  ghost predicate InEntity(entity: Entity, d: seq<Element>) {
    && d != [] && d[0] == EntityEl(entity)
    && (|d| == 1 || d[1..] == [AnnotationsEl(entity.annotations)] ||
        exists ev :: ev in entity.events && InEvent(ev, d[1..]))
  }

  ghost predicate InRecord(record: Record, d: seq<Element>) {
    && d != [] && d[0] == RecordEl(record)
    && (|d| == 1 || d[1..] == [AnnotationsEl(record.annotations)] ||
        exists f :: f in record.fields && InField(f, d[1..]))
  }

  ghost predicate InSchema(schema: Schema, c: seq<Element>) {
    && c != [] && c[0] == SchemaEl(schema)
    && (|c| == 1 || c[1..] == [AnnotationsEl(schema.annotations)] ||
        (exists e :: e in schema.entities && InEntity(e, c[1..])) ||
        (exists r :: r in schema.records && InRecord(r, c[1..])))
  }

  lemma LeafDescends(e: Element, d: seq<Element>)
    ensures Descends(Leaf(e), d) <==> d == [e]
  {}

  lemma {:induction false} TypeDescends(ty: DataType, d: seq<Element>)
    ensures Descends(DataTypeTree(ty), d) <==> InType(ty, d)
  {
    if |d| > 1 {
      var t := DataTypeTree(ty);
      match ty {
        case OptionType(inner) => TypeDescends(inner, d[1..]); assert t.children[0] == DataTypeTree(inner);
        case ListType(inner) => TypeDescends(inner, d[1..]); assert t.children[0] == DataTypeTree(inner);
        case EntityRef(data, annotations) =>
          LeafDescends(AnnotationsEl(annotations), d[1..]);
          assert t.children[0] == Leaf(AnnotationsEl(annotations));
          if data.Some? {
            TypeDescends(data.value, d[1..]);
            assert t.children[1] == DataTypeTree(data.value);
          }
        case _ =>
      }
    }
  }

  lemma FieldDescends(field: Field, d: seq<Element>)
    ensures Descends(FieldTree(field), d) <==> InField(field, d)
  {
    if |d| > 1 {
      var t := FieldTree(field);
      LeafDescends(AnnotationsEl(field.annotations), d[1..]);
      TypeDescends(field.ty, d[1..]);
      assert t.children[0] == Leaf(AnnotationsEl(field.annotations)) && t.children[1] == DataTypeTree(field.ty);
    }
  }

  /** A node whose first child is its annotations and whose other children are `rest`. */
  lemma NodeDescends(value: Element, a: Annotations, rest: seq<Tree<Element>>, d: seq<Element>)
    ensures Descends(Node(value, [Leaf(AnnotationsEl(a))] + rest), d) <==>
            d != [] && d[0] == value &&
            (|d| == 1 || d[1..] == [AnnotationsEl(a)] || exists k :: 0 <= k < |rest| && Descends(rest[k], d[1..]))
  {
    var t := Node(value, [Leaf(AnnotationsEl(a))] + rest);
    if |d| > 1 {
      LeafDescends(AnnotationsEl(a), d[1..]);
      assert t.children[0] == Leaf(AnnotationsEl(a));
      assert forall k | 0 <= k < |rest| :: t.children[k + 1] == rest[k];
      assert forall k | 1 <= k < |t.children| :: t.children[k] == rest[k - 1];
    }
  }

  lemma FieldsDescend(fields: seq<Field>, d: seq<Element>)
    ensures (exists k :: 0 <= k < |fields| && Descends(FieldTrees(fields)[k], d)) <==>
            exists f :: f in fields && InField(f, d)
  {
    forall k | 0 <= k < |fields|
      ensures Descends(FieldTrees(fields)[k], d) <==> InField(fields[k], d)
    {
      FieldDescends(fields[k], d);
    }
    if f :| f in fields && InField(f, d) {
      var k :| 0 <= k < |fields| && fields[k] == f;
      assert Descends(FieldTrees(fields)[k], d);
    }
  }

  lemma EventDescends(event: Event, d: seq<Element>)
    ensures Descends(EventTree(event), d) <==> InEvent(event, d)
  {
    NodeDescends(EventEl(event), event.annotations, FieldTrees(event.fields), d);
    if d != [] { FieldsDescend(event.fields, d[1..]); }
  }

  lemma EventsDescend(events: seq<Event>, d: seq<Element>)
    ensures (exists k :: 0 <= k < |events| && Descends(EventTrees(events)[k], d)) <==>
            exists ev :: ev in events && InEvent(ev, d)
  {
    forall k | 0 <= k < |events|
      ensures Descends(EventTrees(events)[k], d) <==> InEvent(events[k], d)
    {
      EventDescends(events[k], d);
    }
    if ev :| ev in events && InEvent(ev, d) {
      var k :| 0 <= k < |events| && events[k] == ev;
      assert Descends(EventTrees(events)[k], d);
    }
  }

  lemma EntityDescends(entity: Entity, d: seq<Element>)
    ensures Descends(EntityTree(entity), d) <==> InEntity(entity, d)
  {
    NodeDescends(EntityEl(entity), entity.annotations, EventTrees(entity.events), d);
    if d != [] { EventsDescend(entity.events, d[1..]); }
  }

  lemma RecordDescends(record: Record, d: seq<Element>)
    ensures Descends(RecordTree(record), d) <==> InRecord(record, d)
  {
    NodeDescends(RecordEl(record), record.annotations, FieldTrees(record.fields), d);
    if d != [] { FieldsDescend(record.fields, d[1..]); }
  }

  lemma EntitiesDescend(entities: seq<Entity>, d: seq<Element>)
    ensures (exists k :: 0 <= k < |entities| && Descends(EntityTrees(entities)[k], d)) <==>
            exists e :: e in entities && InEntity(e, d)
  {
    forall k | 0 <= k < |entities|
      ensures Descends(EntityTrees(entities)[k], d) <==> InEntity(entities[k], d)
    {
      EntityDescends(entities[k], d);
    }
    if e :| e in entities && InEntity(e, d) {
      var k :| 0 <= k < |entities| && entities[k] == e;
      assert Descends(EntityTrees(entities)[k], d);
    }
  }

  lemma RecordsDescend(records: seq<Record>, d: seq<Element>)
    ensures (exists k :: 0 <= k < |records| && Descends(RecordTrees(records)[k], d)) <==>
            exists r :: r in records && InRecord(r, d)
  {
    forall k | 0 <= k < |records|
      ensures Descends(RecordTrees(records)[k], d) <==> InRecord(records[k], d)
    {
      RecordDescends(records[k], d);
    }
    if r :| r in records && InRecord(r, d) {
      var k :| 0 <= k < |records| && records[k] == r;
      assert Descends(RecordTrees(records)[k], d);
    }
  }

  lemma EitherDescends(ts: seq<Tree<Element>>, us: seq<Tree<Element>>, d: seq<Element>)
    ensures (exists k :: 0 <= k < |ts + us| && Descends((ts + us)[k], d)) <==>
            (exists k :: 0 <= k < |ts| && Descends(ts[k], d)) || (exists k :: 0 <= k < |us| && Descends(us[k], d))
  {
    if k :| 0 <= k < |ts| && Descends(ts[k], d) {
      assert (ts + us)[k] == ts[k];
    }
    if k :| 0 <= k < |us| && Descends(us[k], d) {
      assert (ts + us)[|ts| + k] == us[k];
    }
    if k :| 0 <= k < |ts + us| && Descends((ts + us)[k], d) {
      assert if k < |ts| then (ts + us)[k] == ts[k] else (ts + us)[k] == us[k - |ts|];
    }
  }

  /** The walk presents exactly the cursors that lead to an element of the schema. */
  lemma VisitedIffInSchema(schema: Schema, c: seq<Element>)
    ensures c in Visits(schema) <==> InSchema(schema, c)
  {
    TrailHolds([], SchemaTree(schema), c);
    assert c[0..] == c;
    var es, rs := EntityTrees(schema.entities), RecordTrees(schema.records);
    var first := Leaf(AnnotationsEl(schema.annotations));
    assert [first] + es + rs == [first] + (es + rs);
    NodeDescends(SchemaEl(schema), schema.annotations, es + rs, c);
    if c != [] {
      EitherDescends(es, rs, c[1..]);
      EntitiesDescend(schema.entities, c[1..]);
      RecordsDescend(schema.records, c[1..]);
    }
  }

  // ---- Which elements lie where ---------------------------------------------

  lemma {:induction false} EndOfType(ty: DataType, d: seq<Element>)
    requires InType(ty, d)
    ensures Current(d).DataTypeEl? || Current(d).AnnotationsEl?
  {
    if |d| > 1 {
      match ty {
        case OptionType(inner) => EndOfType(inner, d[1..]);
        case ListType(inner) => EndOfType(inner, d[1..]);
        case EntityRef(data, annotations) =>
          if d[1..] == [AnnotationsEl(annotations)] {
            assert Current(d) == d[1..][0];
          } else {
            EndOfType(data.value, d[1..]);
          }
        case _ =>
      }
    }
  }

  lemma EndOfField(field: Field, d: seq<Element>)
    requires InField(field, d)
    ensures Current(d).FieldEl? || Current(d).DataTypeEl? || Current(d).AnnotationsEl?
    ensures Current(d).DataTypeEl? ==> |d| >= 2
  {
    if |d| > 1 {
      assert Current(d) == Current(d[1..]);
      if d[1..] != [AnnotationsEl(field.annotations)] {
        EndOfType(field.ty, d[1..]);
      }
    }
  }

  /** Where on a cursor each kind of element lies. */
  ghost predicate Shaped(schema: Schema, c: seq<Element>) {
    && c != [] && c[0] == SchemaEl(schema)
    && (Current(c).SchemaEl? ==> |c| == 1)
    && (Current(c).EntityEl? ==> |c| == 2)
    && (Current(c).RecordEl? ==> |c| == 2)
    && (Current(c).EventEl? ==> |c| == 3 && c[1].EntityEl?)
    && (Current(c).DataTypeEl? ==> |c| >= 4 && ((c[1].EntityEl? && c[2].EventEl?) || (c[1].RecordEl? && c[2].FieldEl?)))
    && (|c| >= 2 && c[1].EntityEl? ==> c[1].entity in schema.entities)
    && (|c| >= 2 && c[1].RecordEl? ==> c[1].record in schema.records)
    && (|c| >= 3 && c[1].EntityEl? && c[2].EventEl? ==> c[2].event in c[1].entity.events)
  }

  lemma CursorShape(schema: Schema, c: seq<Element>)
    requires c in Visits(schema)
    ensures Shaped(schema, c)
  {
    VisitedIffInSchema(schema, c);
    if |c| > 1 && c[1..] != [AnnotationsEl(schema.annotations)] {
      var d := c[1..];
      assert Current(c) == Current(d) && c[1] == d[0];
      if e :| e in schema.entities && InEntity(e, d) {
        EndOfEntity(e, d);
      } else {
        var r :| r in schema.records && InRecord(r, d);
        EndOfRecord(r, d);
      }
    }
  }

  lemma EndOfEntity(entity: Entity, d: seq<Element>)
    requires InEntity(entity, d)
    ensures !Current(d).SchemaEl? && !Current(d).RecordEl? && (Current(d).EntityEl? ==> |d| == 1)
    ensures Current(d).EventEl? ==> |d| == 2
    ensures Current(d).DataTypeEl? ==> |d| >= 4 && d[1].EventEl?
    ensures |d| >= 2 && d[1].EventEl? ==> d[1].event in entity.events
  {
    if |d| > 1 {
      var x := d[1..];
      assert Current(d) == Current(x) && d[1] == x[0];
      if x != [AnnotationsEl(entity.annotations)] {
        var ev :| ev in entity.events && InEvent(ev, x);
        if |x| > 1 {
          var y := x[1..];
          assert Current(x) == Current(y);
          if y != [AnnotationsEl(ev.annotations)] {
            var f :| f in ev.fields && InField(f, y);
            EndOfField(f, y);
          }
        }
      }
    }
  }

  lemma EndOfRecord(record: Record, d: seq<Element>)
    requires InRecord(record, d)
    ensures !Current(d).SchemaEl? && !Current(d).EntityEl? && !Current(d).EventEl?
    ensures Current(d).RecordEl? ==> |d| == 1
    ensures Current(d).DataTypeEl? ==> |d| >= 3 && d[1].FieldEl?
  {
    if |d| > 1 {
      var x := d[1..];
      assert Current(d) == Current(x) && d[1] == x[0];
      if x != [AnnotationsEl(record.annotations)] {
        var f :| f in record.fields && InField(f, x);
        EndOfField(f, x);
      }
    }
  }

  /** The schema itself is visited first, and only then. */
  lemma SchemaVisitedFirst(schema: Schema)
    ensures Visits(schema) != [] && Visits(schema)[0] == [SchemaEl(schema)]
    ensures forall i | 0 < i < |Visits(schema)| :: Visits(schema)[i] != [] && !Current(Visits(schema)[i]).SchemaEl?
  {
    VisitsOfSchema(schema);
    var here, visits := [SchemaEl(schema)], Visits(schema);
    var first := Leaf(AnnotationsEl(schema.annotations));
    var es, rs := EntityTrees(schema.entities), RecordTrees(schema.records);
    forall i | 0 < i < |visits| ensures visits[i] != [] && !Current(visits[i]).SchemaEl? {
      var c := visits[i];
      CursorShape(schema, c);
      TrailHolds(here, first, c);
      TrailsHold(here, es, c);
      TrailsHold(here, rs, c);
      assert c in Trail(here, first) || c in Trails(here, es) || c in Trails(here, rs);
      assert |c| > 1;
    }
  }

  lemma EntityHasCursor(schema: Schema, entity: Entity)
    requires entity in schema.entities
    ensures [SchemaEl(schema), EntityEl(entity)] in Visits(schema)
  {
    var c := [SchemaEl(schema), EntityEl(entity)];
    assert InEntity(entity, c[1..]);
    VisitedIffInSchema(schema, c);
  }

  lemma EventHasCursor(schema: Schema, e: Entity, ev: Event)
    requires e in schema.entities && ev in e.events
    ensures [SchemaEl(schema), EntityEl(e), EventEl(ev)] in Visits(schema)
  {
    var c := [SchemaEl(schema), EntityEl(e), EventEl(ev)];
    assert InEvent(ev, c[1..][1..]);
    assert InEntity(e, c[1..]);
    VisitedIffInSchema(schema, c);
  }

  lemma RecordHasCursor(schema: Schema, record: Record)
    requires record in schema.records
    ensures [SchemaEl(schema), RecordEl(record)] in Visits(schema)
  {
    var c := [SchemaEl(schema), RecordEl(record)];
    assert InRecord(record, c[1..]);
    VisitedIffInSchema(schema, c);
  }

  lemma EventFieldCursor(schema: Schema, e: Entity, ev: Event, f: Field, d: seq<Element>) returns (c: seq<Element>)
    requires e in schema.entities && ev in e.events && f in ev.fields && InField(f, d)
    ensures c == [SchemaEl(schema), EntityEl(e), EventEl(ev)] + d && c in Visits(schema) && Current(c) == Current(d)
  {
    c := [SchemaEl(schema), EntityEl(e), EventEl(ev)] + d;
    assert c[1..] == [EntityEl(e), EventEl(ev)] + d && c[1..][1..] == [EventEl(ev)] + d && c[1..][1..][1..] == d;
    assert InEvent(ev, c[1..][1..]);
    assert InEntity(e, c[1..]);
    VisitedIffInSchema(schema, c);
  }

  lemma RecordFieldCursor(schema: Schema, r: Record, f: Field, d: seq<Element>) returns (c: seq<Element>)
    requires r in schema.records && f in r.fields && InField(f, d)
    ensures c == [SchemaEl(schema), RecordEl(r)] + d && c in Visits(schema) && Current(c) == Current(d)
  {
    c := [SchemaEl(schema), RecordEl(r)] + d;
    assert c[1..] == [RecordEl(r)] + d && c[1..][1..] == d;
    assert InRecord(r, c[1..]);
    VisitedIffInSchema(schema, c);
  }

  lemma {:induction false} DescendsPrefix(t: Tree<Element>, d: seq<Element>, k: nat)
    requires Descends(t, d) && 0 < k <= |d|
    ensures Descends(t, d[..k])
    decreases t
  {
    if k > 1 {
      var i :| 0 <= i < |t.children| && Descends(t.children[i], d[1..]);
      DescendsPrefix(t.children[i], d[1..], k - 1);
      assert d[..k][1..] == d[1..][..k - 1];
    }
  }

  /** Whatever a cursor passes through has been visited too. */
  lemma PrefixVisited(schema: Schema, c: seq<Element>, k: nat)
    requires c in Visits(schema) && 0 < k <= |c|
    ensures c[..k] in Visits(schema)
  {
    TrailHolds([], SchemaTree(schema), c);
    TrailHolds([], SchemaTree(schema), c[..k]);
    assert c[0..] == c && c[..k][0..] == c[..k];
    DescendsPrefix(SchemaTree(schema), c, k);
  }

  lemma TypeInRecord(r: Record, x: seq<Element>) returns (f: Field)
    requires InRecord(r, x) && |x| >= 3 && Current(x).DataTypeEl?
    ensures f in r.fields && InField(f, x[1..]) && Current(x[1..]) == Current(x)
  {
    assert Current(x[1..]) == Current(x) && |x[1..]| >= 2;
    f :| f in r.fields && InField(f, x[1..]);
  }

  lemma TypeInEntity(e: Entity, x: seq<Element>) returns (ev: Event, f: Field)
    requires InEntity(e, x) && |x| >= 3 && Current(x).DataTypeEl?
    ensures ev in e.events && x[1] == EventEl(ev)
    ensures f in ev.fields && InField(f, x[2..]) && Current(x[2..]) == Current(x)
  {
    var y := x[1..];
    assert Current(y) == Current(x) && |y| >= 2 && y[0] == x[1];
    ev :| ev in e.events && InEvent(ev, y);
    var z := y[1..];
    assert z == x[2..] && Current(z) == Current(y);
    f :| f in ev.fields && InField(f, z);
  }
}
