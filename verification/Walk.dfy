/** The walk over a schema that feeds every validation visitor. */
module Walk {
  import opened SchemaModel
  import opened Trees

  // ---- The element tree -----------------------------------------------------

  /** Under every annotated element its annotations come first; a reference to a
      record is a leaf. */
  function DataTypeTree(ty: DataType): Tree<Element> {
    Node(DataTypeEl(ty),
         match ty
         case OptionType(inner) => [DataTypeTree(inner)]
         case ListType(inner) => [DataTypeTree(inner)]
         case EntityRef(data, annotations) =>
           [Leaf(AnnotationsEl(annotations))] + (if data.Some? then [DataTypeTree(data.value)] else [])
         case _ => [])
  }

  function FieldTree(field: Field): Tree<Element> {
    Node(FieldEl(field), [Leaf(AnnotationsEl(field.annotations)), DataTypeTree(field.ty)])
  }

  function FieldTrees(fields: seq<Field>): seq<Tree<Element>> {
    seq(|fields|, i requires 0 <= i < |fields| => FieldTree(fields[i]))
  }

  function EventTree(event: Event): Tree<Element> {
    Node(EventEl(event), [Leaf(AnnotationsEl(event.annotations))] + FieldTrees(event.fields))
  }

  function EventTrees(events: seq<Event>): seq<Tree<Element>> {
    seq(|events|, i requires 0 <= i < |events| => EventTree(events[i]))
  }

  function EntityTree(entity: Entity): Tree<Element> {
    Node(EntityEl(entity), [Leaf(AnnotationsEl(entity.annotations))] + EventTrees(entity.events))
  }

  function EntityTrees(entities: seq<Entity>): seq<Tree<Element>> {
    seq(|entities|, i requires 0 <= i < |entities| => EntityTree(entities[i]))
  }

  function RecordTree(record: Record): Tree<Element> {
    Node(RecordEl(record), [Leaf(AnnotationsEl(record.annotations))] + FieldTrees(record.fields))
  }

  function RecordTrees(records: seq<Record>): seq<Tree<Element>> {
    seq(|records|, i requires 0 <= i < |records| => RecordTree(records[i]))
  }

  function SchemaTree(schema: Schema): Tree<Element> {
    Node(SchemaEl(schema),
         [Leaf(AnnotationsEl(schema.annotations))] + EntityTrees(schema.entities) + RecordTrees(schema.records))
  }

  /** The cursors a walk presents, in order. */
  function Visits(schema: Schema): seq<seq<Element>> {
    Trail([], SchemaTree(schema))
  }

  // ---- Visitors -------------------------------------------------------------

  /** The state of a visitor after it has been shown `cursors`, oldest first. */
  function Fold<S>(step: (S, seq<Element>) -> S, start: S, cursors: seq<seq<Element>>): S {
    if cursors == [] then start
    else step(Fold(step, start, cursors[..|cursors| - 1]), cursors[|cursors| - 1])
  }

  /** Nothing shown leaves the start; what is shown last acts on the state before. */
  lemma FoldSnoc<S>(step: (S, seq<Element>) -> S, start: S, cursors: seq<seq<Element>>, c: seq<Element>)
    ensures Fold(step, start, []) == start
    ensures Fold(step, start, cursors + [c]) == step(Fold(step, start, cursors), c)
  {
    assert (cursors + [c])[..|cursors|] == cursors;
  }

  /** A visitor: a state, and how one visit changes it. */
  class Visitor<S> {
    const step: (S, seq<Element>) -> S
    ghost const start: S
    var state: S
    ghost var seen: seq<seq<Element>>

    ghost predicate Valid()
      reads this
    {
      state == Fold(step, start, seen)
    }

    constructor (start: S, step: (S, seq<Element>) -> S)
      ensures Valid() && this.start == start && this.step == step && seen == []
    {
      this.start, this.state, this.step, this.seen := start, start, step, [];
    }

    method Visit(cursor: CursorStack)
      requires Valid()
      modifies this
      ensures Valid() && seen == old(seen) + [cursor.elements]
      ensures state == step(old(state), cursor.elements)
    {
      state := step(state, cursor.elements);
      seen := seen + [cursor.elements];
      assert seen[..|seen| - 1] == old(seen);
    }
  }

  /** The stack of elements from the schema to the element being visited. */
  class CursorStack {
    var elements: seq<Element>

    constructor (schema: Schema)
      ensures elements == [SchemaEl(schema)]
    {
      elements := [SchemaEl(schema)];
    }

    method Enter(element: Element)
      modifies this
      ensures elements == old(elements) + [element]
    {
      elements := elements + [element];
    }

    method Leave()
      requires elements != []
      modifies this
      ensures elements == old(elements)[..|old(elements)| - 1]
    {
      elements := elements[..|elements| - 1];
    }
  }

  // ---- The walk -------------------------------------------------------------

  method WalkAnnotations<S>(cursor: CursorStack, visitor: Visitor<S>, annotations: Annotations)
    requires visitor.Valid()
    modifies cursor, visitor
    ensures visitor.Valid() && cursor.elements == old(cursor.elements)
    ensures visitor.seen == old(visitor.seen) + Trail(old(cursor.elements), Leaf(AnnotationsEl(annotations)))
  {
    cursor.Enter(AnnotationsEl(annotations));
    visitor.Visit(cursor);
    cursor.Leave();
  }

  method WalkDataType<S>(cursor: CursorStack, visitor: Visitor<S>, ty: DataType)
    requires visitor.Valid()
    modifies cursor, visitor
    ensures visitor.Valid() && cursor.elements == old(cursor.elements)
    ensures visitor.seen == old(visitor.seen) + Trail(old(cursor.elements), DataTypeTree(ty))
    decreases ty
  {
    ghost var base, prefix := visitor.seen, cursor.elements;
    ghost var here := prefix + [DataTypeEl(ty)];
    cursor.Enter(DataTypeEl(ty));
    visitor.Visit(cursor);
    match ty {
      case OptionType(inner) =>
        WalkDataType(cursor, visitor, inner);
        TrailOfNode(base, prefix, DataTypeEl(ty), DataTypeTree(inner), []);
        assert [DataTypeTree(inner)] + [] == DataTypeTree(ty).children;
      case ListType(inner) =>
        WalkDataType(cursor, visitor, inner);
        TrailOfNode(base, prefix, DataTypeEl(ty), DataTypeTree(inner), []);
        assert [DataTypeTree(inner)] + [] == DataTypeTree(ty).children;
      case EntityRef(data, annotations) =>
        ghost var first := Leaf(AnnotationsEl(annotations));
        WalkAnnotations(cursor, visitor, annotations);
        if data.Some? {
          WalkDataType(cursor, visitor, data.value);
          TrailsSnoc(here, [], DataTypeTree(data.value));
          TrailOfNode(base, prefix, DataTypeEl(ty), first, [DataTypeTree(data.value)]);
        } else {
          TrailOfNode(base, prefix, DataTypeEl(ty), first, []);
          assert [first] + [] == DataTypeTree(ty).children;
        }
      case _ =>
        assert Trails(here, DataTypeTree(ty).children) == [];
    }
    cursor.Leave();
  }

  method WalkField<S>(cursor: CursorStack, visitor: Visitor<S>, field: Field)
    requires visitor.Valid()
    modifies cursor, visitor
    ensures visitor.Valid() && cursor.elements == old(cursor.elements)
    ensures visitor.seen == old(visitor.seen) + Trail(old(cursor.elements), FieldTree(field))
  {
    ghost var base, prefix := visitor.seen, cursor.elements;
    ghost var here := prefix + [FieldEl(field)];
    cursor.Enter(FieldEl(field));
    visitor.Visit(cursor);
    WalkAnnotations(cursor, visitor, field.annotations);
    WalkDataType(cursor, visitor, field.ty);
    TrailsSnoc(here, [], DataTypeTree(field.ty));
    TrailOfNode(base, prefix, FieldEl(field), Leaf(AnnotationsEl(field.annotations)), [DataTypeTree(field.ty)]);
    cursor.Leave();
  }

  method WalkFields<S>(cursor: CursorStack, visitor: Visitor<S>, fields: seq<Field>)
    requires visitor.Valid()
    modifies cursor, visitor
    ensures visitor.Valid() && cursor.elements == old(cursor.elements)
    ensures visitor.seen == old(visitor.seen) + Trails(old(cursor.elements), FieldTrees(fields))
  {
    ghost var base, here, trees := visitor.seen, cursor.elements, FieldTrees(fields);
    for i := 0 to |fields|
      invariant visitor.Valid() && cursor.elements == here
      invariant visitor.seen == base + Trails(here, trees[..i])
    {
      WalkField(cursor, visitor, fields[i]);
      TrailsNext(base, here, trees, i);
    }
    assert trees[..|fields|] == trees;
  }

  method WalkEvent<S>(cursor: CursorStack, visitor: Visitor<S>, event: Event)
    requires visitor.Valid()
    modifies cursor, visitor
    ensures visitor.Valid() && cursor.elements == old(cursor.elements)
    ensures visitor.seen == old(visitor.seen) + Trail(old(cursor.elements), EventTree(event))
  {
    ghost var base, prefix := visitor.seen, cursor.elements;
    cursor.Enter(EventEl(event));
    visitor.Visit(cursor);
    WalkAnnotations(cursor, visitor, event.annotations);
    WalkFields(cursor, visitor, event.fields);
    TrailOfNode(base, prefix, EventEl(event), Leaf(AnnotationsEl(event.annotations)), FieldTrees(event.fields));
    cursor.Leave();
  }

  method WalkEvents<S>(cursor: CursorStack, visitor: Visitor<S>, events: seq<Event>)
    requires visitor.Valid()
    modifies cursor, visitor
    ensures visitor.Valid() && cursor.elements == old(cursor.elements)
    ensures visitor.seen == old(visitor.seen) + Trails(old(cursor.elements), EventTrees(events))
  {
    ghost var base, here, trees := visitor.seen, cursor.elements, EventTrees(events);
    for i := 0 to |events|
      invariant visitor.Valid() && cursor.elements == here
      invariant visitor.seen == base + Trails(here, trees[..i])
    {
      WalkEvent(cursor, visitor, events[i]);
      TrailsNext(base, here, trees, i);
    }
    assert trees[..|events|] == trees;
  }

  method WalkEntity<S>(cursor: CursorStack, visitor: Visitor<S>, entity: Entity)
    requires visitor.Valid()
    modifies cursor, visitor
    ensures visitor.Valid() && cursor.elements == old(cursor.elements)
    ensures visitor.seen == old(visitor.seen) + Trail(old(cursor.elements), EntityTree(entity))
  {
    ghost var base, prefix := visitor.seen, cursor.elements;
    cursor.Enter(EntityEl(entity));
    visitor.Visit(cursor);
    WalkAnnotations(cursor, visitor, entity.annotations);
    WalkEvents(cursor, visitor, entity.events);
    TrailOfNode(base, prefix, EntityEl(entity), Leaf(AnnotationsEl(entity.annotations)), EventTrees(entity.events));
    cursor.Leave();
  }

  method WalkEntities<S>(cursor: CursorStack, visitor: Visitor<S>, entities: seq<Entity>)
    requires visitor.Valid()
    modifies cursor, visitor
    ensures visitor.Valid() && cursor.elements == old(cursor.elements)
    ensures visitor.seen == old(visitor.seen) + Trails(old(cursor.elements), EntityTrees(entities))
  {
    ghost var base, here, trees := visitor.seen, cursor.elements, EntityTrees(entities);
    for i := 0 to |entities|
      invariant visitor.Valid() && cursor.elements == here
      invariant visitor.seen == base + Trails(here, trees[..i])
    {
      WalkEntity(cursor, visitor, entities[i]);
      TrailsNext(base, here, trees, i);
    }
    assert trees[..|entities|] == trees;
  }

  method WalkRecord<S>(cursor: CursorStack, visitor: Visitor<S>, record: Record)
    requires visitor.Valid()
    modifies cursor, visitor
    ensures visitor.Valid() && cursor.elements == old(cursor.elements)
    ensures visitor.seen == old(visitor.seen) + Trail(old(cursor.elements), RecordTree(record))
  {
    ghost var base, prefix := visitor.seen, cursor.elements;
    cursor.Enter(RecordEl(record));
    visitor.Visit(cursor);
    WalkAnnotations(cursor, visitor, record.annotations);
    WalkFields(cursor, visitor, record.fields);
    TrailOfNode(base, prefix, RecordEl(record), Leaf(AnnotationsEl(record.annotations)), FieldTrees(record.fields));
    cursor.Leave();
  }

  method WalkRecords<S>(cursor: CursorStack, visitor: Visitor<S>, records: seq<Record>)
    requires visitor.Valid()
    modifies cursor, visitor
    ensures visitor.Valid() && cursor.elements == old(cursor.elements)
    ensures visitor.seen == old(visitor.seen) + Trails(old(cursor.elements), RecordTrees(records))
  {
    ghost var base, here, trees := visitor.seen, cursor.elements, RecordTrees(records);
    for i := 0 to |records|
      invariant visitor.Valid() && cursor.elements == here
      invariant visitor.seen == base + Trails(here, trees[..i])
    {
      WalkRecord(cursor, visitor, records[i]);
      TrailsNext(base, here, trees, i);
    }
    assert trees[..|records|] == trees;
  }

  /** Walks `schema` with `visitor`, which ends up having been shown exactly
      `Visits(schema)`, in that order. */
  method WalkSchema<S>(schema: Schema, visitor: Visitor<S>) returns (output: S)
    requires visitor.Valid() && visitor.seen == []
    modifies visitor
    ensures visitor.Valid() && visitor.seen == Visits(schema)
    ensures output == Fold(visitor.step, visitor.start, Visits(schema))
  {
    var cursor := new CursorStack(schema);
    visitor.Visit(cursor);
    WalkAnnotations(cursor, visitor, schema.annotations);
    WalkEntities(cursor, visitor, schema.entities);
    WalkRecords(cursor, visitor, schema.records);
    output := visitor.state;
    VisitsOfSchema(schema);
  }

  lemma VisitsOfSchema(schema: Schema)
    ensures var here := [SchemaEl(schema)];
            Visits(schema) == [here] + Trail(here, Leaf(AnnotationsEl(schema.annotations)))
                              + Trails(here, EntityTrees(schema.entities)) + Trails(here, RecordTrees(schema.records))
  {
    var here, first := [SchemaEl(schema)], Leaf(AnnotationsEl(schema.annotations));
    var rest := EntityTrees(schema.entities) + RecordTrees(schema.records);
    assert [] + [SchemaEl(schema)] == here;
    assert [first] + rest == SchemaTree(schema).children;
    TrailOfNode([], [], SchemaEl(schema), first, rest);
    TrailsAppend(here, EntityTrees(schema.entities), RecordTrees(schema.records));
    var x := [here] + Trail(here, first);
    var y, z := Trails(here, EntityTrees(schema.entities)), Trails(here, RecordTrees(schema.records));
    assert x + (y + z) == x + y + z;
    assert [] + [here] == [here];
  }

  // ---- What a walk guarantees -----------------------------------------------

  /** Every element of the schema is visited exactly once: the visits correspond
      one to one, in document order, to the positions of the element tree, and
      each visit shows the whole path from the schema to its element. */
  lemma VisitsEveryElementOnce(schema: Schema)
    ensures var t := SchemaTree(schema);
            && |Visits(schema)| == |Positions(t)|
            && (forall p :: HasPosition(t, p) ==> exists i :: 0 <= i < |Positions(t)| && Positions(t)[i] == p)
            && (forall i | 0 <= i < |Positions(t)| ::
                  HasPosition(t, Positions(t)[i]) && Visits(schema)[i] == LabelsTo(t, Positions(t)[i]))
            && (forall i, j | 0 <= i < j < |Positions(t)| ::
                  Positions(t)[i] != Positions(t)[j] && Precedes(Positions(t)[i], Positions(t)[j]))
  {
    var t := SchemaTree(schema);
    forall i | 0 <= i < |Positions(t)|
      ensures |Visits(schema)| == |Positions(t)| && HasPosition(t, Positions(t)[i])
      ensures Visits(schema)[i] == LabelsTo(t, Positions(t)[i])
    {
      TrailMatchesPositions([], t, i);
      assert [] + LabelsTo(t, Positions(t)[i]) == LabelsTo(t, Positions(t)[i]);
    }
    TrailMatchesPositions([], t, 0);
    PositionsInOrder(t);
    forall p | HasPosition(t, p) ensures p in Positions(t) {
      PositionsComplete(t, p);
    }
    forall p ensures !Precedes(p, p) {
      PrecedesIrreflexive(p);
    }
  }

  /** One visit of a pair of visitors is a visit of each. */
  function Both<A, B>(f: (A, seq<Element>) -> A, g: (B, seq<Element>) -> B): ((A, B), seq<Element>) -> (A, B) {
    (s: (A, B), c: seq<Element>) => (f(s.0, c), g(s.1, c))
  }

  /** A visitor's output after a walk. */
  function Output<S, O>(step: (S, seq<Element>) -> S, start: S, finish: S -> O, cursors: seq<seq<Element>>): O {
    finish(Fold(step, start, cursors))
  }

  /** Walking a pair of visitors of any two types yields the pair of their separate
      walks' outputs. A longer tuple is a pair whose parts are pairs again. */
  lemma {:induction false} FusedWalk<A, B, X, Y>(
      f: (A, seq<Element>) -> A, a: A, x: A -> X, g: (B, seq<Element>) -> B, b: B, y: B -> Y,
      cursors: seq<seq<Element>>)
    ensures Fold(Both(f, g), (a, b), cursors) == (Fold(f, a, cursors), Fold(g, b, cursors))
    ensures Output(Both(f, g), (a, b), (s: (A, B)) => (x(s.0), y(s.1)), cursors) ==
            (Output(f, a, x, cursors), Output(g, b, y, cursors))
  {
    if cursors != [] {
      FusedWalk(f, a, x, g, b, y, cursors[..|cursors| - 1]);
    }
  }

  /** One visit of a tuple of visitors visits each in turn. */
  function All<S>(steps: seq<(S, seq<Element>) -> S>): (seq<S>, seq<Element>) -> seq<S> {
    (states: seq<S>, c: seq<Element>) =>
      seq(|states|, i requires 0 <= i < |states| => if i < |steps| then steps[i](states[i], c) else states[i])
  }

  lemma {:induction false} FusedStates<S>(
      steps: seq<(S, seq<Element>) -> S>, starts: seq<S>, cursors: seq<seq<Element>>)
    requires |steps| == |starts|
    ensures |Fold(All(steps), starts, cursors)| == |starts|
    ensures forall i | 0 <= i < |starts| :: Fold(All(steps), starts, cursors)[i] == Fold(steps[i], starts[i], cursors)
  {
    if cursors != [] {
      FusedStates(steps, starts, cursors[..|cursors| - 1]);
    }
  }

  /** Walking a tuple of any number of visitors yields, at each place, the output of
      that visitor's separate walk. */
  lemma FusedOutputs<S, O>(
      steps: seq<(S, seq<Element>) -> S>, starts: seq<S>, finishes: seq<S -> O>, schema: Schema)
    requires |steps| == |starts| == |finishes|
    ensures var states := Fold(All(steps), starts, Visits(schema));
            |states| == |starts| &&
            forall i | 0 <= i < |starts| ::
              finishes[i](states[i]) == Output(steps[i], starts[i], finishes[i], Visits(schema))
  {
    FusedStates(steps, starts, Visits(schema));
  }
}
