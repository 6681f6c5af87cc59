/** Records that refer to themselves, references that do not resolve, and why a
    schema without either can be expanded in full. */
module Records {
  import opened Wrappers
  import opened SchemaModel
  import opened Graphs
  import opened Walk
  import opened Cursors

  /** The record a type refers to, under any options, lists and reference data. */
  function Mentioned(ty: DataType): Option<Path> {
    match ty
    case RecordType(path) => Some(path)
    case OptionType(inner) => Mentioned(inner)
    case ListType(inner) => Mentioned(inner)
    case EntityRef(data, _) => if data.Some? then Mentioned(data.value) else None
    case _ => None
  }

  function FieldArcs(source: Path, fields: seq<Field>): (r: seq<(Path, Path)>)
    ensures forall a, b :: (a, b) in r <==> a == source && exists f :: f in fields && Mentioned(f.ty) == Some(b)
  {
    if fields == [] then []
    else
      assert forall f :: f in fields <==> f == fields[0] || f in fields[1..];
      (if Mentioned(fields[0].ty).Some? then [(source, Mentioned(fields[0].ty).value)] else [])
      + FieldArcs(source, fields[1..])
  }

  /** An arc for every record a record's fields refer to. */
  function RecordArcs(records: seq<Record>): (r: seq<(Path, Path)>)
    ensures forall a, b :: (a, b) in r <==>
              exists x, f :: x in records && x.path == a && f in x.fields && Mentioned(f.ty) == Some(b)
  {
    if records == [] then []
    else
      assert forall x :: x in records <==> x == records[0] || x in records[1..];
      FieldArcs(records[0].path, records[0].fields) + RecordArcs(records[1..])
  }

  /** The record refers to itself through the types of its fields, however nested. */
  ghost predicate IsRecursive(schema: Schema, record: Path) {
    OnCycle(RecordArcs(schema.records), record)
  }

  // ---- Mentions and visits --------------------------------------------------

  lemma {:induction false} MentionedIffInType(ty: DataType, target: Path)
    ensures Mentioned(ty) == Some(target) <==> exists d :: InType(ty, d) && Current(d) == DataTypeEl(RecordType(target))
  {
    if Mentioned(ty) == Some(target) {
      var d := MentionPath(ty, target);
    }
    if d :| InType(ty, d) && Current(d) == DataTypeEl(RecordType(target)) {
      MentionAtEnd(ty, d, target);
    }
  }

  lemma {:induction false} MentionPath(ty: DataType, target: Path) returns (d: seq<Element>)
    requires Mentioned(ty) == Some(target)
    ensures InType(ty, d) && Current(d) == DataTypeEl(RecordType(target))
  {
    match ty {
      case RecordType(_) => d := [DataTypeEl(ty)];
      case OptionType(inner) =>
        var rest := MentionPath(inner, target);
        d := [DataTypeEl(ty)] + rest;
        assert d[1..] == rest;
      case ListType(inner) =>
        var rest := MentionPath(inner, target);
        d := [DataTypeEl(ty)] + rest;
        assert d[1..] == rest;
      case EntityRef(data, _) =>
        var rest := MentionPath(data.value, target);
        d := [DataTypeEl(ty)] + rest;
        assert d[1..] == rest;
    }
  }

  lemma {:induction false} MentionAtEnd(ty: DataType, d: seq<Element>, target: Path)
    requires InType(ty, d) && Current(d) == DataTypeEl(RecordType(target))
    ensures Mentioned(ty) == Some(target)
  {
    if |d| > 1 {
      assert Current(d) == Current(d[1..]);
      match ty {
        case OptionType(inner) => MentionAtEnd(inner, d[1..], target);
        case ListType(inner) => MentionAtEnd(inner, d[1..], target);
        case EntityRef(data, _) => MentionAtEnd(data.value, d[1..], target);
      }
    }
  }

  /** A field mentions a record exactly if a cursor through it ends there. */
  lemma MentionedIffInField(field: Field, target: Path)
    ensures Mentioned(field.ty) == Some(target) <==>
            exists d :: InField(field, d) && Current(d) == DataTypeEl(RecordType(target))
  {
    MentionedIffInType(field.ty, target);
    if d :| InType(field.ty, d) && Current(d) == DataTypeEl(RecordType(target)) {
      var e := [FieldEl(field)] + d;
      assert e[1..] == d;
      assert InField(field, e) && Current(e) == Current(d);
    }
    if d :| InField(field, d) && Current(d) == DataTypeEl(RecordType(target)) {
      assert |d| > 1 && Current(d) == Current(d[1..]);
      assert InType(field.ty, d[1..]);
    }
  }

  /** The cursor is at a reference to a record. */
  predicate AtRecordType(c: seq<Element>) {
    c != [] && Current(c).DataTypeEl? && Current(c).ty.RecordType?
  }

  /** The cursor is within the declaration of `a`, at a reference to `b`. */
  predicate ShowsArc(c: seq<Element>, a: Path, b: Path) {
    AtRecordType(c) && Current(c).ty.path == b && |c| >= 2 && c[1].RecordEl? && c[1].record.path == a
  }

  lemma RecordMention(r: Record, x: seq<Element>)
    requires InRecord(r, x) && |x| >= 3 && AtRecordType(x)
    ensures exists f :: f in r.fields && Mentioned(f.ty) == Some(Current(x).ty.path)
  {
    var y := x[1..];
    assert Current(x) == Current(y) && |y| >= 2;
    var f :| f in r.fields && InField(f, y);
    MentionedIffInField(f, Current(x).ty.path);
  }

  /** The visits that show a record referring to a record are exactly its arcs. */
  lemma ArcsAreVisited(schema: Schema, a: Path, b: Path)
    ensures (a, b) in RecordArcs(schema.records) <==>
            exists c :: c in Visits(schema) && ShowsArc(c, a, b)
  {
    if x, f :| x in schema.records && x.path == a && f in x.fields && Mentioned(f.ty) == Some(b) {
      var c := MentionIsVisited(schema, x, f, b);
    }
    if c: seq<Element> :| c in Visits(schema) && ShowsArc(c, a, b) {
      ShownIsMentioned(schema, c, a, b);
    }
  }

  lemma MentionIsVisited(schema: Schema, x: Record, f: Field, b: Path) returns (c: seq<Element>)
    requires x in schema.records && f in x.fields && Mentioned(f.ty) == Some(b)
    ensures c in Visits(schema) && ShowsArc(c, x.path, b)
  {
    MentionedIffInField(f, b);
    var d :| InField(f, d) && Current(d) == DataTypeEl(RecordType(b));
    c := RecordFieldCursor(schema, x, f, d);
  }

  lemma ShownIsMentioned(schema: Schema, c: seq<Element>, a: Path, b: Path)
    requires c in Visits(schema) && ShowsArc(c, a, b)
    ensures (a, b) in RecordArcs(schema.records)
  {
    VisitedIffInSchema(schema, c);
    CursorShape(schema, c);
    var x, d := c[1].record, c[1..];
    assert |c| >= 4 && Current(c) == Current(d) && d[0] == c[1];
    RecordMention(x, d);
  }

  // ---- The recursive-record visitor -----------------------------------------

  class RecursiveRecords {
    /** For each record, the records its fields refer to. */
    var edges: map<Path, seq<Path>>

    constructor ()
      ensures edges == map[]
    {
      edges := map[];
    }

    method Visit(c: seq<Element>)
      requires c != []
      modifies this
      ensures forall a, b :: HasEdge(edges, a, b) <==>
                || HasEdge(old(edges), a, b)
                || ShowsArc(c, a, b)
    {
      if Current(c).DataTypeEl? && Current(c).ty.RecordType? && |c| >= 2 && c[1].RecordEl? {
        var source, target := c[1].record.path, Current(c).ty.path;
        edges := edges[source := (if source in edges then edges[source] else []) + [target]];
      }
    }

    /** Reports the records that share a component of the graph with another record,
        and those with an edge to themselves. */
    method Finish() returns (recursive: set<Path>)
      ensures forall arcs | Represents(arcs, edges) :: forall p :: p in recursive <==> OnCycle(arcs, p)
    {
      var graph := EdgeListOf(edges);
      recursive := {};
      var todo := edges.Keys;
      while todo != {}
        invariant todo <= edges.Keys
        invariant forall p :: p in recursive <==> p in edges.Keys - todo && OnCycle(graph, p)
      {
        var p :| p in todo;
        CycleIffComponentOrLoop(graph, p);
        var shared := SharesComponent(graph, p);
        if shared || p in edges[p] {
          recursive := recursive + {p};
        }
        todo := todo - {p};
      }
      forall arcs | Represents(arcs, edges)
        ensures forall p :: p in recursive <==> OnCycle(arcs, p)
      {
        forall p ensures p in recursive <==> OnCycle(arcs, p) {
          SameArcsSameCycles(graph, arcs, p);
          if OnCycle(graph, p) {
            var q :| Joins(graph, q, p, p) && |q| >= 2;
            assert (q[0], q[1]) in graph;
          }
        }
      }
    }
  }

  ghost predicate HasEdge(edges: map<Path, seq<Path>>, a: Path, b: Path) {
    a in edges && b in edges[a]
  }

  /** `arcs` are the edges of the map. */
  ghost predicate Represents(arcs: seq<(Path, Path)>, edges: map<Path, seq<Path>>) {
    forall a, b :: (a, b) in arcs <==> HasEdge(edges, a, b)
  }

  function EdgesFrom(source: Path, targets: seq<Path>): (r: seq<(Path, Path)>)
    ensures forall a, b :: (a, b) in r <==> a == source && b in targets
  {
    if targets == [] then []
    else
      assert forall b :: b in targets <==> b == targets[0] || b in targets[1..];
      [(source, targets[0])] + EdgesFrom(source, targets[1..])
  }

  method EdgeListOf(edges: map<Path, seq<Path>>) returns (r: seq<(Path, Path)>)
    ensures forall a, b :: (a, b) in r <==> HasEdge(edges, a, b)
  {
    r := [];
    var todo := edges.Keys;
    while todo != {}
      invariant todo <= edges.Keys
      invariant forall a, b :: (a, b) in r <==> a in edges.Keys - todo && b in edges[a]
    {
      var a :| a in todo;
      r := r + EdgesFrom(a, edges[a]);
      todo := todo - {a};
    }
  }

  lemma SameArcsSameCycles(x: seq<(Path, Path)>, y: seq<(Path, Path)>, p: Path)
    requires forall a, b :: (a, b) in x <==> (a, b) in y
    ensures OnCycle(x, p) <==> OnCycle(y, p)
  {
    if q :| Joins(x, q, p, p) && |q| >= 2 {
      assert Joins(y, q, p, p);
    }
    if q :| Joins(y, q, p, p) && |q| >= 2 {
      assert Joins(x, q, p, p);
    }
  }

  /** Reports exactly the recursive records of a schema. */
  method FindRecursive(schema: Schema) returns (recursive: set<Path>)
    ensures forall p :: p in recursive <==> IsRecursive(schema, p)
  {
    var visitor := new RecursiveRecords();
    var visits := Visits(schema);
    for i := 0 to |visits|
      invariant forall a, b :: HasEdge(visitor.edges, a, b) <==>
                  exists c :: c in visits[..i] && ShowsArc(c, a, b)
    {
      CursorShape(schema, visits[i]);
      visitor.Visit(visits[i]);
      assert visits[..i + 1] == visits[..i] + [visits[i]];
    }
    assert visits[..|visits|] == visits;
    forall a, b ensures HasEdge(visitor.edges, a, b) <==> (a, b) in RecordArcs(schema.records) {
      ArcsAreVisited(schema, a, b);
    }
    assert Represents(RecordArcs(schema.records), visitor.edges);
    recursive := visitor.Finish();
  }
}
