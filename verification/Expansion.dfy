/** References between records resolve and run in no circle exactly when every type
    can be expanded in full. */
module Expansion {
  import opened Wrappers
  import opened SchemaModel
  import opened Graphs
  import opened Walk
  import opened Cursors
  import opened Records

  // ---- Unresolved references ------------------------------------------------

  /** A reference to a record the schema does not declare. */
  predicate Unresolved(c: seq<Element>) {
    AtRecordType(c) && c[0].SchemaEl? && !HasRecord(c[0].schema, Current(c).ty.path)
  }

  class UnresolvedReferences {
    var found: seq<seq<Element>>

    constructor ()
      ensures found == []
    {
      found := [];
    }

    method Visit(c: seq<Element>)
      modifies this
      ensures found == if Unresolved(c) then old(found) + [c] else old(found)
    {
      if Unresolved(c) {
        found := found + [c];
      }
    }
  }

  /** Every record that a field of an event or a record mentions is declared. */
  ghost predicate AllResolved(schema: Schema) {
    && (forall r, f, p | r in schema.records && f in r.fields && Mentioned(f.ty) == Some(p) :: HasRecord(schema, p))
    && (forall e, ev, f, p | e in schema.entities && ev in e.events && f in ev.fields && Mentioned(f.ty) == Some(p) ::
          HasRecord(schema, p))
  }

  lemma ResolvedIffNoneFound(schema: Schema)
    ensures AllResolved(schema) <==> forall c | c in Visits(schema) :: !Unresolved(c)
  {
    if AllResolved(schema) {
      forall c | c in Visits(schema) ensures !Unresolved(c) {
        if AtRecordType(c) {
          CursorShape(schema, c);
          VisitedMention(schema, c);
        }
      }
    }
    if forall c | c in Visits(schema) :: !Unresolved(c) {
      forall r, f, p | r in schema.records && f in r.fields && Mentioned(f.ty) == Some(p) ensures HasRecord(schema, p) {
        MentionedIffInField(f, p);
        var d :| InField(f, d) && Current(d) == DataTypeEl(RecordType(p));
        var c := RecordFieldCursor(schema, r, f, d);
        assert !Unresolved(c);
      }
      forall e, ev, f, p | e in schema.entities && ev in e.events && f in ev.fields && Mentioned(f.ty) == Some(p)
        ensures HasRecord(schema, p)
      {
        MentionedIffInField(f, p);
        var d :| InField(f, d) && Current(d) == DataTypeEl(RecordType(p));
        var c := EventFieldCursor(schema, e, ev, f, d);
        assert !Unresolved(c);
      }
    }
  }

  /** A visited record reference is a mention in a field of an event or a record. */
  lemma VisitedMention(schema: Schema, c: seq<Element>)
    requires c in Visits(schema) && AtRecordType(c)
    ensures |c| >= 4
    ensures (exists r, f :: r in schema.records && f in r.fields && c[1] == RecordEl(r)
                            && Mentioned(f.ty) == Some(Current(c).ty.path)) ||
            (exists e, ev, f :: e in schema.entities && ev in e.events && f in ev.fields
                            && c[1] == EntityEl(e) && c[2] == EventEl(ev) && c[3] == FieldEl(f)
                            && Mentioned(f.ty) == Some(Current(c).ty.path))
  {
    VisitedIffInSchema(schema, c);
    CursorShape(schema, c);
    var x := c[1..];
    assert |c| >= 4 && Current(c) == Current(x) && x[0] == c[1] && x[1] == c[2] && x[2] == c[3];
    if c[1].RecordEl? {
      RecordMention(c[1].record, x);
    } else {
      EntityMention(c[1].entity, x);
    }
  }

  lemma EntityMention(e: Entity, x: seq<Element>)
    requires InEntity(e, x) && |x| >= 3 && AtRecordType(x)
    ensures exists ev, f :: ev in e.events && f in ev.fields && x[1] == EventEl(ev) && x[2] == FieldEl(f)
                            && Mentioned(f.ty) == Some(Current(x).ty.path)
  {
    var y := x[1..];
    assert Current(x) == Current(y) && |y| >= 2 && y[0] == x[1] && y[1] == x[2];
    var ev :| ev in e.events && InEvent(ev, y);
    var z := y[1..];
    assert Current(y) == Current(z) && z[0] == y[1];
    var f :| f in ev.fields && InField(f, z);
    MentionedIffInField(f, Current(x).ty.path);
  }

  /** Reports a reference exactly when one is unresolved. */
  method FindUnresolved(schema: Schema) returns (found: seq<seq<Element>>)
    ensures found == [] <==> AllResolved(schema)
    ensures forall c :: c in found <==> c in Visits(schema) && Unresolved(c)
  {
    var visitor := new UnresolvedReferences();
    var visits := Visits(schema);
    for i := 0 to |visits|
      invariant forall c :: c in visitor.found <==> c in visits[..i] && Unresolved(c)
    {
      visitor.Visit(visits[i]);
      assert visits[..i + 1] == visits[..i] + [visits[i]];
    }
    assert visits[..|visits|] == visits;
    found := visitor.found;
    ResolvedIffNoneFound(schema);
    if found != [] { assert found[0] in found; }
  }

  // ---- Expansion ------------------------------------------------------------

  ghost predicate NoRecursion(schema: Schema) {
    forall p :: !IsRecursive(schema, p)
  }

  /** What a record refers to, directly or through other records. */
  ghost function Below(schema: Schema, record: Path): set<Path> {
    var arcs := RecordArcs(schema.records);
    set t | t in Heads(arcs) && exists m :: (record, m) in arcs && Reaches(arcs, m, t)
  }

  lemma BelowShrinks(schema: Schema, a: Path, b: Path)
    requires NoRecursion(schema) && (a, b) in RecordArcs(schema.records)
    ensures Below(schema, b) + {b} <= Below(schema, a) && a !in Below(schema, a)
  {
    var arcs := RecordArcs(schema.records);
    ArcHead(arcs, a, b);
    ReachesSelf(arcs, b);
    forall t | t in Below(schema, b) ensures t in Below(schema, a) {
      var m :| (b, m) in arcs && Reaches(arcs, m, t);
      ReachesArc(arcs, b, m);
      ReachesTransitive(arcs, b, m, t);
    }
    NotBelowItself(schema, a);
  }

  lemma NotBelowItself(schema: Schema, a: Path)
    requires !IsRecursive(schema, a)
    ensures a !in Below(schema, a)
  {
    var arcs := RecordArcs(schema.records);
    if a in Below(schema, a) {
      var m :| (a, m) in arcs && Reaches(arcs, m, a);
      CycleThrough(arcs, a, m);
    }
  }

  lemma ArcHead(arcs: seq<(Path, Path)>, a: Path, b: Path)
    requires (a, b) in arcs
    ensures b in Heads(arcs)
  {
    var i :| 0 <= i < |arcs| && arcs[i] == (a, b);
    assert arcs[i].1 in Heads(arcs);
  }

  lemma CycleThrough(arcs: seq<(Path, Path)>, a: Path, m: Path)
    requires (a, m) in arcs && Reaches(arcs, m, a)
    ensures OnCycle(arcs, a)
  {
    var p :| Joins(arcs, p, m, a);
    assert Joins(arcs, [a, m], a, m);
    JoinPaths(arcs, [a, m], p, a, m, a);
  }

  /** A rank that drops along every reference between records. */
  ghost predicate Ranks(schema: Schema, rank: Path -> nat) {
    forall a, b | (a, b) in RecordArcs(schema.records) :: rank(b) < rank(a)
  }

  /** No record is recursive exactly when records can be ranked: then, and only then,
      every chain of references ends. */
  lemma NoRecursionIffRanked(schema: Schema)
    ensures NoRecursion(schema) <==> exists rank :: Ranks(schema, rank)
  {
    if NoRecursion(schema) {
      var rank := (p: Path) => |Below(schema, p)|;
      forall a, b | (a, b) in RecordArcs(schema.records) ensures rank(b) < rank(a) {
        BelowShrinks(schema, a, b);
        BelowSmaller(schema, a, b);
      }
      assert Ranks(schema, rank);
    }
    if rank :| Ranks(schema, rank) {
      forall p ensures !IsRecursive(schema, p) {
        if q :| Joins(RecordArcs(schema.records), q, p, p) && |q| >= 2 {
          RankDrops(schema, rank, q, |q| - 1);
          assert false;
        }
      }
    }
  }

  lemma BelowSmaller(schema: Schema, a: Path, b: Path)
    requires NoRecursion(schema) && (a, b) in RecordArcs(schema.records)
    ensures |Below(schema, b)| < |Below(schema, a)|
  {
    BelowShrinks(schema, a, b);
    NotBelowItself(schema, b);
    SubsetSmaller(Below(schema, b), Below(schema, a), b);
  }

  lemma SubsetSmaller(a: set<Path>, b: set<Path>, x: Path)
    requires a + {x} <= b && x !in a
    ensures |a| < |b|
  {
    SubsetNoLarger(a + {x}, b);
  }

  lemma {:induction false} SubsetNoLarger(a: set<Path>, b: set<Path>)
    requires a <= b
    ensures |a| <= |b|
  {
    if a != {} {
      var x :| x in a;
      SubsetNoLarger(a - {x}, b - {x});
    }
  }

  lemma {:induction false} RankDrops(schema: Schema, rank: Path -> nat, q: seq<Path>, i: nat)
    requires Ranks(schema, rank) && IsPath(RecordArcs(schema.records), q) && i < |q|
    ensures i > 0 ==> rank(q[i]) < rank(q[0])
  {
    if i > 0 {
      RankDrops(schema, rank, q, i - 1);
      assert (q[i - 1], q[i]) in RecordArcs(schema.records);
    }
  }

  /** A type with every record replaced by its fields. */
  datatype FlatType =
    | FlatScalar(kind: ScalarKind)
    | FlatOption(inner: FlatType)
    | FlatList(inner: FlatType)
    | FlatDynamic
    | FlatRecord(path: Path, fields: seq<FlatType>)
    | FlatRef(data: Option<FlatType>)

  ghost function RecordOf(schema: Schema, path: Path): (r: Record)
    requires HasRecord(schema, path)
    ensures r in schema.records && r.path == path
  {
    var r :| r in schema.records && r.path == path;
    r
  }

  /** What can be met while expanding `ty`. */
  ghost function Reachable(schema: Schema, ty: DataType): set<Path> {
    var m := Mentioned(ty);
    if m.None? then {} else {m.value} + Below(schema, m.value)
  }

  /** Full expansion; its recursion is what terminates. */
  ghost function Expand(schema: Schema, ty: DataType): FlatType
    requires NoRecursion(schema) && AllResolved(schema)
    requires Mentioned(ty).Some? ==> HasRecord(schema, Mentioned(ty).value)
    decreases Reachable(schema, ty), 1, ty
  {
    match ty
    case Scalar(kind) => FlatScalar(kind)
    case OptionType(inner) => FlatOption(Expand(schema, inner))
    case ListType(inner) => FlatList(Expand(schema, inner))
    case DynamicRecord => FlatDynamic
    case EntityRef(data, _) => FlatRef(if data.Some? then Some(Expand(schema, data.value)) else None)
    case RecordType(path) =>
      var r := RecordOf(schema, path);
      FlatRecord(path, ExpandFields(schema, r, r.fields))
  }

  ghost function ExpandFields(schema: Schema, r: Record, fields: seq<Field>): (flat: seq<FlatType>)
    requires NoRecursion(schema) && AllResolved(schema) && r in schema.records
    requires forall f | f in fields :: f in r.fields
    ensures |flat| == |fields|
    decreases {r.path} + Below(schema, r.path), 0, |fields|
  {
    if fields == [] then []
    else
      FieldBelow(schema, r, fields[0]);
      [Expand(schema, fields[0].ty)] + ExpandFields(schema, r, fields[1..])
  }

  lemma FieldBelow(schema: Schema, r: Record, f: Field)
    requires NoRecursion(schema) && AllResolved(schema) && r in schema.records && f in r.fields
    ensures Mentioned(f.ty).Some? ==> HasRecord(schema, Mentioned(f.ty).value)
    ensures Reachable(schema, f.ty) < {r.path} + Below(schema, r.path)
  {
    if Mentioned(f.ty).Some? {
      var b := Mentioned(f.ty).value;
      assert (r.path, b) in RecordArcs(schema.records);
      BelowShrinks(schema, r.path, b);
    }
  }

  /** `flat` is `ty` with every record reference replaced by that record's fields. */
  ghost predicate IsExpansion(schema: Schema, ty: DataType, flat: FlatType)
    decreases flat
  {
    match ty
    case Scalar(kind) => flat == FlatScalar(kind)
    case OptionType(inner) => flat.FlatOption? && IsExpansion(schema, inner, flat.inner)
    case ListType(inner) => flat.FlatList? && IsExpansion(schema, inner, flat.inner)
    case DynamicRecord => flat == FlatDynamic
    case EntityRef(data, _) =>
      && flat.FlatRef? && (data.Some? <==> flat.data.Some?)
      && (data.Some? ==> IsExpansion(schema, data.value, flat.data.value))
    case RecordType(path) =>
      && flat.FlatRecord? && flat.path == path && HasRecord(schema, path)
      && var fields := RecordOf(schema, path).fields;
      && |flat.fields| == |fields|
      && forall i | 0 <= i < |fields| :: IsExpansion(schema, fields[i].ty, flat.fields[i])
  }

  ghost predicate Expandable(schema: Schema, ty: DataType) {
    exists flat :: IsExpansion(schema, ty, flat)
  }

  lemma {:induction false} ExpandIsExpansion(schema: Schema, ty: DataType)
    requires NoRecursion(schema) && AllResolved(schema)
    requires Mentioned(ty).Some? ==> HasRecord(schema, Mentioned(ty).value)
    ensures IsExpansion(schema, ty, Expand(schema, ty))
    decreases Reachable(schema, ty), 1, ty
  {
    match ty {
      case OptionType(inner) => ExpandIsExpansion(schema, inner);
      case ListType(inner) => ExpandIsExpansion(schema, inner);
      case EntityRef(data, _) => if data.Some? { ExpandIsExpansion(schema, data.value); }
      case RecordType(path) =>
        var r := RecordOf(schema, path);
        ExpandFieldsAreExpansions(schema, r, r.fields);
      case _ =>
    }
  }

  lemma {:induction false} ExpandFieldsAreExpansions(schema: Schema, r: Record, fields: seq<Field>)
    requires NoRecursion(schema) && AllResolved(schema) && r in schema.records
    requires forall f | f in fields :: f in r.fields
    ensures forall i | 0 <= i < |fields| :: IsExpansion(schema, fields[i].ty, ExpandFields(schema, r, fields)[i])
    decreases {r.path} + Below(schema, r.path), 0, |fields|
  {
    if fields != [] {
      FieldBelow(schema, r, fields[0]);
      ExpandIsExpansion(schema, fields[0].ty);
      ExpandFieldsAreExpansions(schema, r, fields[1..]);
    }
  }

  /** A reference to a recursive record has no finite expansion. */
  lemma {:induction false} NoExpansion(schema: Schema, ty: DataType, flat: FlatType)
    requires WellFormed(schema) && Mentioned(ty).Some? && IsRecursive(schema, Mentioned(ty).value)
    ensures !IsExpansion(schema, ty, flat)
    decreases flat
  {
    if IsExpansion(schema, ty, flat) {
      match ty {
        case OptionType(inner) => NoExpansion(schema, inner, flat.inner);
        case ListType(inner) => NoExpansion(schema, inner, flat.inner);
        case EntityRef(data, _) => NoExpansion(schema, data.value, flat.data.value);
        case RecordType(path) =>
          var next := NextOnCycle(schema, path);
          var x, f :| x in schema.records && x.path == path && f in x.fields && Mentioned(f.ty) == Some(next);
          assert x == RecordOf(schema, path);
          var i :| 0 <= i < |x.fields| && x.fields[i] == f;
          NoExpansion(schema, f.ty, flat.fields[i]);
      }
    }
  }

  /** A recursive record refers to one that is recursive too. */
  lemma NextOnCycle(schema: Schema, record: Path) returns (next: Path)
    requires IsRecursive(schema, record)
    ensures (record, next) in RecordArcs(schema.records) && IsRecursive(schema, next)
  {
    var arcs := RecordArcs(schema.records);
    var p :| Joins(arcs, p, record, record) && |p| >= 2;
    next := p[1];
    RotateCycle(arcs, p, record);
  }

  /** In a schema whose references resolve, every type of a record's field can be
      expanded in full if and only if no record is recursive. */
  lemma ExpandsIffNoRecursion(schema: Schema)
    requires WellFormed(schema) && AllResolved(schema)
    ensures NoRecursion(schema) <==>
            forall r, f | r in schema.records && f in r.fields :: Expandable(schema, f.ty)
  {
    if NoRecursion(schema) {
      forall r, f | r in schema.records && f in r.fields ensures Expandable(schema, f.ty) {
        FieldBelow(schema, r, f);
        ExpandIsExpansion(schema, f.ty);
      }
    } else {
      var p :| IsRecursive(schema, p);
      var next := NextOnCycle(schema, p);
      var r, f :| r in schema.records && r.path == p && f in r.fields && Mentioned(f.ty) == Some(next);
      forall flat ensures !IsExpansion(schema, f.ty, flat) {
        NoExpansion(schema, f.ty, flat);
      }
      assert !Expandable(schema, f.ty);
    }
  }
}
