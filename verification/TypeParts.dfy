/** What holds of every type in a schema, at any depth. */
module TypeParts {
  import opened SchemaModel
  import opened Walk
  import opened Cursors

  /** `p` holds of the type and of all types in it. */
  ghost predicate EveryPart(ty: DataType, p: DataType -> bool) {
    && p(ty)
    && match ty
       case OptionType(inner) => EveryPart(inner, p)
       case ListType(inner) => EveryPart(inner, p)
       case EntityRef(data, _) => data.Some? ==> EveryPart(data.value, p)
       case _ => true
  }

  ghost predicate EveryType(schema: Schema, p: DataType -> bool) {
    && (forall e, ev, f | e in schema.entities && ev in e.events && f in ev.fields :: EveryPart(f.ty, p))
    && (forall r, f | r in schema.records && f in r.fields :: EveryPart(f.ty, p))
  }

  /** `p` holds of whatever type a path from a type down ends at. */
  lemma {:induction false} PartHolds(ty: DataType, p: DataType -> bool, d: seq<Element>)
    requires EveryPart(ty, p) && InType(ty, d) && Current(d).DataTypeEl?
    ensures p(Current(d).ty)
  {
    if |d| > 1 {
      assert Current(d) == Current(d[1..]);
      match ty {
        case OptionType(inner) => PartHolds(inner, p, d[1..]);
        case ListType(inner) => PartHolds(inner, p, d[1..]);
        case EntityRef(data, _) => PartHolds(data.value, p, d[1..]);
        case _ =>
      }
    }
  }

  /** If `p` does not hold of every part, a path leads to one it does not hold of. */
  lemma {:induction false} PartMissed(ty: DataType, p: DataType -> bool) returns (d: seq<Element>)
    requires !EveryPart(ty, p)
    ensures InType(ty, d) && Current(d).DataTypeEl? && !p(Current(d).ty)
  {
    d := [DataTypeEl(ty)];
    if p(ty) {
      var rest := match ty
        case OptionType(inner) => inner
        case ListType(inner) => inner
        case EntityRef(data, _) => data.value;
      var below := PartMissed(rest, p);
      d := [DataTypeEl(ty)] + below;
      assert d[1..] == below;
    }
  }

  /** A walk shows all types in a schema and nothing else as types. */
  lemma EveryTypeVisited(schema: Schema, p: DataType -> bool)
    ensures EveryType(schema, p) <==>
            forall c | c in Visits(schema) && c != [] && Current(c).DataTypeEl? :: p(Current(c).ty)
  {
    if EveryType(schema, p) {
      forall c | c in Visits(schema) && c != [] && Current(c).DataTypeEl? ensures p(Current(c).ty) {
        VisitedPart(schema, p, c);
      }
    }
    if forall c | c in Visits(schema) && c != [] && Current(c).DataTypeEl? :: p(Current(c).ty) {
      forall e, ev, f | e in schema.entities && ev in e.events && f in ev.fields ensures EveryPart(f.ty, p) {
        if !EveryPart(f.ty, p) {
          var d := FieldMissed(f, p);
          var c := EventFieldCursor(schema, e, ev, f, d);
        }
      }
      forall r, f | r in schema.records && f in r.fields ensures EveryPart(f.ty, p) {
        if !EveryPart(f.ty, p) {
          var d := FieldMissed(f, p);
          var c := RecordFieldCursor(schema, r, f, d);
        }
      }
    }
  }

  lemma FieldMissed(f: Field, p: DataType -> bool) returns (d: seq<Element>)
    requires !EveryPart(f.ty, p)
    ensures InField(f, d) && Current(d).DataTypeEl? && !p(Current(d).ty)
  {
    var below := PartMissed(f.ty, p);
    d := [FieldEl(f)] + below;
    assert d[1..] == below;
  }

  lemma VisitedPart(schema: Schema, p: DataType -> bool, c: seq<Element>)
    requires EveryType(schema, p) && c in Visits(schema) && c != [] && Current(c).DataTypeEl?
    ensures p(Current(c).ty)
  {
    CursorShape(schema, c);
    VisitedIffInSchema(schema, c);
    var x := c[1..];
    assert Current(x) == Current(c) && x[0] == c[1];
    if c[1].EntityEl? {
      var ev, f := TypeInEntity(c[1].entity, x);
      FieldPart(f, p, x[2..]);
    } else {
      var f := TypeInRecord(c[1].record, x);
      FieldPart(f, p, x[1..]);
    }
  }

  lemma FieldPart(f: Field, p: DataType -> bool, d: seq<Element>)
    requires EveryPart(f.ty, p) && InField(f, d) && Current(d).DataTypeEl?
    ensures p(Current(d).ty)
  {
    assert Current(d) == Current(d[1..]);
    PartHolds(f.ty, p, d[1..]);
  }
}
