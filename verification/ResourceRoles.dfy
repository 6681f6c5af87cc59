/** Where resource roles may be attached, read off the schema itself. */
module ResourceRoles {
  import opened Wrappers
  import opened SchemaModel
  import opened Walk
  import opened Cursors
  import opened WalkOrder
  import opened TypeParts
  import opened Resources

  // ---- Placement ------------------------------------------------------------

  /** Entities may hold definitions, records usages and bounds; roles on entities and
      records decode. */
  ghost predicate OwnersRight(schema: Schema) {
    && (forall e | e in schema.entities ::
          var slot := e.annotations.resource;
          slot == Absent || (slot.Payload? && slot.value.Definition?))
    && (forall r | r in schema.records ::
          var slot := r.annotations.resource;
          slot == Absent || (slot.Payload? && (slot.value.Usage? || slot.value.Bounds?)))
  }

  predicate NoRoleOnReference(ty: DataType) {
    ty.EntityRef? ==> ty.annotations.resource == Absent
  }

  /** No role, nor data that should be one, is attached to anything else. */
  ghost predicate OthersBare(schema: Schema) {
    && schema.annotations.resource == Absent
    && (forall e, ev | e in schema.entities && ev in e.events :: ev.annotations.resource == Absent)
    && (forall e, ev, f | e in schema.entities && ev in e.events && f in ev.fields :: f.annotations.resource == Absent)
    && (forall r, f | r in schema.records && f in r.fields :: f.annotations.resource == Absent)
    && EveryType(schema, NoRoleOnReference)
  }

  ghost predicate RolesPlaced(schema: Schema) {
    OwnersRight(schema) && OthersBare(schema)
  }

  // ---- Errors of placement --------------------------------------------------

  /** Whether the element may hold the role. */
  predicate Allows(owner: Element, role: Resource) {
    match owner
    case EntityEl(_) => role.Definition?
    case RecordEl(_) => role.Usage? || role.Bounds?
    case _ => false
  }

  /** Where a problem with the annotations of the element at `c` is located: at the
      element if it is an entity or a record, and otherwise at the annotations. */
  function LocationOf(c: seq<Element>): seq<Element>
    requires c != [] && AnnotationsOf(Current(c)).Some?
  {
    if Current(c).EntityEl? || Current(c).RecordEl? then c else c + [AnnotationsEl(AnnotationsOf(Current(c)).value)]
  }

  /** What is wrong with the role of the element at `c`: data without a value that
      decodes, or a role that the element may not hold. */
  ghost predicate RoleErrorOf(c: seq<Element>, e: ResourceError) {
    && c != [] && AnnotationsOf(Current(c)).Some?
    && match AnnotationsOf(Current(c)).value.resource
       case Absent => false
       case Payload(role) =>
         && !Allows(Current(c), role) && e.MisplacedRole? && e.location == LocationOf(c)
         && e.role == if role.Definition? then DefinitionRole else if role.Usage? then UsageRole else BoundsRole
       case _ => e == InvalidData(LocationOf(c))
  }

  /** The element at `c` or what is annotated there raises the error in a visit. */
  lemma OwnerRaises(c: seq<Element>, e: ResourceError)
    requires c != [] && (Current(c).EntityEl? || Current(c).RecordEl?)
    ensures RoleProblem(c) == Some(e) <==> RoleErrorOf(c, e)
  {}

  lemma OtherRaises(above: seq<Element>, a: Annotations, e: ResourceError)
    requires above != [] && AnnotationsOf(Current(above)) == Some(a)
    requires !Current(above).EntityEl? && !Current(above).RecordEl?
    ensures RoleProblem(above + [AnnotationsEl(a)]) == Some(e) <==> RoleErrorOf(above, e)
  {
    var c := above + [AnnotationsEl(a)];
    assert Current(c) == AnnotationsEl(a) && c[|c| - 2] == Current(above);
  }

  /** The walk raises an error for exactly the elements whose role is wrong. */
  lemma RoleErrorsRaised(schema: Schema, e: ResourceError)
    ensures (exists c :: c in Visits(schema) && RoleProblem(c) == Some(e)) <==>
            exists c :: c in Visits(schema) && RoleErrorOf(c, e)
  {
    if c :| c in Visits(schema) && RoleProblem(c) == Some(e) {
      if Current(c).AnnotationsEl? {
        AnnotationsShown(schema, c);
        var above := c[..|c| - 1];
        assert c == above + [AnnotationsEl(Current(c).annotations)] && Current(above) == c[|c| - 2];
        OtherRaises(above, Current(c).annotations, e);
      } else {
        OwnerRaises(c, e);
      }
    }
    if c :| c in Visits(schema) && RoleErrorOf(c, e) {
      if Current(c).EntityEl? || Current(c).RecordEl? {
        OwnerRaises(c, e);
      } else {
        AnnotationsAreShown(schema, c);
        OtherRaises(c, AnnotationsOf(Current(c)).value, e);
      }
    }
  }

  // ---- No error is right placement ------------------------------------------

  ghost predicate SlotRight(owner: Element) {
    AnnotationsOf(owner).Some? ==>
      var slot := AnnotationsOf(owner).value.resource;
      slot == Absent || (slot.Payload? && Allows(owner, slot.value))
  }

  lemma NoErrorIffSlotRight(c: seq<Element>)
    requires c != []
    ensures (forall e :: !RoleErrorOf(c, e)) <==> SlotRight(Current(c))
  {
    if AnnotationsOf(Current(c)).Some? {
      var slot := AnnotationsOf(Current(c)).value.resource;
      if slot.Payload? {
        assert !Allows(Current(c), slot.value) ==> RoleErrorOf(c, MisplacedRole(LocationOf(c), RoleOf(slot.value)));
      } else if slot != Absent {
        assert RoleErrorOf(c, InvalidData(LocationOf(c)));
      }
    }
  }

  ghost predicate AllSlotsRight(schema: Schema) {
    forall c | c in Visits(schema) && c != [] :: SlotRight(Current(c))
  }

  lemma PlacedSlotsRight(schema: Schema, c: seq<Element>)
    requires RolesPlaced(schema) && c in Visits(schema) && c != []
    ensures SlotRight(Current(c))
  {
    CursorShape(schema, c);
    match Current(c) {
      case FieldEl(_) => FieldShown(schema, c);
      case DataTypeEl(_) => EveryTypeVisited(schema, NoRoleOnReference);
      case _ =>
    }
  }

  lemma RightSlotsPlaced(schema: Schema)
    requires AllSlotsRight(schema)
    ensures RolesPlaced(schema)
  {
    SchemaVisitedFirst(schema);
    assert SlotRight(Current(Visits(schema)[0]));
    assert OwnersRight(schema) by {
      forall e | e in schema.entities ensures SlotRight(EntityEl(e)) { EntityHasCursor(schema, e); }
      forall r | r in schema.records ensures SlotRight(RecordEl(r)) { RecordHasCursor(schema, r); }
    }
    forall e, ev | e in schema.entities && ev in e.events ensures ev.annotations.resource == Absent {
      EventHasCursor(schema, e, ev);
      assert SlotRight(EventEl(ev));
    }
    forall e, ev, f | e in schema.entities && ev in e.events && f in ev.fields
      ensures f.annotations.resource == Absent
    {
      var c := EventFieldCursor(schema, e, ev, f, [FieldEl(f)]);
      assert SlotRight(Current(c));
    }
    forall r, f | r in schema.records && f in r.fields ensures f.annotations.resource == Absent {
      var c := RecordFieldCursor(schema, r, f, [FieldEl(f)]);
      assert SlotRight(Current(c));
    }
    forall c | c in Visits(schema) && c != [] && Current(c).DataTypeEl? ensures NoRoleOnReference(Current(c).ty) {
      assert SlotRight(Current(c));
    }
    EveryTypeVisited(schema, NoRoleOnReference);
  }

  /** A walk raises no error about roles exactly when they are placed right. */
  lemma RolesPlacedIff(schema: Schema)
    ensures (forall c | c in Visits(schema) :: RoleProblem(c).None?) <==> RolesPlaced(schema)
  {
    if forall c | c in Visits(schema) :: RoleProblem(c).None? {
      forall c | c in Visits(schema) && c != [] ensures SlotRight(Current(c)) {
        NoErrorIffSlotRight(c);
        forall e ensures !RoleErrorOf(c, e) { RoleErrorsRaised(schema, e); }
      }
      RightSlotsPlaced(schema);
    }
    if RolesPlaced(schema) {
      forall c | c in Visits(schema) ensures RoleProblem(c).None? {
        if RoleProblem(c).Some? {
          RoleErrorsRaised(schema, RoleProblem(c).value);
          var d :| d in Visits(schema) && RoleErrorOf(d, RoleProblem(c).value);
          PlacedSlotsRight(schema, d);
          NoErrorIffSlotRight(d);
        }
      }
    }
  }
}
