/** The errors of the resource constraint, read off the schema itself. */
module ResourceErrors {
  import opened Wrappers
  import opened SchemaModel
  import opened Walk
  import opened Cursors
  import opened Records
  import opened Resources
  import opened ResourceRoles
  import opened ResourceSchemas

  // ---- What is wrong with a schema ------------------------------------------

  ghost predicate Undeclared(schema: Schema, resource: Path) {
    forall flags :: !Declares(schema, resource, flags)
  }

  /** A usage record claims of a resource that is not declared, or a capacity that its
      resource does not declare. */
  ghost predicate WrongUsage(schema: Schema, r: Record, resource: Path, e: ResourceError) {
    var at := [SchemaEl(schema), RecordEl(r)];
    || (Undeclared(schema, resource) && e == UnknownResource(at, resource))
    || (exists flags, f :: && Declares(schema, resource, flags) && f in r.fields && f.name !in flags
                           && e == UndeclaredCapacity(at, resource, f.name))
  }

  /** A bounds record is of a resource that is not declared or has no bounded capacity,
      or does not name exactly the bounded ones. */
  ghost predicate WrongBounds(schema: Schema, r: Record, resource: Path, e: ResourceError) {
    var at := [SchemaEl(schema), RecordEl(r)];
    || (Undeclared(schema, resource) && e == UnknownResource(at, resource))
    || (exists flags :: Declares(schema, resource, flags) && WrongBoundsOf(flags, at, r, resource, e))
  }

  ghost predicate WrongBoundsOf(flags: map<Identifier, bool>, at: seq<Element>, r: Record, resource: Path,
                                e: ResourceError) {
    if !HasBounded(flags) then e == UnexpectedBounds(at, resource)
    else
      || (exists f :: && f in r.fields && !(f.name in flags && flags[f.name])
                      && e == UnboundedCapacity(at, resource, f.name))
      || (exists n :: && n in flags && flags[n] && (forall f | f in r.fields :: f.name != n)
                      && e == UncoveredCapacity(at, resource, n))
  }

  /** A usage referenced at `c` is in a list of the reference's data, not below a
      reference, in no entity, on an entity that is no FSM, or on a final state. */
  ghost predicate WrongUsageRef(c: seq<Element>, resource: Path, e: ResourceError)
    requires |c| >= 3 && (c[1].EntityEl? ==> c[2].EventEl?)
  {
    if !exists x :: x in c && IsReference(x) then e == UsageNotOnReference(c)
    else if !UnderReference(c) then e == UsageInList(c)
    else if !c[1].EntityEl? then e == MisplacedRole(c, UsageRole)
    else
      var entity, event := c[1].entity, c[2].event;
      if entity.annotations.fsm.Absent? then e == NonFsmUser(entity.path, resource)
      else
        && entity.annotations.fsm.Payload? && Fsms.IsFinalState(entity.annotations.fsm.value, event.name)
        && e == UsageOnFinalState(c, entity.path, event.name, resource)
  }

  /** Bounds referenced at `c` are in a list, or not in an event of their resource. */
  ghost predicate WrongBoundsRef(c: seq<Element>, resource: Path, e: ResourceError)
    requires |c| >= 2
  {
    if AnyList(c) then e == BoundsInList(c)
    else !(c[1].EntityEl? && c[1].entity.path == resource) && e == ForeignBounds(c, resource)
  }

  ghost predicate WrongRef(schema: Schema, c: seq<Element>, e: ResourceError)
    requires Shaped(schema, c) && AtRecordType(c)
  {
    var p := Current(c).ty.path;
    || (exists resource :: IsUsage(schema, p, resource) && WrongUsageRef(c, resource, e))
    || (exists resource :: IsBounds(schema, p, resource) && WrongBoundsRef(c, resource, e))
  }

  ghost predicate IsRoleError(schema: Schema, e: ResourceError) {
    exists c :: c in Visits(schema) && RoleErrorOf(c, e)
  }

  ghost predicate IsUsageError(schema: Schema, e: ResourceError) {
    exists r, resource :: && r in schema.records && r.annotations.resource == Payload(Usage(resource))
                          && WrongUsage(schema, r, resource, e)
  }

  ghost predicate IsBoundsError(schema: Schema, e: ResourceError) {
    exists r, resource :: && r in schema.records && r.annotations.resource == Payload(Bounds(resource))
                          && WrongBounds(schema, r, resource, e)
  }

  ghost predicate IsRefError(schema: Schema, e: ResourceError) {
    exists c :: c in Visits(schema) && Shaped(schema, c) && AtRecordType(c) && WrongRef(schema, c, e)
  }

  /** A resource with a bounded capacity shows its bounds on none of its events. */
  ghost predicate IsMissing(schema: Schema, e: ResourceError) {
    exists resource, flags :: && Declares(schema, resource, flags) && HasBounded(flags)
                              && !ShownFor(schema, resource) && e == MissingBounds(resource)
  }

  /** One of the ways in which the resources of a schema can be wrong. */
  ghost predicate IsError(schema: Schema, e: ResourceError) {
    || IsRoleError(schema, e) || IsUsageError(schema, e) || IsRefError(schema, e)
    || IsBoundsError(schema, e) || IsMissing(schema, e)
  }

  // ---- The checks find exactly these ----------------------------------------

  lemma FieldNamesAre(fields: seq<Field>)
    ensures forall n :: n in FieldNames(fields) <==> exists f :: f in fields && f.name == n
  {
    forall f | f in fields ensures f.name in FieldNames(fields) {
      var i :| 0 <= i < |fields| && fields[i] == f;
      assert FieldNames(fields)[i] == f.name;
    }
  }

  lemma OneUsage(schema: Schema, v: View, r: Record, resource: Path, e: ResourceError)
    requires DefinitionsIn(schema, v.resources)
    ensures UsageError(v, RoleRecord(resource, FieldNames(r.fields), [SchemaEl(schema), RecordEl(r)]), e) <==>
            WrongUsage(schema, r, resource, e)
  {
    FieldNamesAre(r.fields);
    if resource in v.resources {
      assert Declares(schema, resource, v.resources[resource]);
    }
  }

  lemma FoundUsage(schema: Schema, v: View, p: Path, e: ResourceError)
    requires DefinitionsIn(schema, v.resources) && RolesIn(schema, Usages(schema), v.usages)
    requires p in v.usages && UsageError(v, v.usages[p], e)
    ensures IsUsageError(schema, e)
  {
    var r :| r in schema.records && r.path == p && Usages(schema)(r) == Some(v.usages[p]);
    OneUsage(schema, v, r, v.usages[p].resource, e);
    assert r.annotations.resource == Payload(Usage(v.usages[p].resource));
  }

  lemma FindUsage(schema: Schema, v: View, r: Record, resource: Path, e: ResourceError)
    requires DefinitionsIn(schema, v.resources) && RolesIn(schema, Usages(schema), v.usages)
    requires r in schema.records && r.annotations.resource == Payload(Usage(resource))
    requires WrongUsage(schema, r, resource, e)
    ensures r.path in v.usages && UsageError(v, v.usages[r.path], e)
  {
    assert Usages(schema)(r) == Some(RoleRecord(resource, FieldNames(r.fields), [SchemaEl(schema), RecordEl(r)]));
    OneUsage(schema, v, r, resource, e);
  }

  lemma UsageErrorsFound(schema: Schema, v: View, e: ResourceError)
    requires DefinitionsIn(schema, v.resources) && RolesIn(schema, Usages(schema), v.usages)
    ensures (exists p :: p in v.usages && UsageError(v, v.usages[p], e)) <==> IsUsageError(schema, e)
  {
    if p :| p in v.usages && UsageError(v, v.usages[p], e) {
      FoundUsage(schema, v, p, e);
    }
    if IsUsageError(schema, e) {
      var r, resource :| && r in schema.records && r.annotations.resource == Payload(Usage(resource))
                         && WrongUsage(schema, r, resource, e);
      FindUsage(schema, v, r, resource, e);
    }
  }

  lemma OneBounds(schema: Schema, v: View, r: Record, resource: Path, e: ResourceError)
    requires DefinitionsIn(schema, v.resources)
    ensures BoundsError(v, RoleRecord(resource, FieldNames(r.fields), [SchemaEl(schema), RecordEl(r)]), e) <==>
            WrongBounds(schema, r, resource, e)
  {
    FieldNamesAre(r.fields);
    if resource in v.resources {
      var flags, at := v.resources[resource], [SchemaEl(schema), RecordEl(r)];
      assert Declares(schema, resource, flags);
      BoundsOfFlags(flags, at, r, resource, e);
    }
  }

  lemma BoundsOfFlags(flags: map<Identifier, bool>, at: seq<Element>, r: Record, resource: Path, e: ResourceError)
    ensures WrongBoundsOf(flags, at, r, resource, e) <==>
            var b := RoleRecord(resource, FieldNames(r.fields), at);
            if !HasBounded(flags) then e == UnexpectedBounds(at, resource)
            else || (exists n :: n in b.fields && Unbounded(flags, b, n, e))
                 || exists n :: n in flags.Keys && Uncovered(flags, b, n, e)
  {
    var b := RoleRecord(resource, FieldNames(r.fields), at);
    FieldNamesAre(r.fields);
    if n :| n in b.fields && Unbounded(flags, b, n, e) {
      var f :| f in r.fields && f.name == n;
    }
    if f :| f in r.fields && !(f.name in flags && flags[f.name]) && e == UnboundedCapacity(at, resource, f.name) {
      assert f.name in b.fields && Unbounded(flags, b, f.name, e);
    }
    if n :| && n in flags && flags[n] && (forall f | f in r.fields :: f.name != n)
            && e == UncoveredCapacity(at, resource, n) {
      assert n in flags.Keys && Uncovered(flags, b, n, e);
    }
  }

  lemma FoundBounds(schema: Schema, v: View, p: Path, e: ResourceError)
    requires DefinitionsIn(schema, v.resources) && RolesIn(schema, AllBounds(schema), v.bounds)
    requires p in v.bounds && BoundsError(v, v.bounds[p], e)
    ensures IsBoundsError(schema, e)
  {
    var r :| r in schema.records && r.path == p && AllBounds(schema)(r) == Some(v.bounds[p]);
    OneBounds(schema, v, r, v.bounds[p].resource, e);
    assert r.annotations.resource == Payload(Bounds(v.bounds[p].resource));
  }

  lemma FindBounds(schema: Schema, v: View, r: Record, resource: Path, e: ResourceError)
    requires DefinitionsIn(schema, v.resources) && RolesIn(schema, AllBounds(schema), v.bounds)
    requires r in schema.records && r.annotations.resource == Payload(Bounds(resource))
    requires WrongBounds(schema, r, resource, e)
    ensures r.path in v.bounds && BoundsError(v, v.bounds[r.path], e)
  {
    assert AllBounds(schema)(r) == Some(RoleRecord(resource, FieldNames(r.fields), [SchemaEl(schema), RecordEl(r)]));
    OneBounds(schema, v, r, resource, e);
  }

  lemma BoundsErrorsFound(schema: Schema, v: View, e: ResourceError)
    requires DefinitionsIn(schema, v.resources) && RolesIn(schema, AllBounds(schema), v.bounds)
    ensures (exists p :: p in v.bounds && BoundsError(v, v.bounds[p], e)) <==> IsBoundsError(schema, e)
  {
    if p :| p in v.bounds && BoundsError(v, v.bounds[p], e) {
      FoundBounds(schema, v, p, e);
    }
    if IsBoundsError(schema, e) {
      var r, resource :| && r in schema.records && r.annotations.resource == Payload(Bounds(resource))
                         && WrongBounds(schema, r, resource, e);
      FindBounds(schema, v, r, resource, e);
    }
  }

  lemma FoundMissing(schema: Schema, v: View, p: Path)
    requires WellFormed(schema) && Complete(schema, v) && RefsGathered(Visits(schema), v)
    requires p in v.resources && HasBounded(v.resources[p]) && forall r | r in v.refs :: !ShowsBounds(v, r, p)
    ensures IsMissing(schema, MissingBounds(p))
  {
    ShownForIff(schema, v, p);
    assert Declares(schema, p, v.resources[p]);
  }

  lemma FindMissing(schema: Schema, v: View, resource: Path, flags: map<Identifier, bool>)
    requires WellFormed(schema) && Complete(schema, v) && RefsGathered(Visits(schema), v)
    requires Declares(schema, resource, flags) && HasBounded(flags) && !ShownFor(schema, resource)
    ensures MissingError(v, MissingBounds(resource))
  {
    ShownForIff(schema, v, resource);
  }

  lemma MissingFound(schema: Schema, v: View, e: ResourceError)
    requires WellFormed(schema) && Complete(schema, v) && RefsGathered(Visits(schema), v)
    ensures MissingError(v, e) <==> IsMissing(schema, e)
  {
    if MissingError(v, e) {
      FoundMissing(schema, v, e.resource);
    }
    if IsMissing(schema, e) {
      var resource, flags :| && Declares(schema, resource, flags) && HasBounded(flags)
                             && !ShownFor(schema, resource) && e == MissingBounds(resource);
      FindMissing(schema, v, resource, flags);
    }
  }

  lemma OneUsageRef(schema: Schema, v: View, c: seq<Element>, r: RecordRef, e: ResourceError)
    requires Shaped(schema, c) && AtRecordType(c) && Describes(r, c) && r.location == c
    requires FinalsIn(schema, v.finalEvents) && r.record in v.usages
    requires r.onEntityRef <==> exists x :: x in c && IsReference(x)
    ensures RefError(v, r) == Some(e) <==> WrongUsageRef(c, v.usages[r.record].resource, e)
  {
    if c[1].EntityEl? {
      FinalInView(schema, v.finalEvents, c[1].entity, c[2].event);
    }
  }

  lemma OneBoundsRef(v: View, c: seq<Element>, r: RecordRef, e: ResourceError)
    requires |c| >= 2 && Describes(r, c) && r.location == c && r.record !in v.usages && r.record in v.bounds
    ensures RefError(v, r) == Some(e) <==> WrongBoundsRef(c, v.bounds[r.record].resource, e)
  {}

  lemma RefOfUsage(schema: Schema, c: seq<Element>, resource: Path, e: ResourceError)
    requires Shaped(schema, c) && AtRecordType(c)
    requires forall a :: IsUsage(schema, Current(c).ty.path, a) <==> a == resource
    requires forall a :: !IsBounds(schema, Current(c).ty.path, a)
    ensures WrongRef(schema, c, e) <==> WrongUsageRef(c, resource, e)
  {
    assert IsUsage(schema, Current(c).ty.path, resource);
  }

  lemma RefOfBounds(schema: Schema, c: seq<Element>, resource: Path, e: ResourceError)
    requires Shaped(schema, c) && AtRecordType(c)
    requires forall a :: IsBounds(schema, Current(c).ty.path, a) <==> a == resource
    requires forall a :: !IsUsage(schema, Current(c).ty.path, a)
    ensures WrongRef(schema, c, e) <==> WrongBoundsRef(c, resource, e)
  {
    assert IsBounds(schema, Current(c).ty.path, resource);
  }

  /** At most one of the two maps knows the record, as its role in the schema. */
  lemma RoleInView(schema: Schema, v: View, p: Path)
    requires WellFormed(schema) && Complete(schema, v)
    ensures p in v.usages ==>
              && (forall a :: IsUsage(schema, p, a) <==> a == v.usages[p].resource)
              && forall a :: !IsBounds(schema, p, a)
    ensures p in v.bounds ==>
              && (forall a :: IsBounds(schema, p, a) <==> a == v.bounds[p].resource)
              && forall a :: !IsUsage(schema, p, a)
    ensures p !in v.usages && p !in v.bounds ==> forall a :: !IsUsage(schema, p, a) && !IsBounds(schema, p, a)
  {
    UsageInView(schema, v.usages, p);
    BoundsInView(schema, v.bounds, p);
    OneRole(schema, p);
    if p in v.usages { assert IsUsage(schema, p, v.usages[p].resource); }
    if p in v.bounds { assert IsBounds(schema, p, v.bounds[p].resource); }
  }

  predicate ListAt(c: seq<Element>, k: int) {
    0 <= k < |c| && c[k].DataTypeEl? && c[k].ty.ListType?
  }

  predicate ReferenceAt(c: seq<Element>, k: int) {
    0 <= k < |c| && c[k].DataTypeEl? && c[k].ty.EntityRef?
  }

  /** What is recorded of a record reference, read off its cursor. */
  lemma RefAtSpec(schema: Schema, c: seq<Element>, p: Path)
    requires c in Visits(schema) && AtRecordType(c)
    ensures Shaped(schema, c)
    ensures var r := RefAt(c, p);
            && r.record == p && r.location == c
            && (r.inList <==> exists k :: ListAt(c, k))
            && (r.onEntityRef <==> exists k :: ReferenceAt(c, k))
            && (r.inReferenceList <==>
                r.onEntityRef && forall k | ReferenceAt(c, k) :: exists l :: k < l && ListAt(c, l))
            && r.entity == (if c[1].EntityEl?
                            then Some((c[1].entity.path, c[1].entity.annotations.fsm != Absent)) else None)
            && r.event == (if c[1].EntityEl? then Some(c[2].event.name) else None)
  {
    RefHere(schema, c, p);
    InAt(c);
    UnderReferenceAt(c);
  }

  lemma InAt(c: seq<Element>)
    ensures AnyList(c) <==> exists k :: ListAt(c, k)
    ensures (exists x :: x in c && IsReference(x)) <==> exists k :: ReferenceAt(c, k)
  {
    if e :| e in c && IsList(e) {
      var k :| 0 <= k < |c| && c[k] == e;
      assert ListAt(c, k);
    }
    if e :| e in c && IsReference(e) {
      var k :| 0 <= k < |c| && c[k] == e;
      assert ReferenceAt(c, k);
    }
    if k :| ListAt(c, k) {
      assert c[k] in c && IsList(c[k]);
    }
    if k :| ReferenceAt(c, k) {
      assert c[k] in c && IsReference(c[k]);
    }
  }

  lemma UnderReferenceAt(c: seq<Element>)
    ensures UnderReference(c) <==> exists k :: ReferenceAt(c, k) && forall l | k < l :: !ListAt(c, l)
  {
    if k :| 0 <= k < |c| && IsReference(c[k]) && forall j | k < j < |c| :: !IsList(c[j]) {
      assert ReferenceAt(c, k);
    }
    if k :| ReferenceAt(c, k) && forall l | k < l :: !ListAt(c, l) {
      assert IsReference(c[k]);
      forall j | k < j < |c| ensures !IsList(c[j]) {
        assert !ListAt(c, j);
      }
    }
  }

  lemma RefHere(schema: Schema, c: seq<Element>, p: Path)
    requires c in Visits(schema) && AtRecordType(c)
    ensures Shaped(schema, c)
    ensures var r := RefAt(c, p);
            && r.record == p && r.location == c && Describes(r, c)
            && (r.onEntityRef <==> exists x :: x in c && IsReference(x))
  {
    CursorShape(schema, c);
    RefAtDescribes(schema, c, p);
    BelowReferenceSpec(c);
  }

  lemma OneRef(schema: Schema, v: View, c: seq<Element>, e: ResourceError)
    requires WellFormed(schema) && Complete(schema, v) && c in Visits(schema) && AtRecordType(c)
    ensures Shaped(schema, c) && (RefError(v, RefAt(c, Current(c).ty.path)) == Some(e) <==> WrongRef(schema, c, e))
  {
    var p := Current(c).ty.path;
    RefHere(schema, c, p);
    RoleInView(schema, v, p);
    if p in v.usages {
      OneUsageRef(schema, v, c, RefAt(c, p), e);
      RefOfUsage(schema, c, v.usages[p].resource, e);
    } else if p in v.bounds {
      OneBoundsRef(v, c, RefAt(c, p), e);
      RefOfBounds(schema, c, v.bounds[p].resource, e);
    }
  }

  lemma FoundRef(schema: Schema, v: View, r: RecordRef, e: ResourceError)
    requires WellFormed(schema) && Complete(schema, v) && RefsGathered(Visits(schema), v)
    requires r in v.refs && RefError(v, r) == Some(e)
    ensures IsRefError(schema, e)
  {
    var c :| c in Visits(schema) && AtRecordType(c) && r == RefAt(c, Current(c).ty.path);
    OneRef(schema, v, c, e);
  }

  lemma FindRef(schema: Schema, v: View, c: seq<Element>, e: ResourceError)
    requires WellFormed(schema) && Complete(schema, v) && RefsGathered(Visits(schema), v)
    requires c in Visits(schema) && Shaped(schema, c) && AtRecordType(c) && WrongRef(schema, c, e)
    ensures RefAt(c, Current(c).ty.path) in v.refs && RefError(v, RefAt(c, Current(c).ty.path)) == Some(e)
  {
    OneRef(schema, v, c, e);
  }

  lemma RefErrorsFound(schema: Schema, v: View, e: ResourceError)
    requires WellFormed(schema) && Complete(schema, v) && RefsGathered(Visits(schema), v)
    ensures (exists r :: r in v.refs && RefError(v, r) == Some(e)) <==> IsRefError(schema, e)
  {
    if r :| r in v.refs && RefError(v, r) == Some(e) {
      FoundRef(schema, v, r, e);
    }
    if IsRefError(schema, e) {
      var c :| c in Visits(schema) && Shaped(schema, c) && AtRecordType(c) && WrongRef(schema, c, e);
      FindRef(schema, v, c, e);
    }
  }

  /** After a walk the errors met and what is wrong with what was gathered are exactly
      what is wrong with the schema. */
  lemma ErrorsAreTheSchemas(schema: Schema, e: ResourceError)
    requires WellFormed(schema)
    ensures var v := After(Visits(schema)); e in v.errors || Wrong(v, e) <==> IsError(schema, e)
  {
    var v := After(Visits(schema));
    WalkIsComplete(schema);
    RoleErrorsRaised(schema, e);
    UsageErrorsFound(schema, v, e);
    RefErrorsFound(schema, v, e);
    BoundsErrorsFound(schema, v, e);
    MissingFound(schema, v, e);
  }

  lemma NoErrorIsMultiple(schema: Schema, e: ResourceError)
    requires IsError(schema, e)
    ensures !e.Multiple?
  {}
}
