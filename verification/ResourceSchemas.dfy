/** What acceptance by the resource constraint means for a schema, and what it
    guarantees together with the FSM constraint. */
module ResourceSchemas {
  import opened Wrappers
  import opened SchemaModel
  import opened Walk
  import opened Cursors
  import opened Records
  import opened Resources
  import opened ResourceRoles

  /** The state after `cursors` have been visited. */
  function After(cursors: seq<seq<Element>>): View {
    if cursors == [] then START else Next(After(cursors[..|cursors| - 1]), cursors[|cursors| - 1])
  }

  // ---- Gathering ------------------------------------------------------------

  /** `m` holds exactly what `declared` yields for the entities visited so far. */
  ghost predicate EntitiesGathered<V>(schema: Schema, cursors: seq<seq<Element>>,
                                      declared: Entity -> Option<V>, m: map<Path, V>) {
    && (forall e | e in schema.entities && [SchemaEl(schema), EntityEl(e)] in cursors && declared(e).Some? ::
          e.path in m && m[e.path] == declared(e).value)
    && (forall p | p in m :: exists e :: e in schema.entities && e.path == p && declared(e).Some?)
  }

  ghost predicate RecordsGathered<V>(schema: Schema, cursors: seq<seq<Element>>,
                                     declared: Record -> Option<V>, m: map<Path, V>) {
    && (forall r | r in schema.records && [SchemaEl(schema), RecordEl(r)] in cursors && declared(r).Some? ::
          r.path in m && m[r.path] == declared(r).value)
    && (forall p | p in m :: exists r :: r in schema.records && r.path == p && declared(r).Some?)
  }

  lemma GatherEntity<V>(schema: Schema, cursors: seq<seq<Element>>, declared: Entity -> Option<V>,
                        m: map<Path, V>, c: seq<Element>, n: map<Path, V>)
    requires WellFormed(schema) && Shaped(schema, c) && EntitiesGathered(schema, cursors, declared, m)
    requires n == if AtEntity(c) then Insert(m, Current(c).entity.path, declared(Current(c).entity)) else m
    ensures EntitiesGathered(schema, cursors + [c], declared, n)
  {
    if Current(c).EntityEl? {
      assert c == [SchemaEl(schema), EntityEl(c[1].entity)];
    }
    forall e | e in schema.entities && [SchemaEl(schema), EntityEl(e)] in cursors + [c] && declared(e).Some?
      ensures e.path in n && n[e.path] == declared(e).value
    {
      if c == [SchemaEl(schema), EntityEl(e)] {
        assert Current(c).entity == e;
      } else {
        assert [SchemaEl(schema), EntityEl(e)] in cursors;
      }
    }
  }

  lemma GatherRecord<V>(schema: Schema, cursors: seq<seq<Element>>, declared: Record -> Option<V>,
                        m: map<Path, V>, c: seq<Element>, n: map<Path, V>)
    requires WellFormed(schema) && Shaped(schema, c) && RecordsGathered(schema, cursors, declared, m)
    requires n == if AtRecord(c) then Insert(m, Current(c).record.path, declared(Current(c).record)) else m
    ensures RecordsGathered(schema, cursors + [c], declared, n)
  {
    if Current(c).RecordEl? {
      assert c == [SchemaEl(schema), RecordEl(c[1].record)];
    }
    forall r | r in schema.records && [SchemaEl(schema), RecordEl(r)] in cursors + [c] && declared(r).Some?
      ensures r.path in n && n[r.path] == declared(r).value
    {
      if c == [SchemaEl(schema), RecordEl(r)] {
        assert Current(c).record == r;
      } else {
        assert [SchemaEl(schema), RecordEl(r)] in cursors;
      }
    }
  }

  /** The usage a record declares, located where the walk meets it. */
  function Usages(schema: Schema): Record -> Option<RoleRecord> {
    (r: Record) => UsageOf(r, [SchemaEl(schema), RecordEl(r)])
  }

  function AllBounds(schema: Schema): Record -> Option<RoleRecord> {
    (r: Record) => BoundsOf(r, [SchemaEl(schema), RecordEl(r)])
  }

  /** The references gathered are the record references visited, and an error is
      recorded exactly for every role problem. */
  ghost predicate RefsGathered(cursors: seq<seq<Element>>, v: View) {
    && (forall r :: r in v.refs <==> exists c :: c in cursors && AtRecordType(c) && r == RefAt(c, Current(c).ty.path))
    && (forall e :: e in v.errors <==> exists c :: c in cursors && RoleProblem(c) == Some(e))
  }

  ghost predicate Gathered(schema: Schema, cursors: seq<seq<Element>>, v: View) {
    && RefsGathered(cursors, v)
    && EntitiesGathered(schema, cursors, DefinitionOf, v.resources)
    && EntitiesGathered(schema, cursors, FinalsOf, v.finalEvents)
    && RecordsGathered(schema, cursors, Usages(schema), v.usages)
    && RecordsGathered(schema, cursors, AllBounds(schema), v.bounds)
  }

  lemma GatherRefs(cursors: seq<seq<Element>>, v: View, c: seq<Element>)
    requires RefsGathered(cursors, v)
    ensures RefsGathered(cursors + [c], Next(v, c))
  {
    assert forall d :: d in cursors + [c] <==> d in cursors || d == c;
  }

  lemma {:induction false} WalkGathers(schema: Schema, k: nat)
    requires WellFormed(schema) && k <= |Visits(schema)|
    ensures Gathered(schema, Visits(schema)[..k], After(Visits(schema)[..k]))
  {
    var visits := Visits(schema);
    if k > 0 {
      WalkGathers(schema, k - 1);
      var cursors, c := visits[..k - 1], visits[k - 1];
      assert visits[..k] == cursors + [c] && visits[..k][..k - 1] == cursors;
      CursorShape(schema, c);
      GatherStep(schema, cursors, After(cursors), c);
    }
  }

  lemma GatherStep(schema: Schema, cursors: seq<seq<Element>>, v: View, c: seq<Element>)
    requires WellFormed(schema) && Shaped(schema, c) && Gathered(schema, cursors, v)
    ensures Gathered(schema, cursors + [c], Next(v, c))
  {
    var w := Next(v, c);
    GatherRefs(cursors, v, c);
    if AtRecord(c) {
      assert c == [SchemaEl(schema), RecordEl(Current(c).record)];
    }
    GatherEntity(schema, cursors, DefinitionOf, v.resources, c, w.resources);
    GatherEntity(schema, cursors, FinalsOf, v.finalEvents, c, w.finalEvents);
    GatherRecord(schema, cursors, Usages(schema), v.usages, c, w.usages);
    GatherRecord(schema, cursors, AllBounds(schema), v.bounds, c, w.bounds);
  }

  // ---- What encloses a reference --------------------------------------------

  /** The cursor passes an entity reference with no list between it and the end. */
  ghost predicate UnderReference(c: seq<Element>) {
    exists k :: 0 <= k < |c| && IsReference(c[k]) && forall j | k < j < |c| :: !IsList(c[j])
  }

  lemma {:induction false} BelowReferenceSpec(c: seq<Element>)
    ensures BelowReference(c).Some? && !AnyList(BelowReference(c).value) <==> UnderReference(c)
    ensures BelowReference(c).Some? <==> exists e :: e in c && IsReference(e)
  {
    if c != [] {
      var rest, last := c[..|c| - 1], c[|c| - 1];
      BelowReferenceSpec(rest);
      assert c == rest + [last];
      UnderReferenceSnoc(rest, last);
      AnyListSnoc(if BelowReference(rest).Some? then BelowReference(rest).value else [], last);
    }
  }

  lemma AnyListSnoc(c: seq<Element>, last: Element)
    ensures AnyList(c + [last]) <==> AnyList(c) || IsList(last)
  {
    assert forall e :: e in c + [last] <==> e in c || e == last;
  }

  lemma UnderReferenceSnoc(c: seq<Element>, last: Element)
    ensures UnderReference(c + [last]) <==> IsReference(last) || (UnderReference(c) && !IsList(last))
  {
    var all := c + [last];
    if IsReference(last) {
      assert IsReference(all[|c|]);
    } else if UnderReference(c) && !IsList(last) {
      var k :| 0 <= k < |c| && IsReference(c[k]) && forall j | k < j < |c| :: !IsList(c[j]);
      assert IsReference(all[k]) && forall j | k < j < |all| :: !IsList(all[j]);
    } else if UnderReference(all) {
      var k :| 0 <= k < |all| && IsReference(all[k]) && forall j | k < j < |all| :: !IsList(all[j]);
      assert all[|c|] == last && IsReference(c[k]);
      forall j | k < j < |c| ensures !IsList(c[j]) { assert c[j] == all[j]; }
    }
  }

  /** Entities enclose from right below the schema, events from right below those. */
  lemma {:induction false} EnclosingSpec(schema: Schema, c: seq<Element>)
    requires c in Visits(schema)
    ensures EnclosingEntity(c) == if |c| >= 2 && c[1].EntityEl? then Some(c[1].entity) else None
    ensures EnclosingEvent(c) == if |c| >= 3 && c[2].EventEl? then Some(c[2].event) else None
    decreases |c|
  {
    CursorShape(schema, c);
    if |c| > 1 {
      var rest := c[..|c| - 1];
      PrefixVisited(schema, c, |c| - 1);
      EnclosingSpec(schema, rest);
      if |c| >= 4 { assert !Current(c).EntityEl? && !Current(c).EventEl?; }
    }
  }

  // ---- Soundness, in terms of the schema ------------------------------------

  ghost predicate Declares(schema: Schema, resource: Path, flags: map<Identifier, bool>) {
    exists e :: e in schema.entities && e.path == resource && DefinitionOf(e) == Some(flags)
  }

  ghost predicate IsUsage(schema: Schema, record: Path, resource: Path) {
    exists r :: r in schema.records && r.path == record && r.annotations.resource == Payload(Usage(resource))
  }

  ghost predicate IsBounds(schema: Schema, record: Path, resource: Path) {
    exists r :: r in schema.records && r.path == record && r.annotations.resource == Payload(Bounds(resource))
  }

  /** The usage is carried by an entity reference, in no list of that reference's
      data, on an event of an FSM entity that does not lead into a final state. */
  ghost predicate UsageRefSound(c: seq<Element>) {
    && UnderReference(c)
    && |c| >= 3 && c[1].EntityEl? && c[2].EventEl?
    && !c[1].entity.annotations.fsm.Absent?
    && (c[1].entity.annotations.fsm.Payload? ==> !Fsms.IsFinalState(c[1].entity.annotations.fsm.value, c[2].event.name))
  }

  /** The bounds are on an event of their own resource, and in no list. */
  ghost predicate BoundsRefSound(c: seq<Element>, resource: Path) {
    !AnyList(c) && |c| >= 2 && c[1].EntityEl? && c[1].entity.path == resource
  }

  /** Whatever role the referenced record has, it may be referenced here. */
  ghost predicate RefSound(schema: Schema, c: seq<Element>)
    requires AtRecordType(c)
  {
    && (forall resource | IsUsage(schema, Current(c).ty.path, resource) :: UsageRefSound(c))
    && (forall resource | IsBounds(schema, Current(c).ty.path, resource) :: BoundsRefSound(c, resource))
  }

  ghost predicate RefsSound(schema: Schema) {
    forall c | c in Visits(schema) && AtRecordType(c) :: RefSound(schema, c)
  }

  ghost predicate UsageSound(schema: Schema, r: Record, resource: Path) {
    exists flags :: Declares(schema, resource, flags) && forall f | f in r.fields :: f.name in flags
  }

  ghost predicate BoundsRecordSound(schema: Schema, r: Record, resource: Path) {
    exists flags :: Declares(schema, resource, flags) && HasBounded(flags)
                    && (forall f | f in r.fields :: f.name in flags && flags[f.name])
                    && (forall n | n in flags && flags[n] :: exists f :: f in r.fields && f.name == n)
  }

  /** A usage claims capacities its resource declares. */
  ghost predicate UsagesSound(schema: Schema) {
    forall r, resource | r in schema.records && r.annotations.resource == Payload(Usage(resource)) ::
      UsageSound(schema, r, resource)
  }

  /** Bounds name exactly the bounded capacities of their resource, of which there is one. */
  ghost predicate BoundsSound(schema: Schema) {
    forall r, resource | r in schema.records && r.annotations.resource == Payload(Bounds(resource)) ::
      BoundsRecordSound(schema, r, resource)
  }

  /** A resource with a bounded capacity has an event that carries its bounds. */
  ghost predicate BoundsShown(schema: Schema) {
    forall resource, flags | Declares(schema, resource, flags) && HasBounded(flags) ::
      exists c :: c in Visits(schema) && AtRecordType(c) && IsBounds(schema, Current(c).ty.path, resource)
                  && BoundsRefSound(c, resource)
  }

  ghost predicate ResourcesSound(schema: Schema) {
    && RolesPlaced(schema)
    && RefsSound(schema) && UsagesSound(schema) && BoundsSound(schema) && BoundsShown(schema)
  }

  // ---- The gathered state reflects the schema -------------------------------

  ghost predicate DefinitionsIn(schema: Schema, m: map<Path, map<Identifier, bool>>) {
    && (forall p | p in m :: Declares(schema, p, m[p]))
    && (forall p, flags | Declares(schema, p, flags) :: p in m && m[p] == flags)
  }

  ghost predicate RolesIn(schema: Schema, declared: Record -> Option<RoleRecord>, m: map<Path, RoleRecord>) {
    && (forall p | p in m :: exists r :: r in schema.records && r.path == p && declared(r) == Some(m[p]))
    && (forall r | r in schema.records && declared(r).Some? :: r.path in m && m[r.path] == declared(r).value)
  }

  ghost predicate FinalsIn(schema: Schema, m: map<Path, set<Identifier>>) {
    forall e | e in schema.entities ::
      if FinalsOf(e).Some? then e.path in m && m[e.path] == FinalsOf(e).value else e.path !in m
  }

  /** What a complete walk has gathered. */
  ghost predicate Complete(schema: Schema, v: View) {
    && DefinitionsIn(schema, v.resources)
    && RolesIn(schema, Usages(schema), v.usages)
    && RolesIn(schema, AllBounds(schema), v.bounds)
    && FinalsIn(schema, v.finalEvents)
  }

  lemma AllEntitiesGathered<V>(schema: Schema, declared: Entity -> Option<V>, m: map<Path, V>)
    requires WellFormed(schema) && EntitiesGathered(schema, Visits(schema), declared, m)
    ensures forall e | e in schema.entities ::
              if declared(e).Some? then e.path in m && m[e.path] == declared(e).value else e.path !in m
    ensures forall p | p in m :: exists e :: e in schema.entities && e.path == p && declared(e) == Some(m[p])
  {
    forall e | e in schema.entities
      ensures if declared(e).Some? then e.path in m && m[e.path] == declared(e).value else e.path !in m
    {
      EntityHasCursor(schema, e);
    }
  }

  lemma AllRecordsGathered(schema: Schema, declared: Record -> Option<RoleRecord>, m: map<Path, RoleRecord>)
    requires WellFormed(schema) && RecordsGathered(schema, Visits(schema), declared, m)
    ensures RolesIn(schema, declared, m)
  {
    forall r | r in schema.records && declared(r).Some? ensures r.path in m && m[r.path] == declared(r).value {
      RecordHasCursor(schema, r);
    }
  }

  lemma WalkIsComplete(schema: Schema)
    requires WellFormed(schema)
    ensures Complete(schema, After(Visits(schema))) && RefsGathered(Visits(schema), After(Visits(schema)))
  {
    var visits := Visits(schema);
    WalkGathers(schema, |visits|);
    assert visits[..|visits|] == visits;
    GatheredIsComplete(schema, After(visits));
  }

  lemma GatheredIsComplete(schema: Schema, v: View)
    requires WellFormed(schema) && Gathered(schema, Visits(schema), v)
    ensures Complete(schema, v)
  {
    AllEntitiesGathered(schema, DefinitionOf, v.resources);
    AllEntitiesGathered(schema, FinalsOf, v.finalEvents);
    AllRecordsGathered(schema, Usages(schema), v.usages);
    AllRecordsGathered(schema, AllBounds(schema), v.bounds);
    assert DefinitionsIn(schema, v.resources) by {
      forall p | p in v.resources ensures Declares(schema, p, v.resources[p]) {}
    }
  }

  /** What is recorded of a reference says where the cursor is. */
  ghost predicate Describes(r: RecordRef, c: seq<Element>) {
    && (r.onEntityRef && !r.inReferenceList <==> UnderReference(c))
    && (r.inReferenceList ==> r.onEntityRef)
    && (r.inList <==> AnyList(c))
    && r.entity == (if |c| >= 2 && c[1].EntityEl?
                    then Some((c[1].entity.path, !c[1].entity.annotations.fsm.Absent?)) else None)
    && r.event == (if |c| >= 3 && c[2].EventEl? then Some(c[2].event.name) else None)
  }

  lemma RefAtDescribes(schema: Schema, c: seq<Element>, p: Path)
    requires c in Visits(schema)
    ensures Describes(RefAt(c, p), c)
  {
    EnclosingSpec(schema, c);
    BelowReferenceSpec(c);
  }

  lemma UsageRefSpec(schema: Schema, v: View, c: seq<Element>, r: RecordRef)
    requires Shaped(schema, c) && AtRecordType(c) && Describes(r, c)
    requires FinalsIn(schema, v.finalEvents) && r.record in v.usages
    ensures RefError(v, r).None? <==> UsageRefSound(c)
  {
    if c[1].EntityEl? {
      FinalInView(schema, v.finalEvents, c[1].entity, c[2].event);
    }
  }

  lemma BoundsRefSpec(v: View, c: seq<Element>, r: RecordRef)
    requires Describes(r, c) && r.record !in v.usages && r.record in v.bounds
    ensures RefError(v, r).None? <==> BoundsRefSound(c, v.bounds[r.record].resource)
  {}

  /** A record reference is free of errors exactly when it is sound. */
  lemma RefErrorSpec(schema: Schema, v: View, c: seq<Element>)
    requires WellFormed(schema) && Complete(schema, v) && c in Visits(schema) && AtRecordType(c)
    ensures var p := Current(c).ty.path;
            && (RefError(v, RefAt(c, p)).None? <==> RefSound(schema, c))
            && (forall resource :: ShowsBounds(v, RefAt(c, p), resource) <==>
                  IsBounds(schema, p, resource) && BoundsRefSound(c, resource))
  {
    var p := Current(c).ty.path;
    var r := RefAt(c, p);
    CursorShape(schema, c);
    RefAtDescribes(schema, c, p);
    UsageInView(schema, v.usages, p);
    BoundsInView(schema, v.bounds, p);
    OneRole(schema, p);
    if p in v.usages {
      UsageRefSpec(schema, v, c, r);
      assert IsUsage(schema, p, v.usages[p].resource);
    } else if p in v.bounds {
      BoundsRefSpec(v, c, r);
      assert IsBounds(schema, p, v.bounds[p].resource);
    }
  }

  lemma UsageInView(schema: Schema, m: map<Path, RoleRecord>, p: Path)
    requires WellFormed(schema) && RolesIn(schema, Usages(schema), m)
    ensures forall resource :: IsUsage(schema, p, resource) <==> p in m && m[p].resource == resource
  {
    if p in m {
      var r :| r in schema.records && r.path == p && Usages(schema)(r) == Some(m[p]);
      assert IsUsage(schema, p, m[p].resource);
    }
    forall resource | IsUsage(schema, p, resource) ensures p in m && m[p].resource == resource {
      var r :| r in schema.records && r.path == p && r.annotations.resource == Payload(Usage(resource));
      assert Usages(schema)(r).Some?;
    }
  }

  lemma BoundsInView(schema: Schema, m: map<Path, RoleRecord>, p: Path)
    requires WellFormed(schema) && RolesIn(schema, AllBounds(schema), m)
    ensures forall resource :: IsBounds(schema, p, resource) <==> p in m && m[p].resource == resource
  {
    if p in m {
      var r :| r in schema.records && r.path == p && AllBounds(schema)(r) == Some(m[p]);
      assert IsBounds(schema, p, m[p].resource);
    }
    forall resource | IsBounds(schema, p, resource) ensures p in m && m[p].resource == resource {
      var r :| r in schema.records && r.path == p && r.annotations.resource == Payload(Bounds(resource));
      assert AllBounds(schema)(r).Some?;
    }
  }

  lemma OneRole(schema: Schema, p: Path)
    requires WellFormed(schema)
    ensures forall a, b :: !(IsUsage(schema, p, a) && IsBounds(schema, p, b))
  {}

  lemma FinalInView(schema: Schema, m: map<Path, set<Identifier>>, e: Entity, ev: Event)
    requires FinalsIn(schema, m) && e in schema.entities && ev in e.events
    ensures e.path in m && ev.name in m[e.path] <==>
            e.annotations.fsm.Payload? && Fsms.IsFinalState(e.annotations.fsm.value, ev.name)
  {
    assert FinalsOf(e).Some? <==> e.annotations.fsm.Payload?;
    if FinalsOf(e).Some? {
      var fsm := e.annotations.fsm.value;
      assert ev.name in FinalEvents(e, fsm) <==> Fsms.IsFinalState(fsm, ev.name);
    }
  }

  /** Some event of the resource carries its bounds. */
  ghost predicate ShownFor(schema: Schema, resource: Path) {
    exists c :: c in Visits(schema) && AtRecordType(c) && IsBounds(schema, Current(c).ty.path, resource)
                && BoundsRefSound(c, resource)
  }

  lemma ShownForIff(schema: Schema, v: View, resource: Path)
    requires WellFormed(schema) && Complete(schema, v) && RefsGathered(Visits(schema), v)
    ensures ShownFor(schema, resource) <==> exists r :: r in v.refs && ShowsBounds(v, r, resource)
  {
    if r :| r in v.refs && ShowsBounds(v, r, resource) {
      var c :| c in Visits(schema) && AtRecordType(c) && r == RefAt(c, Current(c).ty.path);
      RefErrorSpec(schema, v, c);
    }
    if c :| c in Visits(schema) && AtRecordType(c) && IsBounds(schema, Current(c).ty.path, resource)
            && BoundsRefSound(c, resource) {
      RefErrorSpec(schema, v, c);
      assert RefAt(c, Current(c).ty.path) in v.refs;
    }
  }
}
