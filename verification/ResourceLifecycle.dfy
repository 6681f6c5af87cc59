/** Acceptance of resources, and what it means on the runs of the FSMs that use
    them. */
module ResourceLifecycle {
  import opened Wrappers
  import opened SchemaModel
  import opened Graphs
  import opened Walk
  import opened Cursors
  import opened Records
  import opened Resources
  import opened ResourceRoles
  import opened ResourceSchemas
  import opened ResourceErrors
  import FsmRuns
  import FsmValidation

  // ---- Acceptance is soundness ----------------------------------------------

  lemma UsagesRight(schema: Schema, v: View)
    requires DefinitionsIn(schema, v.resources) && RolesIn(schema, Usages(schema), v.usages)
    ensures (forall p, e | p in v.usages :: !UsageError(v, v.usages[p], e)) <==> UsagesSound(schema)
  {
    forall r | r in schema.records && Usages(schema)(r).Some?
      ensures (forall e :: !UsageError(v, Usages(schema)(r).value, e)) <==>
              UsageSound(schema, r, Usages(schema)(r).value.resource)
    {
      UsageRight(schema, v, r);
    }
  }

  lemma UsageRight(schema: Schema, v: View, r: Record)
    requires DefinitionsIn(schema, v.resources) && r in schema.records && Usages(schema)(r).Some?
    ensures (forall e :: !UsageError(v, Usages(schema)(r).value, e)) <==>
            UsageSound(schema, r, Usages(schema)(r).value.resource)
  {
    var u := Usages(schema)(r).value;
    FieldNamesAre(r.fields);
    if forall e :: !UsageError(v, u, e) {
      assert !UsageError(v, u, UnknownResource(u.location, u.resource));
      var flags := v.resources[u.resource];
      forall f | f in r.fields ensures f.name in flags {
        assert !UsageError(v, u, UndeclaredCapacity(u.location, u.resource, f.name));
      }
      assert Declares(schema, u.resource, flags);
    }
  }

  lemma BoundsRight(schema: Schema, v: View)
    requires DefinitionsIn(schema, v.resources) && RolesIn(schema, AllBounds(schema), v.bounds)
    ensures (forall p, e | p in v.bounds :: !BoundsError(v, v.bounds[p], e)) <==> BoundsSound(schema)
  {
    forall r | r in schema.records && AllBounds(schema)(r).Some?
      ensures (forall e :: !BoundsError(v, AllBounds(schema)(r).value, e)) <==>
              BoundsRecordSound(schema, r, AllBounds(schema)(r).value.resource)
    {
      OneBoundsRight(schema, v, r);
    }
  }

  lemma OneBoundsRight(schema: Schema, v: View, r: Record)
    requires DefinitionsIn(schema, v.resources) && r in schema.records && AllBounds(schema)(r).Some?
    ensures (forall e :: !BoundsError(v, AllBounds(schema)(r).value, e)) <==>
            BoundsRecordSound(schema, r, AllBounds(schema)(r).value.resource)
  {
    var b := AllBounds(schema)(r).value;
    FieldNamesAre(r.fields);
    if forall e :: !BoundsError(v, b, e) {
      assert !BoundsError(v, b, UnknownResource(b.location, b.resource));
      assert !BoundsError(v, b, UnexpectedBounds(b.location, b.resource));
      var flags := v.resources[b.resource];
      forall f | f in r.fields ensures f.name in flags && flags[f.name] {
        assert f.name in b.fields;
        assert !BoundsError(v, b, UnboundedCapacity(b.location, b.resource, f.name));
        assert !Unbounded(flags, b, f.name, UnboundedCapacity(b.location, b.resource, f.name));
      }
      forall n | n in flags && flags[n] ensures n in b.fields {
        assert n in flags.Keys;
        assert !BoundsError(v, b, UncoveredCapacity(b.location, b.resource, n));
        assert !Uncovered(flags, b, n, UncoveredCapacity(b.location, b.resource, n));
      }
      assert Declares(schema, b.resource, flags);
    }
    if BoundsRecordSound(schema, r, b.resource) {
      var flags :| Declares(schema, b.resource, flags) && HasBounded(flags)
                    && (forall f | f in r.fields :: f.name in flags && flags[f.name])
                    && (forall n | n in flags && flags[n] :: exists f :: f in r.fields && f.name == n);
      assert flags == v.resources[b.resource];
      forall e ensures !BoundsError(v, b, e) {}
    }
  }

  lemma RefsRight(schema: Schema, v: View)
    requires WellFormed(schema) && Complete(schema, v) && RefsGathered(Visits(schema), v)
    ensures (forall r, e | r in v.refs :: RefError(v, r) != Some(e)) <==> RefsSound(schema)
  {
    forall c | c in Visits(schema) && AtRecordType(c)
      ensures RefAt(c, Current(c).ty.path) in v.refs
      ensures RefError(v, RefAt(c, Current(c).ty.path)).None? <==> RefSound(schema, c)
    {
      RefErrorSpec(schema, v, c);
    }
    forall r | r in v.refs ensures (forall e :: RefError(v, r) != Some(e)) <==> RefError(v, r).None? {
      if RefError(v, r).Some? { assert RefError(v, r) == Some(RefError(v, r).value); }
    }
  }

  lemma ShownRight(schema: Schema, v: View)
    requires WellFormed(schema) && Complete(schema, v) && RefsGathered(Visits(schema), v)
    ensures (forall e :: !MissingError(v, e)) <==> BoundsShown(schema)
  {
    if forall e :: !MissingError(v, e) {
      forall resource, flags | Declares(schema, resource, flags) && HasBounded(flags)
        ensures ShownFor(schema, resource)
      {
        assert !MissingError(v, MissingBounds(resource));
        ShownForIff(schema, v, resource);
      }
    }
    if BoundsShown(schema) {
      forall p | p in v.resources && HasBounded(v.resources[p])
        ensures exists r :: r in v.refs && ShowsBounds(v, r, p)
      {
        assert Declares(schema, p, v.resources[p]);
        ShownForIff(schema, v, p);
      }
    }
  }

  /** Nothing is wrong exactly when none of the four checks finds anything. */
  lemma WrongParts(v: View)
    ensures (forall e :: !Wrong(v, e)) <==>
            && (forall p, e | p in v.usages :: !UsageError(v, v.usages[p], e))
            && (forall r, e | r in v.refs :: RefError(v, r) != Some(e))
            && (forall p, e | p in v.bounds :: !BoundsError(v, v.bounds[p], e))
            && (forall e :: !MissingError(v, e))
  {
    if forall e :: !Wrong(v, e) {
      forall p, e | p in v.usages ensures !UsageError(v, v.usages[p], e) { assert !Wrong(v, e); }
      forall p, e | p in v.bounds ensures !BoundsError(v, v.bounds[p], e) { assert !Wrong(v, e); }
      forall r, e | r in v.refs ensures RefError(v, r) != Some(e) { assert !Wrong(v, e); }
      forall e ensures !MissingError(v, e) { assert !Wrong(v, e); }
    }
  }

  lemma NoErrorIffNoProblem(cursors: seq<seq<Element>>, errors: seq<ResourceError>)
    requires forall e :: e in errors <==> exists c :: c in cursors && RoleProblem(c) == Some(e)
    ensures errors == [] <==> forall c | c in cursors :: RoleProblem(c).None?
  {
    if errors != [] {
      assert errors[0] in errors;
    }
    if c :| c in cursors && RoleProblem(c).Some? {
      assert RoleProblem(c).value in errors;
    }
  }

  lemma NothingWrongIffSound(schema: Schema)
    requires WellFormed(schema)
    ensures AllRight(After(Visits(schema))) <==> ResourcesSound(schema)
  {
    var v := After(Visits(schema));
    WalkIsComplete(schema);
    RolesPlacedIff(schema);
    NoErrorIffNoProblem(Visits(schema), v.errors);
    WrongParts(v);
    UsagesRight(schema, v);
    RefsRight(schema, v);
    ShownRight(schema, v);
    BoundsRight(schema, v);
  }

  /** Accepts a schema exactly when its resources are sound; for any other it reports
      exactly what is wrong with it. */
  method Validate(schema: Schema) returns (output: Outcome<ResourceError>)
    requires WellFormed(schema)
    ensures output.Pass? <==> ResourcesSound(schema)
    ensures forall e :: e in Reported(output) <==> IsError(schema, e)
  {
    var constraint := new ResourceConstraint();
    var visits := Visits(schema);
    for i := 0 to |visits|
      invariant constraint.Gathered() == After(visits[..i])
    {
      CursorShape(schema, visits[i]);
      constraint.Visit(visits[i]);
      assert visits[..i + 1][..i] == visits[..i];
    }
    assert visits[..|visits|] == visits;
    NothingWrongIffSound(schema);
    output := constraint.Finish();
    ghost var found :| Concludes(output, constraint.errors + found) && Judged(After(visits), found);
    ReportsErrors(schema, output, After(visits), found);
  }

  lemma ReportsErrors(schema: Schema, output: Outcome<ResourceError>, v: View, found: seq<ResourceError>)
    requires WellFormed(schema) && v == After(Visits(schema))
    requires Concludes(output, v.errors + found) && Judged(v, found)
    ensures forall e :: e in Reported(output) <==> IsError(schema, e)
  {
    forall e ensures e in v.errors + found <==> IsError(schema, e) {
      ErrorsAreTheSchemas(schema, e);
    }
    forall e | e in v.errors + found ensures !e.Multiple? {
      NoErrorIsMultiple(schema, e);
    }
    ReportedIsConcluded(output, v.errors + found);
  }

  // ---- Usages end -----------------------------------------------------------

  /** `record` is met in the data of `field`, directly or nested in other records. */
  ghost predicate Carries(schema: Schema, field: Field, record: Path) {
    Mentioned(field.ty).Some? && Reaches(RecordArcs(schema.records), Mentioned(field.ty).value, record)
  }

  /** No record refers to a usage record. */
  lemma NoArcIntoUsage(schema: Schema, a: Path, usage: Path, resource: Path)
    requires RefsSound(schema) && IsUsage(schema, usage, resource)
    ensures (a, usage) !in RecordArcs(schema.records)
  {
    ArcsAreVisited(schema, a, usage);
    assert forall c | c in Visits(schema) && ShowsArc(c, a, usage) :: UsageRefSound(c);
  }

  lemma UsageIsMentioned(schema: Schema, field: Field, usage: Path, resource: Path)
    requires RefsSound(schema) && IsUsage(schema, usage, resource) && Carries(schema, field, usage)
    ensures Mentioned(field.ty) == Some(usage)
  {
    var p :| Joins(RecordArcs(schema.records), p, Mentioned(field.ty).value, usage);
    if |p| > 1 {
      assert (p[|p| - 2], p[|p| - 1]) in RecordArcs(schema.records);
      NoArcIntoUsage(schema, p[|p| - 2], usage, resource);
    }
  }

  /** A usage record that an event's data leads to is that event's own, below an
      entity reference, and the event belongs to an FSM and is not final. */
  lemma UsageIsDirect(schema: Schema, e: Entity, ev: Event, field: Field, usage: Path, resource: Path)
    requires ResourcesSound(schema) && IsUsage(schema, usage, resource)
    requires e in schema.entities && ev in e.events && field in ev.fields && Carries(schema, field, usage)
    ensures Mentioned(field.ty) == Some(usage)
    ensures !e.annotations.fsm.Absent?
    ensures e.annotations.fsm.Payload? ==> !Fsms.IsFinalState(e.annotations.fsm.value, ev.name)
    ensures exists d :: InField(field, d) && Current(d) == DataTypeEl(RecordType(usage)) && UnderReference(d)
  {
    UsageIsMentioned(schema, field, usage, resource);
    MentionedIffInField(field, usage);
    var d :| InField(field, d) && Current(d) == DataTypeEl(RecordType(usage));
    var c := EventFieldCursor(schema, e, ev, field, d);
    assert RefSound(schema, c);
    assert UsageRefSound(c);
    ReferenceBelow([SchemaEl(schema), EntityEl(e), EventEl(ev)], d);
  }

  lemma ReferenceBelow(above: seq<Element>, d: seq<Element>)
    requires UnderReference(above + d) && forall x | x in above :: !IsReference(x)
    ensures UnderReference(d)
  {
    var c, n := above + d, |above|;
    assert forall i | 0 <= i < n :: c[i] == above[i];
    var k :| 0 <= k < |c| && IsReference(c[k]) && forall j | k < j < |c| :: !IsList(c[j]);
    assert d[k - n] == c[k];
    forall j | k - n < j < |d| ensures !IsList(d[j]) { assert d[j] == c[j + n]; }
  }

  /** In an accepted schema every usage that a complete run opens on entering a state
      is closed again: the run leaves that state by a further transition. */
  lemma UsagesAreClosed(schema: Schema, e: Entity, ev: Event, field: Field, usage: Path, resource: Path,
                        fsm: Fsm, run: seq<Identifier>, i: nat)
    requires ResourcesSound(schema) && IsUsage(schema, usage, resource)
    requires e in schema.entities && ev in e.events && field in ev.fields && Carries(schema, field, usage)
    requires e.annotations.fsm == Payload(fsm) && FsmRuns.IsCompleteRun(fsm, run)
    requires i < |run| && run[i] == ev.name
    ensures i + 1 < |run| && Transition(run[i], run[i + 1]) in fsm.transitions
  {
    UsageIsDirect(schema, e, ev, field, usage, resource);
    FsmRuns.NonFinalIsLeft(fsm, run, i);
  }

  /** If the FSM constraint accepts too, every run that has opened a usage can be driven
      on to completion, and thereby closes it. */
  lemma OpenUsagesCanClose(schema: Schema, e: Entity, ev: Event, field: Field, usage: Path, resource: Path,
                           fsm: Fsm, run: seq<Identifier>, i: nat) returns (complete: seq<Identifier>)
    requires ResourcesSound(schema) && FsmValidation.EntityAccepted(e) && IsUsage(schema, usage, resource)
    requires e in schema.entities && ev in e.events && field in ev.fields && Carries(schema, field, usage)
    requires e.annotations.fsm == Payload(fsm) && FsmRuns.IsRun(fsm, run)
    requires i < |run| && run[i] == ev.name
    ensures FsmRuns.IsCompleteRun(fsm, complete) && run <= complete
    ensures i + 1 < |complete| && Transition(complete[i], complete[i + 1]) in fsm.transitions
  {
    complete := FsmRuns.EveryRunCompletes(e, fsm, run);
    UsagesAreClosed(schema, e, ev, field, usage, resource, fsm, complete, i);
  }

  /** Every user of a resource does have a topology, so the claim above is about every
      usage there is. */
  lemma UsersHaveTopology(schema: Schema, e: Entity, ev: Event, field: Field, usage: Path, resource: Path)
    requires ResourcesSound(schema) && FsmValidation.AllAccepted(schema)
    requires IsUsage(schema, usage, resource)
    requires e in schema.entities && ev in e.events && field in ev.fields && Carries(schema, field, usage)
    ensures e.annotations.fsm.Payload?
    ensures Fsms.MeetsRequirements(e, e.annotations.fsm.value)
  {
    UsageIsDirect(schema, e, ev, field, usage, resource);
    assert FsmValidation.EntityAccepted(e);
  }
}
