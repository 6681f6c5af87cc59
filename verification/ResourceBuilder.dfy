/** Building a resource: its definition and the records its usages and bounds are
    carried as. */
module ResourceBuilder {
  import opened Wrappers
  import opened SchemaModel
  import opened Walk
  import opened Resources
  import opened ResourceSchemas
  import opened ResourceLifecycle

  datatype BuildError = DuplicateCapacity(name: Identifier) | DuplicateRecordName(path: Path)

  datatype ResourceParts = ResourceParts(definition: Resource, usage: Record, bounds: Option<Record>)

  type Capacities = seq<(Identifier, Capacity)>

  ghost predicate DistinctCapacities(capacities: Capacities) {
    forall i, j | 0 <= i < j < |capacities| :: capacities[i].0 != capacities[j].0
  }

  predicate AnyBounded(capacities: Capacities) {
    exists c :: c in capacities && c.1.bounded
  }

  function AllNames(capacities: Capacities): (r: seq<Identifier>)
    ensures forall n :: n in r <==> exists c :: c in capacities && c.0 == n
  {
    if capacities == [] then []
    else
      assert forall c :: c in capacities <==> c == capacities[0] || c in capacities[1..];
      [capacities[0].0] + AllNames(capacities[1..])
  }

  function BoundedNames(capacities: Capacities): (r: seq<Identifier>)
    ensures forall n :: n in r <==> exists c :: c in capacities && c.0 == n && c.1.bounded
  {
    if capacities == [] then []
    else
      assert forall c :: c in capacities <==> c == capacities[0] || c in capacities[1..];
      (if capacities[0].1.bounded then [capacities[0].0] else []) + BoundedNames(capacities[1..])
  }

  /** A record with one `U64` field per name that carries a role. */
  function RoleRecordAt(path: Path, role: Resource, names: seq<Identifier>): Record {
    Record(path,
           seq(|names|, i requires 0 <= i < |names| => Field(names[i], Scalar(U64), NO_ANNOTATIONS)),
           NO_ANNOTATIONS.(resource := Payload(role)))
  }

  function DefaultUsagePath(resource: Path): Path {
    resource.(name := resource.name + "Usage")
  }

  function DefaultBoundsPath(resource: Path): Path {
    resource.(name := resource.name + "Bounds")
  }

  class Builder {
    const path: Path
    const usagePath: Path
    const boundsPath: Path
    var capacities: Capacities

    constructor WithRecordPaths(path: Path, usagePath: Path, boundsPath: Path)
      ensures this.path == path && this.usagePath == usagePath && this.boundsPath == boundsPath && capacities == []
    {
      this.path, this.usagePath, this.boundsPath, capacities := path, usagePath, boundsPath, [];
    }

    /** Generated records are siblings of the resource, and never clash. */
    constructor (path: Path)
      ensures this.path == path && capacities == []
      ensures usagePath == DefaultUsagePath(path) && boundsPath == DefaultBoundsPath(path)
      ensures usagePath != boundsPath && usagePath.namespace == boundsPath.namespace == path.namespace
    {
      this.path, usagePath, boundsPath, capacities := path, DefaultUsagePath(path), DefaultBoundsPath(path), [];
      assert |(path.name + "Usage")| != |(path.name + "Bounds")|;
    }

    method WithCapacity(name: Identifier, capacity: Capacity)
      modifies this
      ensures capacities == old(capacities) + [(name, capacity)]
    {
      capacities := capacities + [(name, capacity)];
    }

    /** Usages include every capacity; bounds only those that have one. */
    method Build() returns (r: Result<ResourceParts, BuildError>)
      ensures !DistinctCapacities(capacities) <==> r.Err? && r.error.DuplicateCapacity?
      ensures r.Err? && r.error.DuplicateCapacity? ==>
                exists i, j :: 0 <= i < j < |capacities| && DistinctCapacities(capacities[..j])
                               && capacities[i].0 == capacities[j].0 == r.error.name
      ensures DistinctCapacities(capacities) ==>
                r == if AnyBounded(capacities) && usagePath == boundsPath then Err(DuplicateRecordName(usagePath))
                     else Ok(PartsOf(path, usagePath, boundsPath, capacities))
      ensures r.Ok? ==>
                && r.value.definition == Definition(capacities)
                && r.value.usage.path == usagePath && CarriesRole(r.value.usage, Usage(path))
                && |r.value.usage.fields| == |capacities|
                && (forall i | 0 <= i < |capacities| :: r.value.usage.fields[i].name == capacities[i].0)
                && (r.value.bounds.Some? <==> exists c :: c in capacities && c.1.bounded)
      ensures r.Ok? && r.value.bounds.Some? ==>
                var bounds := r.value.bounds.value;
                && bounds.path == boundsPath && CarriesRole(bounds, Bounds(path))
                && InOrderOf(bounds.fields, capacities)
                && forall n :: HasField(bounds, n) <==> exists c :: c in capacities && c.0 == n && c.1.bounded
    {
      var repeated := FirstRepeated(capacities);
      if repeated.Some? {
        return Err(DuplicateCapacity(repeated.value));
      }
      var hasBounds := AnyBounded(capacities);
      if hasBounds && usagePath == boundsPath {
        return Err(DuplicateRecordName(usagePath));
      }
      var usage := RoleRecordAt(usagePath, Usage(path), AllNames(capacities));
      var bounds := None;
      if hasBounds {
        bounds := Some(RoleRecordAt(boundsPath, Bounds(path), BoundedNames(capacities)));
      }
      r := Ok(ResourceParts(Definition(capacities), usage, bounds));
      NamesOfAll(capacities);
      BoundedInOrder(path, boundsPath, capacities);
      PartsNameCapacities(path, usagePath, boundsPath, capacities);
    }
  }

  /** The record is annotated with the role and nothing else, and its fields are plain
      `U64`s. */
  predicate CarriesRole(record: Record, role: Resource) {
    && record.annotations == NO_ANNOTATIONS.(resource := Payload(role))
    && forall f | f in record.fields :: f.ty == Scalar(U64) && f.annotations == NO_ANNOTATIONS
  }

  /** The fields are named like capacities, in their order. */
  ghost predicate InOrderOf(fields: seq<Field>, capacities: Capacities) {
    forall i, j | 0 <= i < j < |fields| :: NamedInOrder(fields[i].name, fields[j].name, capacities)
  }

  ghost predicate NamedInOrder(m: Identifier, n: Identifier, capacities: Capacities) {
    exists a, b :: 0 <= a < b < |capacities| && capacities[a].0 == m && capacities[b].0 == n
  }

  lemma {:induction false} NamesOfAll(capacities: Capacities)
    ensures |AllNames(capacities)| == |capacities|
    ensures forall i | 0 <= i < |capacities| :: AllNames(capacities)[i] == capacities[i].0
  {
    if capacities != [] {
      NamesOfAll(capacities[1..]);
    }
  }

  lemma {:induction false} BoundedNamesInOrder(capacities: Capacities, i: nat, j: nat)
    requires i < j < |BoundedNames(capacities)|
    ensures NamedInOrder(BoundedNames(capacities)[i], BoundedNames(capacities)[j], capacities)
  {
    var d := if capacities[0].1.bounded then 1 else 0;
    if i < d {
      FirstNamed(capacities, BoundedNames(capacities[1..])[j - 1]);
    } else {
      BoundedNamesInOrder(capacities[1..], i - d, j - d);
      RestNamed(capacities, BoundedNames(capacities)[i], BoundedNames(capacities)[j]);
    }
  }

  lemma FirstNamed(capacities: Capacities, n: Identifier)
    requires capacities != [] && n in BoundedNames(capacities[1..])
    ensures NamedInOrder(capacities[0].0, n, capacities)
  {
    var c :| c in capacities[1..] && c.0 == n;
    var b :| 0 <= b < |capacities[1..]| && capacities[1..][b] == c;
    assert capacities[b + 1] == c;
  }

  lemma RestNamed(capacities: Capacities, m: Identifier, n: Identifier)
    requires capacities != [] && NamedInOrder(m, n, capacities[1..])
    ensures NamedInOrder(m, n, capacities)
  {
    var a, b :| 0 <= a < b < |capacities[1..]| && capacities[1..][a].0 == m && capacities[1..][b].0 == n;
    assert capacities[a + 1].0 == m && capacities[b + 1].0 == n;
  }

  lemma BoundedInOrder(path: Path, boundsPath: Path, capacities: Capacities)
    ensures InOrderOf(RoleRecordAt(boundsPath, Bounds(path), BoundedNames(capacities)).fields, capacities)
  {
    var fields := RoleRecordAt(boundsPath, Bounds(path), BoundedNames(capacities)).fields;
    forall i, j | 0 <= i < j < |fields| ensures NamedInOrder(fields[i].name, fields[j].name, capacities) {
      BoundedNamesInOrder(capacities, i, j);
    }
  }

  function PartsOf(path: Path, usagePath: Path, boundsPath: Path, capacities: Capacities): ResourceParts {
    ResourceParts(
      Definition(capacities),
      RoleRecordAt(usagePath, Usage(path), AllNames(capacities)),
      if AnyBounded(capacities) then Some(RoleRecordAt(boundsPath, Bounds(path), BoundedNames(capacities))) else None)
  }

  method FirstRepeated(capacities: Capacities) returns (name: Option<Identifier>)
    ensures name.None? <==> DistinctCapacities(capacities)
    ensures name.Some? ==> exists i, j :: 0 <= i < j < |capacities| && DistinctCapacities(capacities[..j])
                                          && capacities[i].0 == capacities[j].0 == name.value
  {
    var seen: set<Identifier> := {};
    for i := 0 to |capacities|
      invariant seen == set k | 0 <= k < i :: capacities[k].0
      invariant DistinctCapacities(capacities[..i])
    {
      if capacities[i].0 in seen {
        ghost var k :| 0 <= k < i && capacities[k].0 == capacities[i].0;
        return Some(capacities[i].0);
      }
      seen := seen + {capacities[i].0};
    }
    assert capacities[..|capacities|] == capacities;
    name := None;
  }

  // ---- Built records satisfy the constraint ---------------------------------

  lemma {:induction false} FlagsOfDistinct(capacities: Capacities, n: Identifier)
    requires DistinctCapacities(capacities)
    ensures n in BoundedFlags(capacities) <==> exists c :: c in capacities && c.0 == n
    ensures n in BoundedFlags(capacities) && BoundedFlags(capacities)[n] <==>
            exists c :: c in capacities && c.0 == n && c.1.bounded
  {
    if capacities != [] {
      var rest, last := capacities[..|capacities| - 1], capacities[|capacities| - 1];
      FlagsOfDistinct(rest, n);
      assert forall c :: c in capacities <==> c in rest || c == last;
      if last.0 == n {
        forall c | c in rest ensures c.0 != n {
          var i :| 0 <= i < |rest| && rest[i] == c;
          assert capacities[i].0 != capacities[|capacities| - 1].0;
        }
      }
    }
  }

  lemma NamesOfRole(path: Path, role: Resource, names: seq<Identifier>)
    ensures forall n :: n in names <==> exists f :: f in RoleRecordAt(path, role, names).fields && f.name == n
  {
    var fields := RoleRecordAt(path, role, names).fields;
    forall n | n in names ensures exists f :: f in fields && f.name == n {
      var i :| 0 <= i < |names| && names[i] == n;
      assert fields[i] in fields;
    }
  }

  predicate HasField(record: Record, name: Identifier) {
    exists f :: f in record.fields && f.name == name
  }

  /** A usage claims every capacity; bounds name exactly the bounded ones. */
  lemma PartsNameCapacities(path: Path, usagePath: Path, boundsPath: Path, capacities: Capacities)
    ensures var parts := PartsOf(path, usagePath, boundsPath, capacities);
            && (forall n :: HasField(parts.usage, n) <==> exists c :: c in capacities && c.0 == n)
            && (parts.bounds.Some? <==> exists c :: c in capacities && c.1.bounded)
            && (parts.bounds.Some? ==>
                  forall n :: HasField(parts.bounds.value, n) <==>
                              exists c :: c in capacities && c.0 == n && c.1.bounded)
  {
    NamesOfRole(usagePath, Usage(path), AllNames(capacities));
    NamesOfRole(boundsPath, Bounds(path), BoundedNames(capacities));
    assert forall n :: n in AllNames(capacities) <==>
                       HasField(RoleRecordAt(usagePath, Usage(path), AllNames(capacities)), n);
    assert forall n :: n in BoundedNames(capacities) <==>
                       HasField(RoleRecordAt(boundsPath, Bounds(path), BoundedNames(capacities)), n);
  }

  /** In a schema that holds a built definition and its records, the records name a
      declared resource and exactly the capacities they should: no unknown resource,
      undeclared capacity, unexpected bounds, unbounded or uncovered capacity. */
  lemma BuiltRecordsAreSound(schema: Schema, e: Entity, usagePath: Path, boundsPath: Path, capacities: Capacities)
    requires WellFormed(schema) && DistinctCapacities(capacities)
    requires var parts := PartsOf(e.path, usagePath, boundsPath, capacities);
             && e in schema.entities && e.annotations.resource == Payload(parts.definition)
             && parts.usage in schema.records
             && (parts.bounds.Some? ==> parts.bounds.value in schema.records)
    ensures var parts := PartsOf(e.path, usagePath, boundsPath, capacities);
            && UsageSound(schema, parts.usage, e.path)
            && (parts.bounds.Some? ==> BoundsRecordSound(schema, parts.bounds.value, e.path))
            && (parts.bounds.Some? <==> HasBounded(BoundedFlags(capacities)))
  {
    assert Declares(schema, e.path, BoundedFlags(capacities));
    BuiltUsageIsSound(schema, e.path, usagePath, capacities);
    FlagsOfBuilt(capacities);
    if AnyBounded(capacities) {
      BuiltBoundsAreSound(schema, e.path, boundsPath, capacities);
    }
  }

  lemma FlagsOfBuilt(capacities: Capacities)
    requires DistinctCapacities(capacities)
    ensures forall n :: n in BoundedFlags(capacities) <==> n in AllNames(capacities)
    ensures forall n :: n in BoundedFlags(capacities) && BoundedFlags(capacities)[n] <==> n in BoundedNames(capacities)
    ensures HasBounded(BoundedFlags(capacities)) <==> AnyBounded(capacities)
  {
    var flags := BoundedFlags(capacities);
    forall n
      ensures n in flags <==> n in AllNames(capacities)
      ensures n in flags && flags[n] <==> n in BoundedNames(capacities)
    {
      FlagsOfDistinct(capacities, n);
    }
    if c :| c in capacities && c.1.bounded {
      assert c.0 in BoundedNames(capacities);
    }
  }

  lemma BuiltUsageIsSound(schema: Schema, resource: Path, usagePath: Path, capacities: Capacities)
    requires DistinctCapacities(capacities) && Declares(schema, resource, BoundedFlags(capacities))
    ensures UsageSound(schema, RoleRecordAt(usagePath, Usage(resource), AllNames(capacities)), resource)
  {
    FlagsOfBuilt(capacities);
    NamesOfRole(usagePath, Usage(resource), AllNames(capacities));
  }

  lemma BuiltBoundsAreSound(schema: Schema, resource: Path, boundsPath: Path, capacities: Capacities)
    requires DistinctCapacities(capacities) && AnyBounded(capacities)
    requires Declares(schema, resource, BoundedFlags(capacities))
    ensures BoundsRecordSound(schema, RoleRecordAt(boundsPath, Bounds(resource), BoundedNames(capacities)), resource)
  {
    FlagsOfBuilt(capacities);
    NamesOfRole(boundsPath, Bounds(resource), BoundedNames(capacities));
  }

  /** So the checks find nothing wrong with them. */
  lemma BuiltRecordsRaiseNoError(schema: Schema, e: Entity, usagePath: Path, boundsPath: Path, capacities: Capacities)
    requires WellFormed(schema) && DistinctCapacities(capacities)
    requires var parts := PartsOf(e.path, usagePath, boundsPath, capacities);
             && e in schema.entities && e.annotations.resource == Payload(parts.definition)
             && parts.usage in schema.records
             && (parts.bounds.Some? ==> parts.bounds.value in schema.records)
    ensures var v := After(Visits(schema));
            && usagePath in v.usages && (forall error :: !UsageError(v, v.usages[usagePath], error))
            && (AnyBounded(capacities) ==>
                  boundsPath in v.bounds && forall error :: !BoundsError(v, v.bounds[boundsPath], error))
  {
    BuiltRecordsAreSound(schema, e, usagePath, boundsPath, capacities);
    var parts := PartsOf(e.path, usagePath, boundsPath, capacities);
    SoundUsageRaisesNothing(schema, parts.usage, e.path);
    if AnyBounded(capacities) {
      SoundBoundsRaiseNothing(schema, parts.bounds.value, e.path);
    }
  }

  lemma SoundUsageRaisesNothing(schema: Schema, r: Record, resource: Path)
    requires WellFormed(schema) && r in schema.records && r.annotations.resource == Payload(Usage(resource))
    requires UsageSound(schema, r, resource)
    ensures var v := After(Visits(schema));
            r.path in v.usages && forall error :: !UsageError(v, v.usages[r.path], error)
  {
    WalkIsComplete(schema);
    assert Usages(schema)(r).Some?;
    UsageRight(schema, After(Visits(schema)), r);
  }

  lemma SoundBoundsRaiseNothing(schema: Schema, r: Record, resource: Path)
    requires WellFormed(schema) && r in schema.records && r.annotations.resource == Payload(Bounds(resource))
    requires BoundsRecordSound(schema, r, resource)
    ensures var v := After(Visits(schema));
            r.path in v.bounds && forall error :: !BoundsError(v, v.bounds[r.path], error)
  {
    WalkIsComplete(schema);
    assert AllBounds(schema)(r).Some?;
    OneBoundsRight(schema, After(Visits(schema)), r);
  }
}
