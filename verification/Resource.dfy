/** The resource constraint: what a walk gathers about definitions, usages and
    bounds, and how it is judged once all of it is known. */
module Resources {
  import opened Wrappers
  import opened SchemaModel
  import opened Records
  import Fsms

  datatype Role = DefinitionRole | UsageRole | BoundsRole

  datatype ResourceError =
    | InvalidData(location: seq<Element>)
    | MisplacedRole(location: seq<Element>, role: Role)
    | UnknownResource(location: seq<Element>, resource: Path)
    | UndeclaredCapacity(location: seq<Element>, resource: Path, capacity: Identifier)
    | UsageNotOnReference(location: seq<Element>)
    | UsageInList(location: seq<Element>)
    | NonFsmUser(entity: Path, resource: Path)
    | UsageOnFinalState(location: seq<Element>, entity: Path, state: Identifier, resource: Path)
    | ForeignBounds(location: seq<Element>, resource: Path)
    | BoundsInList(location: seq<Element>)
    | UnboundedCapacity(location: seq<Element>, resource: Path, capacity: Identifier)
    | UncoveredCapacity(location: seq<Element>, resource: Path, capacity: Identifier)
    | UnexpectedBounds(location: seq<Element>, resource: Path)
    | MissingBounds(resource: Path)
    | Multiple(errors: seq<ResourceError>)

  /** A record with a role, the resource it names, and its field names. */
  datatype RoleRecord = RoleRecord(resource: Path, fields: seq<Identifier>, location: seq<Element>)

  datatype RecordRef = RecordRef(
    record: Path,
    onEntityRef: bool,
    inList: bool,
    inReferenceList: bool,
    entity: Option<(Path, bool)>,
    event: Option<Identifier>,
    location: seq<Element>)

  datatype View = View(
    errors: seq<ResourceError>,
    resources: map<Path, map<Identifier, bool>>,
    usages: map<Path, RoleRecord>,
    bounds: map<Path, RoleRecord>,
    refs: seq<RecordRef>,
    finalEvents: map<Path, set<Identifier>>)

  const START := View([], map[], map[], map[], [], map[])

  // ---- Reading a cursor -----------------------------------------------------

  function RoleOf(resource: Resource): Role {
    match resource
    case Definition(_) => DefinitionRole
    case Usage(_) => UsageRole
    case Bounds(_) => BoundsRole
  }

  /** For each capacity whether it is bounded. */
  function BoundedFlags(capacities: seq<(Identifier, Capacity)>): map<Identifier, bool> {
    if capacities == [] then map[]
    else
      var last := capacities[|capacities| - 1];
      BoundedFlags(capacities[..|capacities| - 1])[last.0 := last.1.bounded]
  }

  function FieldNames(fields: seq<Field>): seq<Identifier> {
    seq(|fields|, i requires 0 <= i < |fields| => fields[i].name)
  }

  predicate IsList(e: Element) {
    e.DataTypeEl? && e.ty.ListType?
  }

  predicate IsReference(e: Element) {
    e.DataTypeEl? && e.ty.EntityRef?
  }

  predicate AnyList(c: seq<Element>) {
    exists e :: e in c && IsList(e)
  }

  /** What lies below the innermost entity reference on the cursor, if there is one. */
  function BelowReference(c: seq<Element>): Option<seq<Element>> {
    if c == [] then None
    else
      var last := c[|c| - 1];
      if IsReference(last) then Some([])
      else
        var rest := BelowReference(c[..|c| - 1]);
        if rest.Some? then Some(rest.value + [last]) else None
  }

  /** The innermost entity on the cursor. */
  function EnclosingEntity(c: seq<Element>): Option<Entity> {
    if c == [] then None
    else if c[|c| - 1].EntityEl? then Some(c[|c| - 1].entity)
    else EnclosingEntity(c[..|c| - 1])
  }

  /** The innermost event on the cursor. */
  function EnclosingEvent(c: seq<Element>): Option<Event> {
    if c == [] then None
    else if c[|c| - 1].EventEl? then Some(c[|c| - 1].event)
    else EnclosingEvent(c[..|c| - 1])
  }

  function RefAt(c: seq<Element>, record: Path): RecordRef {
    var below := BelowReference(c);
    var entity := EnclosingEntity(c);
    var event := EnclosingEvent(c);
    RecordRef(record,
              below.Some?,
              AnyList(c),
              below.Some? && AnyList(below.value),
              if entity.Some? then Some((entity.value.path, !entity.value.annotations.fsm.Absent?)) else None,
              if event.Some? then Some(event.value.name) else None,
              c)
  }

  function FinalEvents(entity: Entity, fsm: Fsm): set<Identifier> {
    set ev | ev in entity.events && Fsms.IsFinalState(fsm, ev.name) :: ev.name
  }

  // ---- Visiting -------------------------------------------------------------

  /** Whether a visit to annotations concerns an element that can hold no role. */
  predicate OwnerHoldsNoRole(c: seq<Element>) {
    |c| < 2 || !(c[|c| - 2].EntityEl? || c[|c| - 2].RecordEl?)
  }

  /** The capacities an entity declares as a resource. */
  function DefinitionOf(e: Entity): Option<map<Identifier, bool>> {
    var role := e.annotations.resource;
    if role.Payload? && role.value.Definition? then Some(BoundedFlags(role.value.capacities)) else None
  }

  /** The record as a usage of a resource. */
  function UsageOf(r: Record, location: seq<Element>): Option<RoleRecord> {
    var role := r.annotations.resource;
    if role.Payload? && role.value.Usage? then Some(RoleRecord(role.value.resource, FieldNames(r.fields), location))
    else None
  }

  /** The record as the bounds of a resource. */
  function BoundsOf(r: Record, location: seq<Element>): Option<RoleRecord> {
    var role := r.annotations.resource;
    if role.Payload? && role.value.Bounds? then Some(RoleRecord(role.value.resource, FieldNames(r.fields), location))
    else None
  }

  function FinalsOf(e: Entity): Option<set<Identifier>> {
    if e.annotations.fsm.Payload? then Some(FinalEvents(e, e.annotations.fsm.value)) else None
  }

  /** The role data at the cursor that its element may not hold or that does not
      decode; entities hold definitions, records the other two roles. */
  function RoleProblem(c: seq<Element>): Option<ResourceError> {
    if c == [] then None
    else match Current(c)
      case EntityEl(e) => SlotProblem(c, e.annotations.resource, {DefinitionRole})
      case RecordEl(r) => SlotProblem(c, r.annotations.resource, {UsageRole, BoundsRole})
      case AnnotationsEl(a) => if OwnerHoldsNoRole(c) then SlotProblem(c, a.resource, {}) else None
      case _ => None
  }

  function SlotProblem(c: seq<Element>, slot: Slot<Resource>, allowed: set<Role>): Option<ResourceError> {
    if slot.Absent? then None
    else if !slot.Payload? then Some(InvalidData(c))
    else if RoleOf(slot.value) in allowed then None
    else Some(MisplacedRole(c, RoleOf(slot.value)))
  }

  function Insert<V>(m: map<Path, V>, path: Path, value: Option<V>): map<Path, V> {
    if value.Some? then m[path := value.value] else m
  }

  predicate AtEntity(c: seq<Element>) {
    c != [] && Current(c).EntityEl?
  }

  predicate AtRecord(c: seq<Element>) {
    c != [] && Current(c).RecordEl?
  }

  /** What one visit makes of the state. */
  function Next(v: View, c: seq<Element>): View {
    View(
      if RoleProblem(c).Some? then v.errors + [RoleProblem(c).value] else v.errors,
      if AtEntity(c) then Insert(v.resources, Current(c).entity.path, DefinitionOf(Current(c).entity)) else v.resources,
      if AtRecord(c) then Insert(v.usages, Current(c).record.path, UsageOf(Current(c).record, c)) else v.usages,
      if AtRecord(c) then Insert(v.bounds, Current(c).record.path, BoundsOf(Current(c).record, c)) else v.bounds,
      if AtRecordType(c) then v.refs + [RefAt(c, Current(c).ty.path)] else v.refs,
      if AtEntity(c) then Insert(v.finalEvents, Current(c).entity.path, FinalsOf(Current(c).entity)) else v.finalEvents)
  }

  // ---- Judging --------------------------------------------------------------

  /** The error, if any, of one role-carrying record reference. */
  function RefError(v: View, r: RecordRef): Option<ResourceError> {
    if r.record in v.usages then
      var usage := v.usages[r.record];
      if r.inReferenceList then Some(UsageInList(r.location))
      else if !r.onEntityRef then Some(UsageNotOnReference(r.location))
      else if r.entity.None? then Some(MisplacedRole(r.location, UsageRole))
      else
        var (entity, isFsm) := r.entity.value;
        if !isFsm then Some(NonFsmUser(entity, usage.resource))
        else if r.event.Some? && entity in v.finalEvents && r.event.value in v.finalEvents[entity] then
          Some(UsageOnFinalState(r.location, entity, r.event.value, usage.resource))
        else None
    else if r.record in v.bounds then
      if r.inList then Some(BoundsInList(r.location))
      else if r.entity.Some? && r.entity.value.0 == v.bounds[r.record].resource then None
      else Some(ForeignBounds(r.location, v.bounds[r.record].resource))
    else None
  }

  /** How many of the references have the error. */
  ghost function Raised(v: View, refs: seq<RecordRef>, e: ResourceError): nat {
    if refs == [] then 0
    else Raised(v, refs[..|refs| - 1], e) + if RefError(v, refs[|refs| - 1]) == Some(e) then 1 else 0
  }

  /** How often the error is reported: a user that is no FSM once per resource, any
      other error once for every reference that has it. */
  ghost function TimesReported(v: View, refs: seq<RecordRef>, e: ResourceError): nat {
    if e.NonFsmUser? && Raised(v, refs, e) > 0 then 1 else Raised(v, refs, e)
  }

  /** The reports of one more reference. */
  function Report(errors: seq<ResourceError>, error: Option<ResourceError>): seq<ResourceError> {
    if error.None? || (error.value.NonFsmUser? && error.value in errors) then errors else errors + [error.value]
  }

  lemma ReportCounts(v: View, refs: seq<RecordRef>, i: nat, errors: seq<ResourceError>)
    requires i < |refs| && forall e :: multiset(errors)[e] == TimesReported(v, refs[..i], e)
    ensures forall e :: multiset(Report(errors, RefError(v, refs[i])))[e] == TimesReported(v, refs[..i + 1], e)
  {
    var error := RefError(v, refs[i]);
    assert refs[..i + 1][..i] == refs[..i];
    forall e ensures multiset(Report(errors, error))[e] == TimesReported(v, refs[..i + 1], e) {
      assert e in errors <==> multiset(errors)[e] > 0;
    }
  }

  /** The error is about a reference to a role record. */
  predicate IsOfReference(e: ResourceError) {
    || e.UsageInList? || e.UsageNotOnReference? || e.MisplacedRole? || e.NonFsmUser?
    || e.UsageOnFinalState? || e.BoundsInList? || e.ForeignBounds?
  }

  /** What the four checks find: all that is wrong, and what is wrong with references
      as often as it is to be reported. */
  ghost predicate Judged(v: View, found: seq<ResourceError>) {
    && (forall e :: e in found <==> Wrong(v, e))
    && (forall e | IsOfReference(e) :: multiset(found)[e] == TimesReported(v, v.refs, e))
  }

  /** The reference shows the bounds of `resource` on one of its own events. */
  predicate ShowsBounds(v: View, r: RecordRef, resource: Path) {
    && r.record !in v.usages && r.record in v.bounds && RefError(v, r).None? && v.bounds[r.record].resource == resource
  }

  predicate HasBounded(flags: map<Identifier, bool>) {
    exists n :: n in flags && flags[n]
  }

  /** The errors of a usage record. */
  ghost predicate UsageError(v: View, u: RoleRecord, e: ResourceError) {
    if u.resource !in v.resources then e == UnknownResource(u.location, u.resource)
    else exists n :: && n in u.fields && n !in v.resources[u.resource]
                     && e == UndeclaredCapacity(u.location, u.resource, n)
  }

  /** The errors of a bounds record. */
  ghost predicate BoundsError(v: View, b: RoleRecord, e: ResourceError) {
    if b.resource !in v.resources then e == UnknownResource(b.location, b.resource)
    else
      var flags := v.resources[b.resource];
      if !HasBounded(flags) then e == UnexpectedBounds(b.location, b.resource)
      else
        || (exists n :: n in b.fields && Unbounded(flags, b, n, e))
        || (exists n :: n in flags.Keys && Uncovered(flags, b, n, e))
  }

  ghost predicate Unbounded(flags: map<Identifier, bool>, b: RoleRecord, n: Identifier, e: ResourceError) {
    !(n in flags && flags[n]) && e == UnboundedCapacity(b.location, b.resource, n)
  }

  ghost predicate Uncovered(flags: map<Identifier, bool>, b: RoleRecord, n: Identifier, e: ResourceError) {
    n in flags && flags[n] && n !in b.fields && e == UncoveredCapacity(b.location, b.resource, n)
  }

  ghost predicate MissingError(v: View, e: ResourceError) {
    exists p :: p in v.resources && HasBounded(v.resources[p]) && e == MissingBounds(p)
                && forall r | r in v.refs :: !ShowsBounds(v, r, p)
  }

  /** All that is wrong with what was gathered. */
  ghost predicate Wrong(v: View, e: ResourceError) {
    || (exists p :: p in v.usages && UsageError(v, v.usages[p], e))
    || (exists r :: r in v.refs && RefError(v, r) == Some(e))
    || (exists p :: p in v.bounds && BoundsError(v, v.bounds[p], e))
    || MissingError(v, e)
  }

  ghost predicate AllRight(v: View) {
    v.errors == [] && forall e :: !Wrong(v, e)
  }

  /** Nothing, the only error, or all of them together. */
  predicate Concludes(output: Outcome<ResourceError>, all: seq<ResourceError>) {
    output == if |all| == 0 then Pass else if |all| == 1 then Fail(all[0]) else Fail(Multiple(all))
  }

  /** The errors an outcome stands for. */
  function Reported(output: Outcome<ResourceError>): seq<ResourceError> {
    match output
    case Pass => []
    case Fail(Multiple(errors)) => errors
    case Fail(error) => [error]
  }

  lemma ReportedIsConcluded(output: Outcome<ResourceError>, all: seq<ResourceError>)
    requires Concludes(output, all) && forall e | e in all :: !e.Multiple?
    ensures Reported(output) == all
  {
    assert |all| == 1 ==> all[0] in all;
  }

  class ResourceConstraint {
    var errors: seq<ResourceError>
    var resources: map<Path, map<Identifier, bool>>
    var usages: map<Path, RoleRecord>
    var bounds: map<Path, RoleRecord>
    var refs: seq<RecordRef>
    var finalEvents: map<Path, set<Identifier>>

    function Gathered(): View
      reads this
    {
      View(errors, resources, usages, bounds, refs, finalEvents)
    }

    constructor ()
      ensures Gathered() == START
    {
      errors, resources, usages, bounds, refs, finalEvents := [], map[], map[], map[], [], map[];
    }

    method Visit(c: seq<Element>)
      requires c != []
      modifies this
      ensures Gathered() == Next(old(Gathered()), c)
    {
      match Current(c) {
        case EntityEl(entity) => VisitEntity(c, entity);
        case RecordEl(record) => VisitRecord(c, record);
        case AnnotationsEl(annotations) =>
          if OwnerHoldsNoRole(c) {
            match annotations.resource {
              case Absent =>
              case Payload(role) => errors := errors + [MisplacedRole(c, RoleOf(role))];
              case _ => errors := errors + [InvalidData(c)];
            }
          }
        case DataTypeEl(ty) =>
          if ty.RecordType? {
            refs := refs + [RefAt(c, ty.path)];
          }
        case _ =>
      }
    }

    method VisitEntity(c: seq<Element>, entity: Entity)
      requires c != [] && Current(c) == EntityEl(entity)
      modifies this
      ensures Gathered() == Next(old(Gathered()), c)
    {
      match entity.annotations.resource {
        case Absent =>
        case Payload(Definition(capacities)) => resources := resources[entity.path := BoundedFlags(capacities)];
        case Payload(role) => errors := errors + [MisplacedRole(c, RoleOf(role))];
        case _ => errors := errors + [InvalidData(c)];
      }
      if entity.annotations.fsm.Payload? {
        finalEvents := finalEvents[entity.path := FinalEvents(entity, entity.annotations.fsm.value)];
      }
    }

    method VisitRecord(c: seq<Element>, record: Record)
      requires c != [] && Current(c) == RecordEl(record)
      modifies this
      ensures Gathered() == Next(old(Gathered()), c)
    {
      match record.annotations.resource {
        case Absent =>
        case Payload(Usage(resource)) =>
          usages := usages[record.path := RoleRecord(resource, FieldNames(record.fields), c)];
        case Payload(Bounds(resource)) =>
          bounds := bounds[record.path := RoleRecord(resource, FieldNames(record.fields), c)];
        case Payload(role) => errors := errors + [MisplacedRole(c, RoleOf(role))];
        case _ => errors := errors + [InvalidData(c)];
      }
    }

    /** Passes exactly when the walk met no error and nothing gathered is wrong;
        otherwise it reports exactly those errors and wrongs. */
    method Finish() returns (output: Outcome<ResourceError>)
      ensures output.Pass? <==> AllRight(Gathered())
      ensures exists found :: Concludes(output, errors + found) && Judged(Gathered(), found)
    {
      var found := Judge(Gathered());
      var all := errors + found;
      assert all == [] <==> errors == [] && found == [];
      output := match |all|
        case 0 => Pass
        case 1 => Fail(all[0])
        case _ => Fail(Multiple(all));
      assert Concludes(output, all);
    }
  }

  /** Runs the four checks over what was gathered. */
  method Judge(v: View) returns (found: seq<ResourceError>)
    ensures Judged(v, found)
    ensures found == [] <==> forall e :: !Wrong(v, e)
  {
    var usages := CheckUsages(v);
    var refs, shown := CheckRefs(v);
    var bounds := CheckBounds(v);
    var missing := CheckMissing(v, shown);
    found := usages + refs + bounds + missing;
    OnlyRefsReport(usages, refs, bounds, missing);
    FoundNothing(v, found);
  }

  lemma FoundNothing(v: View, found: seq<ResourceError>)
    requires forall e :: e in found <==> Wrong(v, e)
    ensures found == [] <==> forall e :: !Wrong(v, e)
  {
    if found != [] {
      assert found[0] in found;
    }
  }

  lemma OnlyRefsReport(usages: seq<ResourceError>, refs: seq<ResourceError>,
                       bounds: seq<ResourceError>, missing: seq<ResourceError>)
    requires forall e | e in usages || e in bounds || e in missing :: !IsOfReference(e)
    ensures forall e | IsOfReference(e) :: multiset(usages + refs + bounds + missing)[e] == multiset(refs)[e]
    ensures forall e :: e in usages + refs + bounds + missing <==>
                        e in usages || e in refs || e in bounds || e in missing
  {
    forall e | IsOfReference(e) ensures multiset(usages + refs + bounds + missing)[e] == multiset(refs)[e] {
      assert e !in multiset(usages) && e !in multiset(bounds) && e !in multiset(missing);
    }
  }

  method CheckUsages(v: View) returns (errors: seq<ResourceError>)
    ensures forall e :: e in errors <==> exists p :: p in v.usages && UsageError(v, v.usages[p], e)
  {
    errors := [];
    var todo := v.usages.Keys;
    while todo != {}
      invariant todo <= v.usages.Keys
      invariant forall e :: e in errors <==> exists p :: p in v.usages.Keys - todo && UsageError(v, v.usages[p], e)
    {
      var p :| p in todo;
      var more := CheckUsage(v, v.usages[p]);
      errors := errors + more;
      todo := todo - {p};
    }
  }

  /** Requirements 5 and 6. */
  method CheckUsage(v: View, u: RoleRecord) returns (errors: seq<ResourceError>)
    ensures forall e :: e in errors <==> UsageError(v, u, e)
  {
    errors := [];
    if u.resource !in v.resources {
      return [UnknownResource(u.location, u.resource)];
    }
    var capacities := v.resources[u.resource];
    for i := 0 to |u.fields|
      invariant forall e :: e in errors <==>
                  exists n :: && n in u.fields[..i] && n !in capacities
                              && e == UndeclaredCapacity(u.location, u.resource, n)
    {
      assert u.fields[..i + 1] == u.fields[..i] + [u.fields[i]];
      if u.fields[i] !in capacities {
        errors := errors + [UndeclaredCapacity(u.location, u.resource, u.fields[i])];
      }
    }
    assert u.fields[..|u.fields|] == u.fields;
  }

  /** Requirements 3, 4, 7, 8 and 9; also yields the resources whose bounds an event
      of theirs shows. */
  method CheckRefs(v: View) returns (errors: seq<ResourceError>, shown: set<Path>)
    ensures forall e :: e in errors <==> exists r :: r in v.refs && RefError(v, r) == Some(e)
    ensures forall e :: multiset(errors)[e] == TimesReported(v, v.refs, e)
    ensures forall p :: p in shown <==> exists r :: r in v.refs && ShowsBounds(v, r, p)
  {
    errors, shown := [], {};
    var nonFsmSeen: set<(Path, Path)> := {};
    for i := 0 to |v.refs|
      invariant forall e :: e in errors <==> exists r :: r in v.refs[..i] && RefError(v, r) == Some(e)
      invariant forall e :: multiset(errors)[e] == TimesReported(v, v.refs[..i], e)
      invariant forall p :: p in shown <==> exists r :: r in v.refs[..i] && ShowsBounds(v, r, p)
      invariant forall x, y :: (x, y) in nonFsmSeen <==> NonFsmUser(x, y) in errors
    {
      var r := v.refs[i];
      assert v.refs[..i + 1] == v.refs[..i] + [r];
      ReportCounts(v, v.refs, i, errors);
      ghost var reported := Report(errors, RefError(v, r));
      var error := RefError(v, r);
      if error.Some? && error.value.NonFsmUser? {
        var user := (error.value.entity, error.value.resource);
        if user !in nonFsmSeen {
          nonFsmSeen := nonFsmSeen + {user};
          errors := errors + [error.value];
        }
      } else if error.Some? {
        errors := errors + [error.value];
      } else if r.record !in v.usages && r.record in v.bounds {
        assert ShowsBounds(v, r, v.bounds[r.record].resource);
        shown := shown + {v.bounds[r.record].resource};
      }
      assert errors == reported;
      assert r in v.refs[..i + 1];
    }
    assert v.refs[..|v.refs|] == v.refs;
  }

  method CheckBounds(v: View) returns (errors: seq<ResourceError>)
    ensures forall e :: e in errors <==> exists p :: p in v.bounds && BoundsError(v, v.bounds[p], e)
  {
    errors := [];
    var todo := v.bounds.Keys;
    while todo != {}
      invariant todo <= v.bounds.Keys
      invariant forall e :: e in errors <==> exists p :: p in v.bounds.Keys - todo && BoundsError(v, v.bounds[p], e)
    {
      var p :| p in todo;
      var more := CheckBoundsRecord(v, v.bounds[p]);
      errors := errors + more;
      todo := todo - {p};
    }
  }

  /** Requirement 2: a bounds record covers exactly its resource's bounded capacities. */
  method CheckBoundsRecord(v: View, b: RoleRecord) returns (errors: seq<ResourceError>)
    ensures forall e :: e in errors <==> BoundsError(v, b, e)
  {
    errors := [];
    if b.resource !in v.resources {
      return [UnknownResource(b.location, b.resource)];
    }
    var flags := v.resources[b.resource];
    if !HasBounded(flags) {
      return [UnexpectedBounds(b.location, b.resource)];
    }
    for i := 0 to |b.fields|
      invariant forall e :: e in errors <==> exists n :: n in b.fields[..i] && Unbounded(flags, b, n, e)
    {
      assert b.fields[..i + 1] == b.fields[..i] + [b.fields[i]];
      if !(b.fields[i] in flags && flags[b.fields[i]]) {
        errors := errors + [UnboundedCapacity(b.location, b.resource, b.fields[i])];
        assert Unbounded(flags, b, b.fields[i], UnboundedCapacity(b.location, b.resource, b.fields[i]));
      }
      assert b.fields[i] in b.fields[..i + 1];
    }
    assert b.fields[..|b.fields|] == b.fields;
    ghost var before := errors;
    var todo := flags.Keys;
    while todo != {}
      invariant todo <= flags.Keys
      invariant forall e :: e in errors <==>
                  e in before || exists n :: n in flags.Keys - todo && Uncovered(flags, b, n, e)
    {
      var n :| n in todo;
      if flags[n] && n !in b.fields {
        errors := errors + [UncoveredCapacity(b.location, b.resource, n)];
        assert Uncovered(flags, b, n, UncoveredCapacity(b.location, b.resource, n));
      }
      todo := todo - {n};
    }
  }

  /** Requirement 2: a resource with a bounded capacity has a bounds event. */
  method CheckMissing(v: View, shown: set<Path>) returns (errors: seq<ResourceError>)
    requires forall p :: p in shown <==> exists r :: r in v.refs && ShowsBounds(v, r, p)
    ensures forall e :: e in errors <==> MissingError(v, e)
  {
    errors := [];
    var todo := v.resources.Keys;
    while todo != {}
      invariant todo <= v.resources.Keys
      invariant forall e :: e in errors <==>
                  exists p :: && p in v.resources.Keys - todo && HasBounded(v.resources[p])
                              && p !in shown && e == MissingBounds(p)
    {
      var p :| p in todo;
      if HasBounded(v.resources[p]) && p !in shown {
        errors := errors + [MissingBounds(p)];
      }
      todo := todo - {p};
    }
  }
}
