/** The FSM constraint as a visitor of a whole schema. */
module FsmValidation {
  import opened Wrappers
  import opened SchemaModel
  import opened Walk
  import opened Cursors
  import opened Fsms

  /** The violations of one entity; an entity without the constraint has none. */
  ghost function EntityViolations(entity: Entity): set<FsmError> {
    match entity.annotations.fsm
    case Absent => {}
    case NoData => {InvalidData(entity.path)}
    case Malformed => {InvalidData(entity.path)}
    case Payload(fsm) => Violations(entity, fsm)
  }

  ghost predicate EntityAccepted(entity: Entity) {
    match entity.annotations.fsm
    case Absent => true
    case Payload(fsm) => MeetsRequirements(entity, fsm)
    case _ => false
  }

  lemma AcceptedIffNoViolation(entity: Entity)
    ensures EntityAccepted(entity) <==> EntityViolations(entity) == {}
  {
    if entity.annotations.fsm.Payload? {
      NoViolationIffRequirements(entity, entity.annotations.fsm.value);
    }
  }

  /** No error, the only error, or all of them together. */
  function Conclude(errors: seq<FsmError>): Result<(), FsmError> {
    if |errors| == 0 then Ok(())
    else if |errors| == 1 then Err(errors[0])
    else Err(Multiple(errors))
  }

  ghost function CursorViolations(cursor: seq<Element>): set<FsmError>
    requires cursor != []
  {
    if Current(cursor).EntityEl? then EntityViolations(Current(cursor).entity) else {}
  }

  /** The errors an outcome stands for. */
  function Reported(output: Result<(), FsmError>): seq<FsmError> {
    match output
    case Ok(_) => []
    case Err(Multiple(errors)) => errors
    case Err(error) => [error]
  }

  lemma ReportedIsConcluded(errors: seq<FsmError>)
    requires forall e | e in errors :: !e.Multiple?
    ensures Reported(Conclude(errors)) == errors
  {
    assert |errors| == 1 ==> errors[0] in errors;
  }

  /** The entity violates the constraint in this way. */
  ghost predicate ViolatesIn(entity: Entity, error: FsmError) {
    match entity.annotations.fsm
    case Absent => false
    case Payload(fsm) => error in Violations(entity, fsm)
    case _ => error == InvalidData(entity.path)
  }

  class FsmConstraint {
    var errors: seq<FsmError>

    constructor ()
      ensures errors == []
    {
      errors := [];
    }

    method Visit(cursor: seq<Element>)
      requires cursor != []
      requires Current(cursor).EntityEl? ==> UniqueEvents(Current(cursor).entity.events)
      modifies this
      ensures |old(errors)| <= |errors| && errors[..|old(errors)|] == old(errors)
      ensures Lists(errors[|old(errors)|..], CursorViolations(cursor))
    {
      if !Current(cursor).EntityEl? {
        return;
      }
      var entity := Current(cursor).entity;
      match entity.annotations.fsm {
        case Absent =>
        case NoData => errors := errors + [InvalidData(entity.path)];
        case Malformed => errors := errors + [InvalidData(entity.path)];
        case Payload(fsm) => errors := CheckEntity(entity, fsm, errors);
      }
    }

    method Finish() returns (output: Result<(), FsmError>)
      ensures output == Conclude(errors)
    {
      output := match |errors|
        case 0 => Ok(())
        case 1 => Err(errors[0])
        case _ => Err(Multiple(errors));
    }
  }

  ghost predicate AllAccepted(schema: Schema) {
    forall e | e in schema.entities :: EntityAccepted(e)
  }

  /** Some entity of the schema violates the constraint in this way. */
  ghost predicate IsViolation(schema: Schema, error: FsmError) {
    exists e :: e in schema.entities && ViolatesIn(e, error)
  }

  lemma ViolatesInIff(entity: Entity, error: FsmError)
    ensures error in EntityViolations(entity) <==> ViolatesIn(entity, error)
  {}

  /** One of the first `n` visits shows the violation. */
  ghost predicate Shown(visits: seq<seq<Element>>, n: nat, error: FsmError)
    requires n <= |visits|
  {
    exists k :: 0 <= k < n && visits[k] != [] && error in CursorViolations(visits[k])
  }

  lemma ViolationsAreShown(schema: Schema, error: FsmError)
    ensures IsViolation(schema, error) <==> Shown(Visits(schema), |Visits(schema)|, error)
  {
    var visits := Visits(schema);
    if e :| e in schema.entities && ViolatesIn(e, error) {
      EntityHasCursor(schema, e);
      var k :| 0 <= k < |visits| && visits[k] == [SchemaEl(schema), EntityEl(e)];
      assert error in CursorViolations(visits[k]);
    }
    if k :| 0 <= k < |visits| && visits[k] != [] && error in CursorViolations(visits[k]) {
      EntityAtCursor(schema, visits[k]);
    }
  }

  lemma EntityAtCursor(schema: Schema, c: seq<Element>)
    requires c in Visits(schema) && c != [] && Current(c).EntityEl?
    ensures Current(c).entity in schema.entities
  {
    CursorShape(schema, c);
    assert Current(c) == c[1];
  }

  lemma AllAcceptedIffNoViolation(schema: Schema)
    ensures AllAccepted(schema) <==> forall error :: !IsViolation(schema, error)
  {
    forall e | e in schema.entities ensures EntityAccepted(e) <==> EntityViolations(e) == {} {
      AcceptedIffNoViolation(e);
    }
    if forall error :: !IsViolation(schema, error) {
      forall e, error | e in schema.entities ensures error !in EntityViolations(e) {
        assert !IsViolation(schema, error) && !ViolatesIn(e, error);
      }
    }
  }

  lemma ShownNext(visits: seq<seq<Element>>, n: nat, error: FsmError)
    requires n < |visits| && visits[n] != []
    ensures Shown(visits, n + 1, error) <==> Shown(visits, n, error) || error in CursorViolations(visits[n])
  {}

  /** Validates a schema: accepted exactly when every entity that carries the
      constraint meets its requirements; otherwise all violations are reported. */
  method Validate(schema: Schema) returns (output: Result<(), FsmError>)
    requires WellFormed(schema)
    ensures output.Ok? <==> AllAccepted(schema)
    ensures output.Ok? <==> forall e | e in schema.entities ::
                              || e.annotations.fsm == Absent
                              || (e.annotations.fsm.Payload? && MeetsRequirements(e, e.annotations.fsm.value))
    ensures forall error :: error in Reported(output) <==> IsViolation(schema, error)
  {
    var constraint := new FsmConstraint();
    var visits := Visits(schema);
    for i := 0 to |visits|
      invariant forall e :: e in constraint.errors <==> Shown(visits, i, e)
    {
      CursorShape(schema, visits[i]);
      assert Current(visits[i]).EntityEl? ==> Current(visits[i]) == visits[i][1];
      ghost var before := constraint.errors;
      constraint.Visit(visits[i]);
      ListsNothing(constraint.errors[|before|..], CursorViolations(visits[i]));
      assert constraint.errors == before + constraint.errors[|before|..];
      forall e ensures e in constraint.errors <==> Shown(visits, i + 1, e) {
        ShownNext(visits, i, e);
      }
    }
    forall e ensures e in constraint.errors <==> IsViolation(schema, e) {
      ViolationsAreShown(schema, e);
    }
    AllAcceptedIffNoViolation(schema);
    assert constraint.errors != [] ==> constraint.errors[0] in constraint.errors;
    output := constraint.Finish();
    forall e | e in constraint.errors ensures !e.Multiple? {
      NoViolationIsMultiple(schema, e);
    }
    ReportedIsConcluded(constraint.errors);
  }

  lemma NoViolationIsMultiple(schema: Schema, error: FsmError)
    requires IsViolation(schema, error)
    ensures !error.Multiple?
  {}
}
