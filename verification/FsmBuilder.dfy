/** Building an FSM entity from its declared states. */
module FsmBuilder {
  import opened Wrappers
  import opened SchemaModel
  import opened Fsms
  import opened FsmValidation

  /** A declared state; a state without targets is final. */
  datatype StateDecl = StateDecl(name: Identifier, attributes: seq<Field>, to: seq<Identifier>, initial: bool)

  datatype FsmEntityBuilderError =
    | NoInitialState
    | MultipleInitialStates(names: seq<Identifier>)
    | DuplicateState(name: Identifier)
    | DuplicateAttribute(name: Identifier)
    | DuplicateConstraint
    | Invalid(error: FsmError)

  ghost predicate DistinctNames(states: seq<StateDecl>) {
    forall i, j | 0 <= i < j < |states| :: states[i].name != states[j].name
  }

  /** The first state to repeat an earlier name is called `name`. */
  ghost predicate FirstRepeats(states: seq<StateDecl>, name: Identifier) {
    exists i, j :: 0 <= i < j < |states| && DistinctNames(states[..j]) && states[i].name == states[j].name == name
  }

  function Initials(states: seq<StateDecl>): seq<Identifier> {
    if states == [] then []
    else (if states[0].initial then [states[0].name] else []) + Initials(states[1..])
  }

  lemma {:induction false} InitialsConcat(a: seq<StateDecl>, b: seq<StateDecl>)
    ensures Initials(a + b) == Initials(a) + Initials(b)
  {
    if a == [] {
      assert a + b == b;
    } else {
      assert (a + b)[1..] == a[1..] + b;
      InitialsConcat(a[1..], b);
    }
  }

  lemma InitialsAround(states: seq<StateDecl>, i: nat)
    requires i < |states| && states[i].initial
    ensures Initials(states) == Initials(states[..i]) + [states[i].name] + Initials(states[i + 1..])
  {
    var before, here, after := states[..i], [states[i]], states[i + 1..];
    assert states == before + here + after;
    InitialsConcat(before + here, after);
    InitialsConcat(before, here);
    InitialsOfOne(states[i]);
  }

  lemma InitialsOfOne(state: StateDecl)
    requires state.initial
    ensures Initials([state]) == [state.name]
  {
    assert [state][1..] == [];
  }

  lemma {:induction false} NoInitials(states: seq<StateDecl>)
    ensures Initials(states) == [] <==> forall s | s in states :: !s.initial
  {
    if states != [] {
      NoInitials(states[1..]);
      assert forall s :: s in states <==> s == states[0] || s in states[1..];
    }
  }

  /** A state marked initial is the only one named exactly if no other is marked. */
  lemma InitialsDeclared(states: seq<StateDecl>, i: nat)
    requires i < |states| && states[i].initial
    ensures Initials(states) == [states[i].name] <==> forall j | 0 <= j < |states| && j != i :: !states[j].initial
    ensures |Initials(states)| == 1 ==> Initials(states) == [states[i].name]
  {
    var before, after := states[..i], states[i + 1..];
    InitialsAround(states, i);
    NoInitials(before);
    NoInitials(after);
    assert forall j | 0 <= j < i :: states[j] in before;
    assert forall j | i < j < |states| :: states[j] == after[j - i - 1] && states[j] in after;
    assert |Initials(states)| == |Initials(before)| + 1 + |Initials(after)|;
  }

  lemma {:induction false} InitialIsMarked(states: seq<StateDecl>)
    requires Initials(states) != []
    ensures exists s :: s in states && s.initial && s.name == Initials(states)[0]
  {
    if states[0].initial {
      assert states[0] in states;
    } else {
      InitialIsMarked(states[1..]);
    }
  }

  function Targets(source: Identifier, to: seq<Identifier>): seq<Transition> {
    seq(|to|, i requires 0 <= i < |to| => Transition(source, to[i]))
  }

  function Transitions(states: seq<StateDecl>): seq<Transition> {
    if states == [] then [] else Targets(states[0].name, states[0].to) + Transitions(states[1..])
  }

  lemma {:induction false} TransitionDeclared(states: seq<StateDecl>, t: Transition)
    ensures t in Transitions(states) <==> exists s :: s in states && s.name == t.source && t.target in s.to
  {
    if states != [] {
      TransitionDeclared(states[1..], t);
      var here := Targets(states[0].name, states[0].to);
      if t.source == states[0].name && t.target in states[0].to {
        var i :| 0 <= i < |states[0].to| && states[0].to[i] == t.target;
        assert here[i] == t;
      }
      assert t in here <==> t.source == states[0].name && t.target in states[0].to;
      assert forall s :: s in states <==> s == states[0] || s in states[1..];
    }
  }

  /** Transitions come in the order in which states, and within them targets, are declared. */
  lemma {:induction false} TransitionsInOrder(states: seq<StateDecl>, state: StateDecl)
    ensures Transitions([]) == []
    ensures var before, all := Transitions(states), Transitions(states + [state]);
            && before <= all && |all| == |before| + |state.to|
            && forall i | 0 <= i < |state.to| :: all[|before| + i] == Transition(state.name, state.to[i])
  {
    if states == [] {
      assert [] + [state] == [state] && [state][1..] == [];
    } else {
      TransitionsInOrder(states[1..], state);
      assert (states + [state])[1..] == states[1..] + [state];
    }
  }

  /** The entity a successful build yields. */
  ghost function EventOf(fsm: Fsm, state: StateDecl): Event {
    Event(state.name, Expected(fsm, state.name), state.attributes, NO_ANNOTATIONS)
  }

  ghost function Assembled(path: Path, annotations: Annotations, states: seq<StateDecl>, fsm: Fsm): Entity {
    Entity(path,
           seq(|states|, i requires 0 <= i < |states| => EventOf(fsm, states[i])),
           annotations.(fsm := Payload(fsm)))
  }

  /** Derived cardinalities never contradict the topology. */
  lemma DerivedCardinalitiesMatch(path: Path, annotations: Annotations, states: seq<StateDecl>, fsm: Fsm)
    ensures Mismatches(Assembled(path, annotations, states, fsm), fsm) == {}
  {}

  ghost predicate AttributesDistinct(states: seq<StateDecl>) {
    forall s | s in states :: UniqueFields(s.attributes)
  }

  /** The first field to repeat an earlier name is called `name`. */
  ghost predicate FirstRepeatsField(fields: seq<Field>, name: Identifier) {
    exists i, j :: 0 <= i < j < |fields| && UniqueFields(fields[..j]) && fields[i].name == fields[j].name == name
  }

  /** The first state that repeats an attribute repeats `name` first. */
  ghost predicate FirstRepeatedAttribute(states: seq<StateDecl>, name: Identifier) {
    exists k :: 0 <= k < |states| && AttributesDistinct(states[..k]) && FirstRepeatsField(states[k].attributes, name)
  }

  lemma AttributeRepeats(states: seq<StateDecl>, k: nat, name: Identifier)
    requires k < |states| && AttributesDistinct(states[..k]) && FirstRepeatsField(states[k].attributes, name)
    ensures FirstRepeatedAttribute(states, name) && !AttributesDistinct(states)
  {
    assert states[k] in states;
  }

  lemma AttributesNext(states: seq<StateDecl>, i: nat)
    requires i < |states| && AttributesDistinct(states[..i]) && UniqueFields(states[i].attributes)
    ensures AttributesDistinct(states[..i + 1])
  {
    assert states[..i + 1] == states[..i] + [states[i]];
  }

  /** No check before the one that finds `error` finds anything. */
  ghost predicate FoundFirst(error: FsmError, all: set<FsmError>) {
    error in all && forall e | e in all :: Stage(error) <= Stage(e)
  }

  lemma FirstIsFoundFirst(errors: seq<FsmError>, all: set<FsmError>)
    requires Lists(errors, all) && ByStage(errors) && errors != []
    ensures FoundFirst(errors[0], all)
  {
    ListsNothing(errors, all);
  }

  class FsmEntityBuilder {
    const path: Path
    var annotations: Annotations
    var states: seq<StateDecl>

    constructor (path: Path)
      ensures this.path == path && annotations == NO_ANNOTATIONS && states == []
    {
      this.path, annotations, states := path, NO_ANNOTATIONS, [];
    }

    method WithAnnotations(annotations: Annotations)
      modifies this`annotations
      ensures this.annotations == annotations
    {
      this.annotations := annotations;
    }

    method WithState(state: StateDecl)
      modifies this`states
      ensures states == old(states) + [state]
    {
      states := states + [state];
    }

    /** Derives each event's cardinality from the topology, then runs the checks of
        the constraint on the entity it assembled. */
    method Build() returns (r: Result<Entity, FsmEntityBuilderError>)
      ensures !DistinctNames(states) <==> r.Err? && r.error.DuplicateState?
      ensures r.Err? && r.error.DuplicateState? ==> FirstRepeats(states, r.error.name)
      ensures DistinctNames(states) ==>
                var initials := Initials(states);
                if initials == [] then r == Err(NoInitialState)
                else if |initials| > 1 then r == Err(MultipleInitialStates(initials))
                else IsChecked(r, path, annotations, states, Fsm(initials[0], Transitions(states)))
      ensures r.Ok? ==> IsBuilt(r.value, path, annotations, states)
    {
      var repeated := FindRepeated(states);
      if repeated.Some? {
        return Err(DuplicateState(repeated.value));
      }
      var initials := Initials(states);
      if initials == [] {
        return Err(NoInitialState);
      } else if |initials| > 1 {
        return Err(MultipleInitialStates(initials));
      }
      r := CheckAssembled(path, annotations, states, Fsm(initials[0], Transitions(states)));
      if r.Ok? {
        TopologyIsDeclared(path, annotations, states);
        CheckedIsBuilt(path, annotations, states, Fsm(initials[0], Transitions(states)), r.value);
      }
    }
  }

  /** One event per state, in order, with the state's attributes as fields; and the
      annotations given, but for the topology. */
  ghost predicate HoldsStates(entity: Entity, path: Path, annotations: Annotations, states: seq<StateDecl>) {
    && entity.path == path && |entity.events| == |states|
    && (forall i | 0 <= i < |states| ::
          && entity.events[i].name == states[i].name && entity.events[i].fields == states[i].attributes
          && entity.events[i].annotations == NO_ANNOTATIONS)
    && entity.annotations.refTree == annotations.refTree && entity.annotations.refTarget == annotations.refTarget
    && entity.annotations.resource == annotations.resource
  }

  /** The topology starts at a state marked initial, and has the declared transitions;
      events are `Multi` exactly where it recurs. */
  ghost predicate HoldsTopology(entity: Entity, states: seq<StateDecl>) {
    && entity.annotations.fsm.Payload?
    && var fsm := entity.annotations.fsm.value;
    && (exists s :: s in states && s.initial && s.name == fsm.initial)
    && (forall t :: t in fsm.transitions <==> IsDeclared(t, states))
    && (forall event | event in entity.events :: event.cardinality == Multi <==> Recurs(fsm, event.name))
  }

  ghost predicate IsDeclared(t: Transition, states: seq<StateDecl>) {
    exists s :: s in states && s.name == t.source && t.target in s.to
  }

  lemma TopologyIsDeclared(path: Path, annotations: Annotations, states: seq<StateDecl>)
    requires Initials(states) != []
    ensures HoldsTopology(Assembled(path, annotations, states, Fsm(Initials(states)[0], Transitions(states))), states)
  {
    InitialIsMarked(states);
    forall t ensures t in Transitions(states) <==> IsDeclared(t, states) {
      TransitionDeclared(states, t);
    }
  }

  /** What a successful build yields: an entity that meets all six requirements and
      holds exactly what was declared. */
  ghost predicate IsBuilt(entity: Entity, path: Path, annotations: Annotations, states: seq<StateDecl>) {
    && EntityAccepted(entity) && UniqueEvents(entity.events)
    && HoldsStates(entity, path, annotations, states) && HoldsTopology(entity, states)
  }

  lemma CheckedIsBuilt(path: Path, annotations: Annotations, states: seq<StateDecl>, fsm: Fsm, entity: Entity)
    requires DistinctNames(states) && IsChecked(Ok(entity), path, annotations, states, fsm)
    requires HoldsTopology(Assembled(path, annotations, states, fsm), states)
    ensures IsBuilt(entity, path, annotations, states)
  {
    AssembledIsAccepted(path, annotations, states, fsm);
    StatesAreHeld(path, annotations, states, fsm);
  }

  lemma StatesAreHeld(path: Path, annotations: Annotations, states: seq<StateDecl>, fsm: Fsm)
    ensures HoldsStates(Assembled(path, annotations, states, fsm), path, annotations, states)
  {}

  lemma AssembledIsAccepted(path: Path, annotations: Annotations, states: seq<StateDecl>, fsm: Fsm)
    requires DistinctNames(states)
    ensures var entity := Assembled(path, annotations, states, fsm);
            UniqueEvents(entity.events) && (MeetsRequirements(entity, fsm) ==> EntityAccepted(entity))
  {}

  /** What assembling and checking an entity for `fsm` comes to: it succeeds exactly
      when the attributes and annotations are free of duplicates and the entity
      meets the constraint. Otherwise a repeated attribute is reported before a
      constraint already attached, and that before the first violation of the
      topology, which is never about cardinality. */
  ghost predicate IsChecked(r: Result<Entity, FsmEntityBuilderError>, path: Path, annotations: Annotations,
                            states: seq<StateDecl>, fsm: Fsm) {
    var entity := Assembled(path, annotations, states, fsm);
    && (r.Ok? <==> AttributesDistinct(states) && annotations.fsm.Absent? && MeetsRequirements(entity, fsm))
    && (r.Ok? ==> r.value == entity)
    && (r.Err? ==>
          match r.error
          case DuplicateAttribute(name) => FirstRepeatedAttribute(states, name)
          case DuplicateConstraint => AttributesDistinct(states) && !annotations.fsm.Absent?
          case Invalid(error) =>
            && AttributesDistinct(states) && annotations.fsm.Absent?
            && FoundFirst(error, Violations(entity, fsm)) && !error.CardinalityMismatch?
          case _ => false)
  }

  method CheckAssembled(path: Path, annotations: Annotations, states: seq<StateDecl>, fsm: Fsm)
    returns (r: Result<Entity, FsmEntityBuilderError>)
    requires DistinctNames(states)
    ensures IsChecked(r, path, annotations, states, fsm)
    ensures r.Err? && r.error.DuplicateAttribute? <==> !AttributesDistinct(states)
    ensures r.Err? && r.error.DuplicateConstraint? <==> AttributesDistinct(states) && !annotations.fsm.Absent?
  {
    var events, duplicate := BuildEvents(path, annotations, states, fsm);
    if duplicate.Some? {
      return Err(DuplicateAttribute(duplicate.value));
    }
    if !annotations.fsm.Absent? {
      return Err(DuplicateConstraint);
    }
    var entity := Entity(path, events, annotations.(fsm := Payload(fsm)));
    ghost var assembled := Assembled(path, annotations, states, fsm);
    assert entity == assembled;
    DerivedCardinalitiesMatch(path, annotations, states, fsm);
    var violation := FirstViolation(entity, fsm);
    if violation.Some? {
      r := Err(Invalid(violation.value));
    } else {
      r := Ok(entity);
    }
  }

  /** The first violation any of the topology checks finds. */
  method FirstViolation(entity: Entity, fsm: Fsm) returns (error: Option<FsmError>)
    requires UniqueEvents(entity.events)
    ensures error.None? <==> MeetsRequirements(entity, fsm)
    ensures error.Some? ==> FoundFirst(error.value, Violations(entity, fsm))
  {
    var errors := CheckEntity(entity, fsm, []);
    assert errors[0..] == errors;
    if errors == [] {
      return None;
    }
    FirstIsFoundFirst(errors, Violations(entity, fsm));
    error := Some(errors[0]);
  }

  /** One event per state, up to the first state that repeats an attribute name. */
  method BuildEvents(path: Path, annotations: Annotations, states: seq<StateDecl>, fsm: Fsm)
    returns (events: seq<Event>, duplicate: Option<Identifier>)
    ensures duplicate.None? <==> AttributesDistinct(states)
    ensures duplicate.None? ==> events == Assembled(path, annotations, states, fsm).events
    ensures duplicate.Some? ==> FirstRepeatedAttribute(states, duplicate.value)
  {
    events := [];
    ghost var all := Assembled(path, annotations, states, fsm).events;
    for i := 0 to |states|
      invariant events == all[..i]
      invariant AttributesDistinct(states[..i])
    {
      var cardinality := CardinalityOf(fsm, states[i].name);
      duplicate := FindDuplicateField(states[i].attributes);
      if duplicate.Some? {
        AttributeRepeats(states, i, duplicate.value);
        return;
      }
      var derived := if cardinality.Some? then cardinality.value else Once;
      assert derived == Expected(fsm, states[i].name);
      events := events + [Event(states[i].name, derived, states[i].attributes, NO_ANNOTATIONS)];
      AttributesNext(states, i);
      assert all[..i + 1] == all[..i] + [EventOf(fsm, states[i])];
    }
    assert states[..|states|] == states;
    duplicate := None;
  }

  method FindRepeated(states: seq<StateDecl>) returns (name: Option<Identifier>)
    ensures name.None? <==> DistinctNames(states)
    ensures name.Some? ==> FirstRepeats(states, name.value)
  {
    var seen: set<Identifier> := {};
    for i := 0 to |states|
      invariant seen == set k | 0 <= k < i :: states[k].name
      invariant DistinctNames(states[..i])
    {
      if states[i].name in seen {
        ghost var k :| 0 <= k < i && states[k].name == states[i].name;
        return Some(states[i].name);
      }
      seen := seen + {states[i].name};
    }
    assert states[..|states|] == states;
    name := None;
  }

  method FindDuplicateField(fields: seq<Field>) returns (name: Option<Identifier>)
    ensures name.None? <==> UniqueFields(fields)
    ensures name.Some? ==> FirstRepeatsField(fields, name.value)
  {
    var seen: set<Identifier> := {};
    for i := 0 to |fields|
      invariant seen == set k | 0 <= k < i :: fields[k].name
      invariant UniqueFields(fields[..i])
    {
      if fields[i].name in seen {
        ghost var k :| 0 <= k < i && fields[k].name == fields[i].name;
        return Some(fields[i].name);
      }
      seen := seen + {fields[i].name};
    }
    assert fields[..|fields|] == fields;
    name := None;
  }
}
