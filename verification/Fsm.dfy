/** The finite-state-machine constraint: the topology graph of an FSM and the
    checks of an entity against it. */
module Fsms {
  import opened Wrappers
  import opened SchemaModel
  import opened Graphs

  // ---- Topology -------------------------------------------------------------

  function Endpoints(transitions: seq<Transition>): (r: seq<Identifier>)
    ensures forall s :: s in r <==> exists t :: t in transitions && (s == t.source || s == t.target)
  {
    if transitions == [] then []
    else
      var rest := Endpoints(transitions[1..]);
      assert forall t :: t in transitions <==> t == transitions[0] || t in transitions[1..];
      [transitions[0].source, transitions[0].target] + rest
  }

  /** Every state the FSM names: the initial state and every transition endpoint,
      possibly more than once. */
  function States(fsm: Fsm): seq<Identifier> {
    [fsm.initial] + Endpoints(fsm.transitions)
  }

  predicate IsState(fsm: Fsm, state: Identifier) {
    state in States(fsm)
  }

  /** A named state without outgoing transition. */
  predicate IsFinalState(fsm: Fsm, state: Identifier) {
    IsState(fsm, state) && !exists t :: t in fsm.transitions && t.source == state
  }

  /** States are the initial one and the ends of transitions; final are those of them
      that no transition leaves. */
  lemma StateMeans(fsm: Fsm, state: Identifier)
    ensures IsState(fsm, state) <==>
            state == fsm.initial || exists t :: t in fsm.transitions && (state == t.source || state == t.target)
    ensures IsFinalState(fsm, state) <==>
            && (state == fsm.initial || exists t :: t in fsm.transitions && state == t.target)
            && forall t | t in fsm.transitions :: t.source != state
  {
    assert IsState(fsm, state) <==> state == fsm.initial || state in Endpoints(fsm.transitions);
  }

  /** The transitions as arcs between state names. */
  function Steps(fsm: Fsm): seq<(Identifier, Identifier)> {
    seq(|fsm.transitions|, i requires 0 <= i < |fsm.transitions| =>
      (fsm.transitions[i].source, fsm.transitions[i].target))
  }

  datatype GraphNode = Init | End | Named(name: Identifier)

  function FinalArcs(fsm: Fsm, states: seq<Identifier>): (r: seq<(GraphNode, GraphNode)>)
    ensures forall x, y :: (x, y) in r <==> x.Named? && y.End? && x.name in states && IsFinalState(fsm, x.name)
  {
    if states == [] then []
    else (if IsFinalState(fsm, states[0]) then [(Named(states[0]), End)] else []) + FinalArcs(fsm, states[1..])
  }

  /** The transition graph with synthetic lifecycle boundary nodes. `End` occurs in
      it only if some state is final. */
  function GraphOf(fsm: Fsm): seq<(GraphNode, GraphNode)> {
    [(Init, Named(fsm.initial))]
    + seq(|fsm.transitions|, i requires 0 <= i < |fsm.transitions| =>
        (Named(fsm.transitions[i].source), Named(fsm.transitions[i].target)))
    + FinalArcs(fsm, States(fsm))
  }

  lemma StepIsTransition(fsm: Fsm, a: Identifier, b: Identifier)
    ensures (a, b) in Steps(fsm) <==> Transition(a, b) in fsm.transitions
  {
    if Transition(a, b) in fsm.transitions {
      var i :| 0 <= i < |fsm.transitions| && fsm.transitions[i] == Transition(a, b);
      assert Steps(fsm)[i] == (a, b);
    }
  }

  lemma GraphArc(fsm: Fsm, x: GraphNode, y: GraphNode)
    ensures (x, y) in GraphOf(fsm) <==>
            || (x.Init? && y == Named(fsm.initial))
            || (x.Named? && y.Named? && (x.name, y.name) in Steps(fsm))
            || (x.Named? && y.End? && IsFinalState(fsm, x.name))
  {
    var g := seq(|fsm.transitions|, i requires 0 <= i < |fsm.transitions| =>
        (Named(fsm.transitions[i].source), Named(fsm.transitions[i].target)));
    assert (x, y) in GraphOf(fsm) <==>
           (x.Init? && y == Named(fsm.initial)) || (x, y) in g || (x, y) in FinalArcs(fsm, States(fsm));
    if (x, y) in g {
      var i :| 0 <= i < |g| && g[i] == (x, y);
      assert Steps(fsm)[i] == (x.name, y.name);
    }
    if x.Named? && y.Named? && (x.name, y.name) in Steps(fsm) {
      var i :| 0 <= i < |Steps(fsm)| && Steps(fsm)[i] == (x.name, y.name);
      assert g[i] == (x, y);
    }
  }

  /** Some sequence of transitions leads from `state` to a final state. */
  ghost predicate CanFinish(fsm: Fsm, state: Identifier) {
    exists f :: IsFinalState(fsm, f) && Reaches(Steps(fsm), state, f)
  }

  /** Some non-empty sequence of transitions leads from `state` back to itself. */
  ghost predicate Recurs(fsm: Fsm, state: Identifier) {
    OnCycle(Steps(fsm), state)
  }

  // ---- Paths of the graph are paths of the transitions ----------------------

  lemma LiftPath(fsm: Fsm, p: seq<Identifier>, a: Identifier, b: Identifier) returns (q: seq<GraphNode>)
    requires Joins(Steps(fsm), p, a, b)
    ensures Joins(GraphOf(fsm), q, Named(a), Named(b)) && |q| == |p|
  {
    q := seq(|p|, i requires 0 <= i < |p| => Named(p[i]));
    forall i, j | 0 <= i < j < |q| && j == i + 1 ensures (q[i], q[j]) in GraphOf(fsm) {
      assert (p[i], p[j]) in Steps(fsm);
      GraphArc(fsm, q[i], q[j]);
    }
  }

  lemma LowerPath(fsm: Fsm, q: seq<GraphNode>, a: Identifier, b: Identifier) returns (p: seq<Identifier>)
    requires Joins(GraphOf(fsm), q, Named(a), Named(b))
    ensures Joins(Steps(fsm), p, a, b) && |p| == |q|
  {
    forall i | 0 <= i < |q| ensures q[i].Named? {
      if 0 < i < |q| - 1 {
        assert (q[i - 1], q[i]) in GraphOf(fsm) && (q[i], q[i + 1]) in GraphOf(fsm);
        GraphArc(fsm, q[i - 1], q[i]);
        GraphArc(fsm, q[i], q[i + 1]);
      }
    }
    p := seq(|q|, i requires 0 <= i < |q| => q[i].name);
    forall i, j | 0 <= i < j < |p| && j == i + 1 ensures (p[i], p[j]) in Steps(fsm) {
      assert (q[i], q[j]) in GraphOf(fsm);
      GraphArc(fsm, q[i], q[j]);
    }
  }

  lemma GraphReaches(fsm: Fsm, a: Identifier, b: Identifier)
    ensures Reaches(GraphOf(fsm), Named(a), Named(b)) <==> Reaches(Steps(fsm), a, b)
  {
    if p :| Joins(Steps(fsm), p, a, b) {
      var q := LiftPath(fsm, p, a, b);
    }
    if q :| Joins(GraphOf(fsm), q, Named(a), Named(b)) {
      var p := LowerPath(fsm, q, a, b);
    }
  }

  lemma InitReaches(fsm: Fsm, state: Identifier)
    ensures Reaches(GraphOf(fsm), Init, Named(state)) <==> Reaches(Steps(fsm), fsm.initial, state)
  {
    var g := GraphOf(fsm);
    GraphReaches(fsm, fsm.initial, state);
    GraphArc(fsm, Init, Named(fsm.initial));
    ReachesArc(g, Init, Named(fsm.initial));
    if Reaches(Steps(fsm), fsm.initial, state) {
      ReachesTransitive(g, Init, Named(fsm.initial), Named(state));
    }
    if p :| Joins(g, p, Init, Named(state)) {
      assert (p[0], p[1]) in g;
      GraphArc(fsm, p[0], p[1]);
      SubPath(g, p, 1, |p|);
    }
  }

  lemma ReachesEnd(fsm: Fsm, state: Identifier)
    ensures Reaches(GraphOf(fsm), Named(state), End) <==> CanFinish(fsm, state)
  {
    var g := GraphOf(fsm);
    if f :| IsFinalState(fsm, f) && Reaches(Steps(fsm), state, f) {
      GraphReaches(fsm, state, f);
      GraphArc(fsm, Named(f), End);
      ReachesArc(g, Named(f), End);
      ReachesTransitive(g, Named(state), Named(f), End);
    }
    if p: seq<GraphNode> :| Joins(g, p, Named(state), End) {
      var k := |p| - 2;
      assert (p[k], p[k + 1]) in g;
      GraphArc(fsm, p[k], p[k + 1]);
      SubPath(g, p, 0, k + 1);
      GraphReaches(fsm, state, p[k].name);
    }
  }

  lemma ComponentOrLoopIffRecurs(fsm: Fsm, state: Identifier)
    ensures Recurs(fsm, state) <==>
            || Transition(state, state) in fsm.transitions
            || exists x :: && x != Named(state) && Reaches(GraphOf(fsm), Named(state), x)
                           && Reaches(GraphOf(fsm), x, Named(state))
  {
    var g, v := GraphOf(fsm), Named(state);
    CycleIffComponentOrLoop(g, v);
    GraphArc(fsm, v, v);
    StepIsTransition(fsm, state, state);
    if p :| Joins(Steps(fsm), p, state, state) && |p| >= 2 {
      var q := LiftPath(fsm, p, state, state);
      assert OnCycle(g, v);
    }
    if q :| Joins(g, q, v, v) && |q| >= 2 {
      var p := LowerPath(fsm, q, state, state);
      assert Recurs(fsm, state);
    }
  }

  lemma RecursIsState(fsm: Fsm, state: Identifier)
    requires Recurs(fsm, state)
    ensures IsState(fsm, state)
  {
    var p :| Joins(Steps(fsm), p, state, state) && |p| >= 2;
    assert (p[0], p[1]) in Steps(fsm);
    StepIsTransition(fsm, p[0], p[1]);
  }

  /** Only named states and the initial state are ever reached. */
  lemma ReachableIsState(fsm: Fsm, state: Identifier)
    requires Reaches(Steps(fsm), fsm.initial, state)
    ensures IsState(fsm, state)
  {
    var p :| Joins(Steps(fsm), p, fsm.initial, state);
    if |p| > 1 {
      assert (p[|p| - 2], p[|p| - 1]) in Steps(fsm);
      StepIsTransition(fsm, p[|p| - 2], p[|p| - 1]);
    }
  }

  /** The states on a cycle: those that share their component of the graph with
      another node, and those with a self-loop. */
  method FindCyclic(fsm: Fsm) returns (onCycle: set<Identifier>)
    ensures forall s :: s in onCycle <==> Recurs(fsm, s)
  {
    onCycle := FindShared(fsm);
    ghost var shared := onCycle;
    for i := 0 to |fsm.transitions|
      invariant forall s :: s in onCycle <==> s in shared || Transition(s, s) in fsm.transitions[..i]
    {
      var t := fsm.transitions[i];
      assert fsm.transitions[..i + 1] == fsm.transitions[..i] + [t];
      if t.source == t.target {
        assert t == Transition(t.source, t.source);
        onCycle := onCycle + {t.source};
      }
    }
    assert fsm.transitions[..|fsm.transitions|] == fsm.transitions;
    forall s ensures Recurs(fsm, s) <==> s in shared || Transition(s, s) in fsm.transitions {
      RecursIfSharedOrLoop(fsm, s, shared);
    }
  }

  /** The state's node shares its component of the graph with another. */
  ghost predicate IsShared(fsm: Fsm, state: Identifier) {
    exists x :: x != Named(state) && Reaches(GraphOf(fsm), Named(state), x) && Reaches(GraphOf(fsm), x, Named(state))
  }

  lemma RecursIfSharedOrLoop(fsm: Fsm, state: Identifier, shared: set<Identifier>)
    requires forall s :: s in shared <==> IsState(fsm, s) && IsShared(fsm, s)
    ensures Recurs(fsm, state) <==> state in shared || Transition(state, state) in fsm.transitions
  {
    ComponentOrLoopIffRecurs(fsm, state);
    if Recurs(fsm, state) { RecursIsState(fsm, state); }
  }

  method FindShared(fsm: Fsm) returns (shared: set<Identifier>)
    ensures forall s :: s in shared <==> IsState(fsm, s) && IsShared(fsm, s)
  {
    shared := {};
    var states := States(fsm);
    for i := 0 to |states|
      invariant forall s :: s in shared <==> s in states[..i] && IsShared(fsm, s)
    {
      assert states[..i + 1] == states[..i] + [states[i]];
      var found := SharesComponent(GraphOf(fsm), Named(states[i]));
      if found {
        shared := shared + {states[i]};
      }
    }
    assert states[..|states|] == states;
  }

  /** The cardinality a state's event must have, or none for a name that is not a
      state. */
  method CardinalityOf(fsm: Fsm, state: Identifier) returns (cardinality: Option<Cardinality>)
    ensures cardinality == None <==> !IsState(fsm, state)
    ensures cardinality == Some(Multi) <==> Recurs(fsm, state)
  {
    if state !in States(fsm) {
      if Recurs(fsm, state) { RecursIsState(fsm, state); }
      return None;
    }
    var onCycle := FindCyclic(fsm);
    cardinality := Some(if state in onCycle then Multi else Once);
  }

  // ---- Checking an entity ---------------------------------------------------

  datatype FsmError =
    | InvalidData(entity: Path)
    | UnknownState(entity: Path, state: Identifier)
    | UncoveredEvent(entity: Path, event: Identifier)
    | UnreachableFromInit(entity: Path, state: Identifier)
    | CannotReachFinalState(entity: Path, state: Identifier)
    | InitialStateIsFinal(entity: Path, state: Identifier)
    | CardinalityMismatch(entity: Path, state: Identifier, expected: Cardinality, found: Cardinality)
    | Multiple(errors: seq<FsmError>)

  ghost function Expected(fsm: Fsm, state: Identifier): Cardinality {
    if Recurs(fsm, state) then Multi else Once
  }

  /** The six documented requirements on an entity that carries the constraint. */
  ghost predicate MeetsRequirements(entity: Entity, fsm: Fsm) {
    && (forall s | IsState(fsm, s) :: s in EventNames(entity))
    && (forall ev | ev in entity.events :: IsState(fsm, ev.name))
    && (forall s | IsState(fsm, s) :: Reaches(Steps(fsm), fsm.initial, s))
    && (forall s | IsState(fsm, s) :: CanFinish(fsm, s))
    && !IsFinalState(fsm, fsm.initial)
    && (forall ev | ev in entity.events && IsState(fsm, ev.name) :: ev.cardinality == Expected(fsm, ev.name))
  }

  ghost function StateSet(fsm: Fsm): set<Identifier> {
    set s | s in States(fsm)
  }

  /** One error for every way `entity` misses a requirement. */
  ghost function Violations(entity: Entity, fsm: Fsm): set<FsmError> {
    Misnamed(entity, fsm) + Unreachable(entity, fsm) + Stuck(entity, fsm)
    + Finished(entity, fsm) + Mismatches(entity, fsm)
  }

  ghost function Misnamed(entity: Entity, fsm: Fsm): (r: set<FsmError>)
    ensures forall e | e in r :: e.UnknownState? || e.UncoveredEvent?
  {
    (set s | s in StateSet(fsm) - EventNames(entity) :: UnknownState(entity.path, s))
    + (set n | n in EventNames(entity) - StateSet(fsm) :: UncoveredEvent(entity.path, n))
  }

  ghost function Unreachable(entity: Entity, fsm: Fsm): (r: set<FsmError>)
    ensures forall e | e in r :: e.UnreachableFromInit?
  {
    set s | s in StateSet(fsm) && !Reaches(Steps(fsm), fsm.initial, s) :: UnreachableFromInit(entity.path, s)
  }

  ghost function Stuck(entity: Entity, fsm: Fsm): (r: set<FsmError>)
    ensures forall e | e in r :: e.CannotReachFinalState?
  {
    set s | s in StateSet(fsm) && !CanFinish(fsm, s) :: CannotReachFinalState(entity.path, s)
  }

  ghost function Finished(entity: Entity, fsm: Fsm): (r: set<FsmError>)
    ensures forall e | e in r :: e.InitialStateIsFinal?
  {
    if IsFinalState(fsm, fsm.initial) then {InitialStateIsFinal(entity.path, fsm.initial)} else {}
  }

  ghost function Mismatches(entity: Entity, fsm: Fsm): (r: set<FsmError>)
    ensures forall e | e in r :: e.CardinalityMismatch?
  {
    set ev | ev in entity.events && IsState(fsm, ev.name) && ev.cardinality != Expected(fsm, ev.name) ::
      CardinalityMismatch(entity.path, ev.name, Expected(fsm, ev.name), ev.cardinality)
  }

  /** What each violation says of the entity. */
  lemma ViolationSays(entity: Entity, fsm: Fsm, e: FsmError)
    ensures e in Violations(entity, fsm) <==>
            match e
            case UnknownState(path, s) =>
              path == entity.path && IsState(fsm, s) && forall ev | ev in entity.events :: ev.name != s
            case UncoveredEvent(path, n) =>
              path == entity.path && !IsState(fsm, n) && exists ev :: ev in entity.events && ev.name == n
            case UnreachableFromInit(path, s) =>
              path == entity.path && IsState(fsm, s) && !Reaches(Steps(fsm), fsm.initial, s)
            case CannotReachFinalState(path, s) =>
              path == entity.path && IsState(fsm, s)
              && forall f | Reaches(Steps(fsm), s, f) :: exists t :: t in fsm.transitions && t.source == f
            case InitialStateIsFinal(path, s) =>
              path == entity.path && s == fsm.initial && forall t | t in fsm.transitions :: t.source != s
            case CardinalityMismatch(path, s, expected, found) =>
              && path == entity.path && IsState(fsm, s) && expected != found
              && expected == (if Recurs(fsm, s) then Multi else Once)
              && exists ev :: ev in entity.events && ev.name == s && ev.cardinality == found
            case _ => false
  {
    if e.CannotReachFinalState? && IsState(fsm, e.state) {
      FinishesIff(fsm, e.state);
    }
  }

  lemma FinishesIff(fsm: Fsm, s: Identifier)
    requires IsState(fsm, s)
    ensures CanFinish(fsm, s) <==>
            exists f :: Reaches(Steps(fsm), s, f) && forall t | t in fsm.transitions :: t.source != f
  {
    if f :| Reaches(Steps(fsm), s, f) && forall t | t in fsm.transitions :: t.source != f {
      StatesReachStates(fsm, s, f);
      assert IsFinalState(fsm, f);
    }
  }

  lemma StatesReachStates(fsm: Fsm, a: Identifier, b: Identifier)
    requires IsState(fsm, a) && Reaches(Steps(fsm), a, b)
    ensures IsState(fsm, b)
  {
    var p :| Joins(Steps(fsm), p, a, b);
    if |p| > 1 {
      assert (p[|p| - 2], p[|p| - 1]) in Steps(fsm);
      StepIsTransition(fsm, p[|p| - 2], p[|p| - 1]);
    }
  }

  /** `errors` holds every error of `all` once, in no particular order. */
  ghost predicate Lists<E>(errors: seq<E>, all: set<E>) {
    multiset(errors) == multiset(all)
  }

  lemma ListsDisjoint<E>(a: seq<E>, all: set<E>, b: seq<E>, more: set<E>)
    requires Lists(a, all) && Lists(b, more) && all !! more
    ensures Lists(a + b, all + more)
  {
    assert multiset(all + more) == multiset(all) + multiset(more);
  }

  lemma ListsNothing<E>(a: seq<E>, all: set<E>)
    requires Lists(a, all)
    ensures a == [] <==> all == {}
    ensures forall e :: e in a <==> e in all
  {
    forall e ensures e in a <==> e in all {
      assert e in a <==> e in multiset(a);
      assert e in all <==> e in multiset(all);
    }
    if a != [] {
      assert a[0] in all;
    }
  }

  /** Which of the checks finds an error. */
  function Stage(e: FsmError): nat {
    match e
    case UnknownState(_, _) => 0
    case UncoveredEvent(_, _) => 1
    case UnreachableFromInit(_, _) => 2
    case CannotReachFinalState(_, _) => 3
    case InitialStateIsFinal(_, _) => 4
    case _ => 5
  }

  ghost predicate ByStage(errors: seq<FsmError>) {
    forall i, j | 0 <= i < j < |errors| :: Stage(errors[i]) <= Stage(errors[j])
  }

  lemma OfOneStage(errors: seq<FsmError>, all: set<FsmError>, stage: nat)
    requires Lists(errors, all) && forall e | e in all :: Stage(e) == stage
    ensures forall e | e in errors :: Stage(e) == stage
  {
    ListsNothing(errors, all);
  }

  lemma ByStageAppend(a: seq<FsmError>, b: seq<FsmError>, stage: nat)
    requires ByStage(a) && (forall e | e in a :: Stage(e) < stage) && forall e | e in b :: Stage(e) == stage
    ensures ByStage(a + b) && forall e | e in a + b :: Stage(e) <= stage
  {
    forall i, j | 0 <= i < j < |a + b| ensures Stage((a + b)[i]) <= Stage((a + b)[j]) {
      assert i < |a| ==> a[i] in a;
      assert i >= |a| ==> b[i - |a|] in b;
      assert j >= |a| ==> b[j - |a|] in b;
    }
  }

  /** Pushes one error for each of `names`, in arbitrary order. */
  method PushEach(names: set<Identifier>, error: Identifier -> FsmError) returns (errors: seq<FsmError>)
    requires forall m, n | m in names && n in names && m != n :: error(m) != error(n)
    ensures Lists(errors, set n | n in names :: error(n))
  {
    errors := [];
    var todo := names;
    while todo != {}
      invariant todo <= names
      invariant Lists(errors, set n | n in names - todo :: error(n))
    {
      var n :| n in todo;
      ghost var before := set m | m in names - todo :: error(m);
      errors := errors + [error(n)];
      todo := todo - {n};
      assert (set m | m in names - todo :: error(m)) == before + {error(n)} by {
        assert names - todo == (names - (todo + {n})) + {n};
      }
      assert error(n) !in before;
    }
    assert names - {} == names;
  }

  /** The cardinality declared for each event name. */
  method CardinalityByEvent(entity: Entity) returns (m: map<Identifier, Cardinality>)
    requires UniqueEvents(entity.events)
    ensures m.Keys == EventNames(entity)
    ensures forall ev | ev in entity.events :: m[ev.name] == ev.cardinality
  {
    m := map[];
    for i := 0 to |entity.events|
      invariant m.Keys == set e | e in entity.events[..i] :: e.name
      invariant forall k | 0 <= k < i :: m[entity.events[k].name] == entity.events[k].cardinality
    {
      m := m[entity.events[i].name := entity.events[i].cardinality];
      assert entity.events[..i + 1] == entity.events[..i] + [entity.events[i]];
    }
    assert entity.events[..|entity.events|] == entity.events;
  }

  /** Adds to `errors` exactly the violations of `entity`, each once, in the order of
      the checks that find them. */
  method CheckEntity(entity: Entity, fsm: Fsm, errors: seq<FsmError>) returns (result: seq<FsmError>)
    requires UniqueEvents(entity.events)
    ensures |errors| <= |result| && result[..|errors|] == errors
    ensures Lists(result[|errors|..], Violations(entity, fsm)) && ByStage(result[|errors|..])
    ensures result == errors <==> MeetsRequirements(entity, fsm)
  {
    var added := CheckRequirements(entity, fsm);
    result := errors + added;
    assert result[|errors|..] == added;
    ListsNothing(added, Violations(entity, fsm));
    NoViolationIffRequirements(entity, fsm);
  }

  /** The six checks, in order. */
  method CheckRequirements(entity: Entity, fsm: Fsm) returns (added: seq<FsmError>)
    requires UniqueEvents(entity.events)
    ensures Lists(added, Violations(entity, fsm)) && ByStage(added)
  {
    var names := CheckNames(entity, fsm);
    var unreachable := CheckFromInit(entity, fsm);
    var stuck := CheckToFinal(entity, fsm);
    var initial := if IsFinalState(fsm, fsm.initial) then [InitialStateIsFinal(entity.path, fsm.initial)] else [];
    var cardinalities := CheckCardinalities(entity, fsm);
    added := names + unreachable + stuck + initial + cardinalities;
    ListsAllKinds(entity, fsm, names, unreachable, stuck, initial, cardinalities);
    KindsByStage(entity, fsm, names, unreachable, stuck, initial, cardinalities);
  }

  lemma KindsByStage(entity: Entity, fsm: Fsm, names: seq<FsmError>, unreachable: seq<FsmError>,
                     stuck: seq<FsmError>, initial: seq<FsmError>, cardinalities: seq<FsmError>)
    requires ByStage(names) && forall e | e in names :: Stage(e) < 2
    requires Lists(unreachable, Unreachable(entity, fsm)) && Lists(stuck, Stuck(entity, fsm))
    requires Lists(initial, Finished(entity, fsm)) && Lists(cardinalities, Mismatches(entity, fsm))
    ensures ByStage(names + unreachable + stuck + initial + cardinalities)
  {
    OfOneStage(unreachable, Unreachable(entity, fsm), 2);
    OfOneStage(stuck, Stuck(entity, fsm), 3);
    OfOneStage(initial, Finished(entity, fsm), 4);
    OfOneStage(cardinalities, Mismatches(entity, fsm), 5);
    ByStageAppend(names, unreachable, 2);
    ByStageAppend(names + unreachable, stuck, 3);
    ByStageAppend(names + unreachable + stuck, initial, 4);
    ByStageAppend(names + unreachable + stuck + initial, cardinalities, 5);
  }

  lemma ListsAllKinds(entity: Entity, fsm: Fsm, names: seq<FsmError>, unreachable: seq<FsmError>,
                      stuck: seq<FsmError>, initial: seq<FsmError>, cardinalities: seq<FsmError>)
    requires Lists(names, Misnamed(entity, fsm)) && Lists(unreachable, Unreachable(entity, fsm))
    requires Lists(stuck, Stuck(entity, fsm)) && Lists(initial, Finished(entity, fsm))
    requires Lists(cardinalities, Mismatches(entity, fsm))
    ensures Lists(names + unreachable + stuck + initial + cardinalities, Violations(entity, fsm))
  {
    var m, u, s, f := Misnamed(entity, fsm), Unreachable(entity, fsm), Stuck(entity, fsm), Finished(entity, fsm);
    ListsDisjoint(names, m, unreachable, u);
    ListsDisjoint(names + unreachable, m + u, stuck, s);
    ListsDisjoint(names + unreachable + stuck, m + u + s, initial, f);
    ListsDisjoint(names + unreachable + stuck + initial, m + u + s + f, cardinalities, Mismatches(entity, fsm));
  }

  method CheckNames(entity: Entity, fsm: Fsm) returns (errors: seq<FsmError>)
    ensures Lists(errors, Misnamed(entity, fsm))
    ensures ByStage(errors) && forall e | e in errors :: Stage(e) < 2
  {
    var states := set s | s in States(fsm);
    var names := EventNames(entity);
    var unknown := PushEach(states - names, s => UnknownState(entity.path, s));
    var uncovered := PushEach(names - states, n => UncoveredEvent(entity.path, n));
    ListsDisjoint(unknown, set s | s in states - names :: UnknownState(entity.path, s),
                  uncovered, set n | n in names - states :: UncoveredEvent(entity.path, n));
    NamesByStage(unknown, set s | s in states - names :: UnknownState(entity.path, s),
                 uncovered, set n | n in names - states :: UncoveredEvent(entity.path, n));
    errors := unknown + uncovered;
  }

  lemma NamesByStage(unknown: seq<FsmError>, states: set<FsmError>, uncovered: seq<FsmError>, events: set<FsmError>)
    requires Lists(unknown, states) && forall e | e in states :: Stage(e) == 0
    requires Lists(uncovered, events) && forall e | e in events :: Stage(e) == 1
    ensures ByStage(unknown + uncovered) && forall e | e in unknown + uncovered :: Stage(e) < 2
  {
    OfOneStage(unknown, states, 0);
    OfOneStage(uncovered, events, 1);
    ByStageAppend(unknown, uncovered, 1);
  }

  method CheckFromInit(entity: Entity, fsm: Fsm) returns (errors: seq<FsmError>)
    ensures Lists(errors, Unreachable(entity, fsm))
  {
    var reachableFromInit := Bfs(GraphOf(fsm), Init);
    var missed := set s | s in States(fsm) && Named(s) !in reachableFromInit;
    forall s ensures s in missed <==> s in StateSet(fsm) && !Reaches(Steps(fsm), fsm.initial, s) {
      InitReaches(fsm, s);
    }
    errors := PushEach(missed, s => UnreachableFromInit(entity.path, s));
  }

  method CheckToFinal(entity: Entity, fsm: Fsm) returns (errors: seq<FsmError>)
    ensures Lists(errors, Stuck(entity, fsm))
  {
    var reachesFinal := Bfs(Reversed(GraphOf(fsm)), End);
    var missed := set s | s in States(fsm) && Named(s) !in reachesFinal;
    forall s ensures s in missed <==> s in StateSet(fsm) && !CanFinish(fsm, s) {
      ReversedReaches(GraphOf(fsm), Named(s), End);
      ReachesEnd(fsm, s);
    }
    errors := PushEach(missed, s => CannotReachFinalState(entity.path, s));
  }

  /** A state that is no event of the entity has no cardinality to compare. */
  method CheckCardinalities(entity: Entity, fsm: Fsm) returns (errors: seq<FsmError>)
    requires UniqueEvents(entity.events)
    ensures Lists(errors, Mismatches(entity, fsm))
  {
    var cardinalityByEvent := CardinalityByEvent(entity);
    var onCycle := FindCyclic(fsm);
    var expected := (s: Identifier) => if s in onCycle then Multi else Once;
    var found := (s: Identifier) => if s in cardinalityByEvent then cardinalityByEvent[s] else Once;
    var wrong := set s | s in States(fsm) && s in cardinalityByEvent && cardinalityByEvent[s] != expected(s);
    errors := PushEach(wrong, s => CardinalityMismatch(entity.path, s, expected(s), found(s)));
    WrongAreMismatches(entity, fsm, wrong, expected, found);
  }

  lemma WrongAreMismatches(entity: Entity, fsm: Fsm, wrong: set<Identifier>,
                           expected: Identifier -> Cardinality, found: Identifier -> Cardinality)
    requires forall s :: s in wrong <==> IsState(fsm, s) && s in EventNames(entity) && found(s) != expected(s)
    requires forall s :: expected(s) == Expected(fsm, s)
    requires forall ev | ev in entity.events :: found(ev.name) == ev.cardinality
    ensures (set s | s in wrong :: CardinalityMismatch(entity.path, s, expected(s), found(s)))
            == Mismatches(entity, fsm)
  {
    var all := set s | s in wrong :: CardinalityMismatch(entity.path, s, expected(s), found(s));
    forall e | e in all ensures e in Mismatches(entity, fsm) {
      var s :| s in wrong && e == CardinalityMismatch(entity.path, s, expected(s), found(s));
      var ev :| ev in entity.events && ev.name == s;
      assert e == CardinalityMismatch(entity.path, ev.name, Expected(fsm, ev.name), ev.cardinality);
    }
    forall e | e in Mismatches(entity, fsm) ensures e in all {
      var ev :| ev in entity.events && IsState(fsm, ev.name) && ev.cardinality != Expected(fsm, ev.name)
        && e == CardinalityMismatch(entity.path, ev.name, Expected(fsm, ev.name), ev.cardinality);
      assert ev.name in wrong;
    }
  }

  lemma NoViolationIffRequirements(entity: Entity, fsm: Fsm)
    ensures Violations(entity, fsm) == {} <==> MeetsRequirements(entity, fsm)
  {
    var p, all := entity.path, Violations(entity, fsm);
    if all == {} {
      forall s | IsState(fsm, s)
        ensures s in EventNames(entity) && Reaches(Steps(fsm), fsm.initial, s) && CanFinish(fsm, s)
      {
        assert UnknownState(p, s) !in all && UnreachableFromInit(p, s) !in all && CannotReachFinalState(p, s) !in all;
      }
      assert InitialStateIsFinal(p, fsm.initial) !in all;
      forall ev | ev in entity.events ensures IsState(fsm, ev.name) && ev.cardinality == Expected(fsm, ev.name) {
        assert ev.name in EventNames(entity);
        assert UncoveredEvent(p, ev.name) !in all;
        assert CardinalityMismatch(p, ev.name, Expected(fsm, ev.name), ev.cardinality) !in Mismatches(entity, fsm);
      }
    }
  }
}
