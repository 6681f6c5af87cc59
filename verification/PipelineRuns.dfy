/** What holds over every interleaving of a pipeline, and of a context's pipelines
    on their shared runtime. */
module PipelineRuns {
  import opened Pipeline

  /** `states` is a run from a freshly spawned pipeline: each state follows from the
      one before by one enabled step. */
  ghost predicate IsExecution(states: seq<State>) {
    && states != [] && states[0] == SPAWNED
    && forall i: nat | i + 1 < |states| :: Follows(states, i)
  }

  /** One enabled step leads from state `i` to the next. */
  ghost predicate Follows(states: seq<State>, i: nat)
    requires i + 1 < |states|
  {
    exists step :: CanDo(states[i], step) && states[i + 1] == Do(states[i], step)
  }

  lemma StepTaken(states: seq<State>, i: nat) returns (step: Step)
    requires IsExecution(states) && i + 1 < |states|
    ensures CanDo(states[i], step) && states[i + 1] == Do(states[i], step)
  {
    assert Follows(states, i);
    step :| CanDo(states[i], step) && states[i + 1] == Do(states[i], step);
  }

  lemma {:induction false} ReachableInv(states: seq<State>, i: nat)
    requires IsExecution(states) && i < |states|
    ensures Inv(states[i])
  {
    if i == 0 {
      SpawnedInv();
    } else {
      ReachableInv(states, i - 1);
      var s := states[i - 1];
      var step := StepTaken(states, i - 1);
      StepKeepsInv(s, step);
    }
  }

  lemma Extend(states: seq<State>, step: Step) returns (more: seq<State>)
    requires IsExecution(states)
    requires CanDo(states[|states| - 1], step)
    ensures IsExecution(more) && more == states + [Do(states[|states| - 1], step)]
  {
    more := states + [Do(states[|states| - 1], step)];
    forall i: nat | i + 1 < |more| ensures Follows(more, i) {
      if i + 1 < |states| {
        var taken := StepTaken(states, i);
        assert CanDo(more[i], taken) && more[i + 1] == Do(more[i], taken);
      } else {
        assert CanDo(more[i], step) && more[i + 1] == Do(more[i], step);
      }
    }
  }

  // ---- Delivery -------------------------------------------------------------

  /** Everything that was accepted so far stays accepted, in the same order. */
  lemma {:induction false} SentGrows(states: seq<State>, i: nat, j: nat)
    requires IsExecution(states) && i <= j < |states|
    ensures states[i].sent <= states[j].sent
  {
    if i < j {
      SentGrows(states, i, j - 1);
      var s := states[j - 1];
      var step := StepTaken(states, j - 1);
      StepKeepsSent(s, step);
    }
  }

  lemma StepKeepsSent(s: State, step: Step)
    requires CanDo(s, step)
    ensures s.sent <= Do(s, step).sent
  {}

  /** When the last owner's drop has returned, the exporter has been handed every
      event accepted at any time before, exactly once and in channel order, in
      batches within the limit it asked for, and has been shut down once. */
  lemma DropDelivers(states: seq<State>, i: nat, j: nat)
    requires IsExecution(states) && i <= j < |states| && states[j].drop.Returned?
    ensures Flatten(states[j].exported) == states[j].sent
    ensures states[i].sent <= Flatten(states[j].exported)
    ensures forall b | b in states[j].exported :: 0 < |b.events| <= b.limit
    ensures states[j].shutdowns == 1
  {
    ReachableInv(states, j);
    SentGrows(states, i, j);
    var s := states[j];
    assert Flatten(s.exported) + [] + [] == Flatten(s.exported);
  }

  /** At no time has an event been handed over that was not accepted before, or out
      of order, and the exporter is never shut down twice or used after shutdown. */
  lemma NeverAhead(states: seq<State>, i: nat)
    requires IsExecution(states) && i < |states|
    ensures Flatten(states[i].exported) <= states[i].sent
    ensures states[i].shutdowns <= 1
    ensures states[i].shutdowns == 1 ==> !Enabled(states[i], Export) && !Enabled(states[i], Shutdown)
  {
    ReachableInv(states, i);
    var s := states[i];
    assert s.sent == Flatten(s.exported) + (s.buffer + s.queue);
  }

  /** The arm of the main loop for a closed and drained channel is never taken: the
      owner's sender outlives the forwarder. */
  lemma MainLoopEndsByCancellation(states: seq<State>, i: nat)
    requires IsExecution(states) && i < |states|
    ensures !Enabled(states[i], ReceiveNothing)
  {
    ReachableInv(states, i);
  }

  /** While anything owns the pipeline every send is accepted; refused events come
      from cloned senders only, and the first refusal alone is logged. */
  lemma OwnersAreNeverRefused(states: seq<State>, i: nat)
    requires IsExecution(states) && i < |states|
    ensures states[i].owners > 0 ==> !states[i].closed && states[i].rejected == []
    ensures forall e | e in states[i].rejected :: e.Foreign?
    ensures states[i].errorsLogged <= 1
  {
    ReachableInv(states, i);
  }

  // ---- Handles --------------------------------------------------------------

  /** Once a handle has begun to drop, what it has sent is numbered 0, 1, 2, ... and
      holds exactly one exit; and when the pipeline has been dropped, exactly those
      events of the handle have been delivered, in that order. */
  lemma HandleDelivered(states: seq<State>, i: nat, id: HandleId)
    requires IsExecution(states) && i < |states| && id in states[i].handles
    ensures var mine := Of(states[i].sent, id);
            && mine != [] && (forall k | 0 <= k < |mine| :: mine[k].number == k)
            && (states[i].handles[id].life != Live ==> Exits(mine) == 1)
    ensures states[i].drop.Returned? ==>
              Of(Flatten(states[i].exported), id) == Of(states[i].sent, id) && Exits(Of(states[i].sent, id)) == 1
  {
    ReachableInv(states, i);
    var s := states[i];
    assert HandleInOrder(s, id);
    HandleHasSent(states, i, id);
    if s.drop.Returned? {
      DropDelivers(states, i, i);
      if s.handles[id].life != Gone {
        LiveHandleOwns(s, id);
      }
    }
  }

  lemma {:induction false} HandleHasSent(states: seq<State>, i: nat, id: HandleId)
    requires IsExecution(states) && i < |states| && id in states[i].handles
    ensures states[i].handles[id].next > 0
  {
    if i > 0 {
      var step := StepTaken(states, i - 1);
      StepNumbersUp(states[i - 1], step, id);
      if id in states[i - 1].handles {
        HandleHasSent(states, i - 1, id);
      }
    }
  }

  /** A handle arises with its first event, and its numbers only go up. */
  lemma StepNumbersUp(s: State, step: Step, id: HandleId)
    requires CanDo(s, step)
    requires id in Do(s, step).handles
    ensures Do(s, step).handles[id].next >= if id in s.handles then s.handles[id].next else 1
  {}

  /** An exit need not come last: a transition does not ask whether the handle has
      exited. */
  lemma TransitionAfterExit(states: seq<State>, i: nat, id: HandleId) returns (more: seq<State>)
    requires IsExecution(states) && i == |states| - 1
    requires HasHandle(states[i], id, Live) && states[i].handles[id].exited
    ensures IsExecution(more) && states <= more
    ensures var mine := Of(more[|more| - 1].sent, id);
            mine == Of(states[i].sent, id) + [FromHandle(id, states[i].handles[id].next, false)] && Exits(mine) == 1
  {
    ReachableInv(states, i);
    var s := states[i];
    more := Extend(states, Transition(id));
    LiveHandleOwns(s, id);
    OpenWhileOwned(s);
    assert HandleInOrder(s, id);
    OfSnoc(s.sent, FromHandle(id, s.handles[id].next, false), id);
    ExitsSnoc(Of(s.sent, id), FromHandle(id, s.handles[id].next, false));
  }

  /** Step `k` of the run is a transition of a handle that has exited. */
  ghost predicate IsLateTransition(states: seq<State>, k: nat, id: HandleId) {
    && k + 1 < |states| && HasHandle(states[k], id, Live) && states[k].handles[id].exited
    && states[k + 1] == Do(states[k], Transition(id))
  }

  /** A handle stays, sends at most one event a step, and once it has exited only by a
      transition. */
  lemma StepOfHandle(s: State, step: Step, id: HandleId)
    requires CanDo(s, step) && id in s.handles
    ensures id in Do(s, step).handles
    ensures var h, g := s.handles[id], Do(s, step).handles[id];
            && h.next <= g.next <= h.next + 1 && (h.exited ==> g.exited)
            && (h.exited && g.next > h.next ==> step == Transition(id))
  {}

  lemma FollowingHandle(states: seq<State>, i: nat, id: HandleId)
    requires IsExecution(states) && i + 1 < |states| && id in states[i].handles
    ensures id in states[i + 1].handles
    ensures var h, g := states[i].handles[id], states[i + 1].handles[id];
            && h.next <= g.next <= h.next + 1 && (h.exited ==> g.exited)
            && (h.exited && g.next > h.next <==> IsLateTransition(states, i, id))
    ensures states[i].sent <= states[i + 1].sent
  {
    var s := states[i];
    var step := StepTaken(states, i);
    StepOfHandle(s, step, id);
    StepKeepsSent(s, step);
  }

  /** A handle arises with an event that is no exit. */
  lemma NewHandleIsOpen(states: seq<State>, i: nat, id: HandleId)
    requires IsExecution(states) && i + 1 < |states| && id !in states[i].handles && id in states[i + 1].handles
    ensures !states[i + 1].handles[id].exited && !IsLateTransition(states, i, id)
  {
    var s := states[i];
    var step := StepTaken(states, i);
    assert step == NewHandle(id);
  }

  lemma {:induction false} OfPrefix(a: seq<Event>, b: seq<Event>, id: HandleId)
    requires a <= b
    ensures Of(a, id) <= Of(b, id)
    decreases |b|
  {
    if |a| < |b| {
      OfPrefix(a, b[..|b| - 1], id);
    } else {
      assert a == b;
    }
  }

  /** Among events that hold one exit, how a longer stretch ends. */
  lemma LongerEndsWithExit(a: seq<Event>, b: seq<Event>)
    requires a <= b && |b| <= |a| + 1 && Exits(b) == 1
    ensures EndsWithExit(b) <==> Exits(a) == 0 || (|b| == |a| && EndsWithExit(a))
  {
    if |b| > |a| {
      assert b == a + [b[|a|]];
      ExitsSnoc(a, b[|a|]);
    } else {
      assert a == b;
    }
  }

  /** None of the first `n` steps is a transition of the handle after its exit. */
  ghost predicate NoneLate(states: seq<State>, n: nat, id: HandleId) {
    forall k: nat | k < n :: !IsLateTransition(states, k, id)
  }

  /** How one step changes whether the exit is the last event of a handle. */
  lemma ExitNext(states: seq<State>, j: nat, id: HandleId)
    requires IsExecution(states) && j + 1 < |states| && id in states[j].handles
    ensures id in states[j + 1].handles && (states[j].handles[id].exited ==> states[j + 1].handles[id].exited)
    ensures IsLateTransition(states, j, id) ==> states[j].handles[id].exited
    ensures states[j + 1].handles[id].exited ==>
              (EndsWithExit(Of(states[j + 1].sent, id)) <==>
               !states[j].handles[id].exited
               || (!IsLateTransition(states, j, id) && EndsWithExit(Of(states[j].sent, id))))
  {
    FollowingHandle(states, j, id);
    SentInOrder(states, j, id);
    SentInOrder(states, j + 1, id);
    OfPrefix(states[j].sent, states[j + 1].sent, id);
    if states[j + 1].handles[id].exited {
      LongerEndsWithExit(Of(states[j].sent, id), Of(states[j + 1].sent, id));
    }
  }

  lemma {:induction false} ExitedEndsWithExit(states: seq<State>, i: nat, id: HandleId)
    requires IsExecution(states) && i < |states| && id in states[i].handles
    ensures if states[i].handles[id].exited then EndsWithExit(Of(states[i].sent, id)) <==> NoneLate(states, i, id)
            else NoneLate(states, i, id)
  {
    if i > 0 {
      var j := i - 1;
      if id in states[j].handles {
        ExitedEndsWithExit(states, j, id);
        ExitNext(states, j, id);
      } else {
        NewHandleIsOpen(states, j, id);
        NeverLate(states, j, id);
      }
      assert NoneLate(states, i, id) <==> NoneLate(states, j, id) && !IsLateTransition(states, j, id);
    }
  }

  lemma SentInOrder(states: seq<State>, i: nat, id: HandleId)
    requires IsExecution(states) && i < |states| && id in states[i].handles
    ensures |Of(states[i].sent, id)| == states[i].handles[id].next
    ensures Exits(Of(states[i].sent, id)) == if states[i].handles[id].exited then 1 else 0
  {
    ReachableInv(states, i);
    assert HandleInOrder(states[i], id);
  }

  lemma {:induction false} HandleStays(states: seq<State>, k: nat, i: nat, id: HandleId)
    requires IsExecution(states) && k <= i < |states| && id in states[k].handles
    ensures id in states[i].handles
  {
    if k < i {
      HandleStays(states, k, i - 1, id);
      FollowingHandle(states, i - 1, id);
    }
  }

  /** Before a handle exists there is no transition of it. */
  lemma NeverLate(states: seq<State>, i: nat, id: HandleId)
    requires IsExecution(states) && i < |states| && id !in states[i].handles
    ensures NoneLate(states, i, id)
  {
    forall k: nat | k < i ensures !IsLateTransition(states, k, id) {
      if id in states[k].handles {
        HandleStays(states, k, i, id);
      }
    }
  }

  /** Once a handle's drop has begun, its exit is the last of its events if and only if
      no transition was called on it after it had exited. The same holds of what has
      been delivered when the pipeline has been dropped. */
  lemma ExitLastIffNoLateTransition(states: seq<State>, i: nat, id: HandleId)
    requires IsExecution(states) && i < |states| && id in states[i].handles && states[i].handles[id].life != Live
    ensures EndsWithExit(Of(states[i].sent, id)) <==> NoneLate(states, i, id)
    ensures states[i].drop.Returned? ==>
              (EndsWithExit(Of(Flatten(states[i].exported), id)) <==> NoneLate(states, i, id))
  {
    ReachableInv(states, i);
    assert HandleInOrder(states[i], id);
    ExitedEndsWithExit(states, i, id);
    if states[i].drop.Returned? {
      DropDelivers(states, i, i);
    }
  }

  /** Such a handle arises: create one and exit it. */
  lemma ExitedHandleArises() returns (states: seq<State>)
    ensures IsExecution(states) && HasHandle(states[|states| - 1], 0, Live) && states[|states| - 1].handles[0].exited
  {
    states := Extend([SPAWNED], NewHandle(0));
    states := Extend(states, Exit(0));
  }

  // ---- Progress -------------------------------------------------------------

  /** What the forwarder still has to do once the receiver is closed. */
  function Remaining(s: State): nat {
    2 * |s.queue| +
    match s.forwarder
    case Selecting => 4
    case Exporting(_, _) => 3
    case Draining => 2
    case ShuttingDown => 1
    case Done => 0
  }

  /** After cancellation the forwarder always has a step until it is done. */
  lemma ForwarderNeverStuck(s: State)
    requires Inv(s) && Cancelled(s) && s.forwarder != Done
    ensures exists step :: IsForwarderStep(step) && Enabled(s, step)
  {
    match s.forwarder {
      case Selecting => assert Enabled(s, SeeCancellation);
      case Exporting(_, _) => assert Enabled(s, Export);
      case Draining =>
        if s.queue == [] {
          assert Enabled(s, DrainNothing);
        } else {
          assert Enabled(s, DrainReceive(1, 1));
        }
      case ShuttingDown => assert Enabled(s, Shutdown);
    }
  }

  /** Once the receiver is closed every forwarder step brings the end nearer, and
      no other step delays it: the drop's join returns. */
  lemma DrainTerminates(s: State, step: Step)
    requires Inv(s) && s.closed && CanDo(s, step)
    ensures Do(s, step).closed
    ensures IsForwarderStep(step) ==> Remaining(Do(s, step)) < Remaining(s)
    ensures !IsForwarderStep(step) ==> Remaining(Do(s, step)) == Remaining(s)
  {}

  // ---- The shared runtime ---------------------------------------------------

  /** A context, the pipelines it has spawned, and their strong references to the
      runtime the context owns. `holds[i]` tells whether pipeline `i` still has its
      reference, which it gives up after its drop has returned. */
  datatype System = System(
    pipelines: seq<State>, holds: seq<bool>, context: bool, references: nat, runtimeShutDown: bool)

  const STARTED := System([], [], true, 1, false)

  datatype SystemStep =
    | Spawn
    | Act(pipeline: nat, step: Step)
    | ReleaseRuntime(pipeline: nat)
    | DropContext

  function GiveUp(y: System): System
    requires y.references > 0
  {
    y.(references := y.references - 1, runtimeShutDown := y.runtimeShutDown || y.references == 1)
  }

  /** The forwarder runs on the runtime, so it acts only while that is up. */
  predicate SystemEnabled(y: System, step: SystemStep) {
    match step
    case Spawn => y.context
    case Act(i, a) =>
      && i < |y.pipelines| && CanDo(y.pipelines[i], a)
      && (IsForwarderStep(a) ==> !y.runtimeShutDown)
    case ReleaseRuntime(i) =>
      i < |y.pipelines| && i < |y.holds| && y.holds[i] && y.pipelines[i].drop.Returned? && y.references > 0
    case DropContext => y.context && y.references > 0
  }

  function SystemDo(y: System, step: SystemStep): System
    requires SystemEnabled(y, step)
  {
    match step
    case Spawn =>
      y.(pipelines := y.pipelines + [SPAWNED], holds := y.holds + [true], references := y.references + 1)
    case Act(i, a) => y.(pipelines := y.pipelines[i := Do(y.pipelines[i], a)])
    case ReleaseRuntime(i) => GiveUp(y.(holds := y.holds[i := false]))
    case DropContext => GiveUp(y.(context := false))
  }

  function Holding(holds: seq<bool>): nat {
    if holds == [] then 0 else Holding(holds[..|holds| - 1]) + if holds[|holds| - 1] then 1 else 0
  }

  lemma {:induction false} HoldingRelease(holds: seq<bool>, i: nat)
    requires i < |holds| && holds[i]
    ensures Holding(holds) == Holding(holds[i := false]) + 1
  {
    var n := |holds| - 1;
    if i < n {
      HoldingRelease(holds[..n], i);
      assert holds[i := false][..n] == holds[..n][i := false];
    } else {
      assert holds[i := false][..n] == holds[..n];
    }
  }

  lemma {:induction false} HoldingNone(holds: seq<bool>, i: nat)
    requires Holding(holds) == 0 && i < |holds|
    ensures !holds[i]
  {
    if i < |holds| - 1 {
      HoldingNone(holds[..|holds| - 1], i);
    }
  }

  ghost predicate SystemInv(y: System) {
    && |y.holds| == |y.pipelines|
    && (forall i | 0 <= i < |y.pipelines| :: Inv(y.pipelines[i]))
    && (forall i | 0 <= i < |y.pipelines| && !y.holds[i] :: y.pipelines[i].drop.Returned?)
    && y.references == Holding(y.holds) + (if y.context then 1 else 0)
    && (y.runtimeShutDown <==> y.references == 0)
  }

  lemma ActKeepsInv(y: System, i: nat, a: Step)
    requires SystemInv(y) && SystemEnabled(y, Act(i, a))
    ensures SystemInv(SystemDo(y, Act(i, a)))
  {
    StepKeepsInv(y.pipelines[i], a);
    if !y.holds[i] {
      assert y.pipelines[i].drop.Returned?;
    }
  }

  lemma SystemStepKeepsInv(y: System, step: SystemStep)
    requires SystemInv(y) && SystemEnabled(y, step)
    ensures SystemInv(SystemDo(y, step))
  {
    var z := SystemDo(y, step);
    match step {
      case Spawn =>
        SpawnedInv();
        assert (y.holds + [true])[..|y.holds|] == y.holds;
      case Act(i, a) => ActKeepsInv(y, i, a);
      case ReleaseRuntime(i) => HoldingRelease(y.holds, i);
      case DropContext =>
    }
  }

  ghost predicate IsSystemExecution(systems: seq<System>) {
    && systems != [] && systems[0] == STARTED
    && forall i: nat | i + 1 < |systems| :: SystemFollows(systems, i)
  }

  ghost predicate SystemFollows(systems: seq<System>, i: nat)
    requires i + 1 < |systems|
  {
    exists step :: SystemEnabled(systems[i], step) && systems[i + 1] == SystemDo(systems[i], step)
  }

  lemma {:induction false} SystemReachableInv(systems: seq<System>, i: nat)
    requires IsSystemExecution(systems) && i < |systems|
    ensures SystemInv(systems[i])
  {
    if i > 0 {
      SystemReachableInv(systems, i - 1);
      assert SystemFollows(systems, i - 1);
      var step :| SystemEnabled(systems[i - 1], step) && systems[i] == SystemDo(systems[i - 1], step);
      SystemStepKeepsInv(systems[i - 1], step);
    }
  }

  /** The runtime is shut down by the last holder and only after every forwarder on
      it has delivered everything it was sent, shut its exporter down and been
      joined. */
  lemma RuntimeOutlivesForwarders(systems: seq<System>, i: nat, p: nat)
    requires IsSystemExecution(systems) && i < |systems| && p < |systems[i].pipelines|
    requires systems[i].runtimeShutDown
    ensures !systems[i].context
    ensures var s := systems[i].pipelines[p];
            s.drop.Returned? && s.forwarder == Done && s.shutdowns == 1 && Flatten(s.exported) == s.sent
  {
    SystemReachableInv(systems, i);
    HoldingNone(systems[i].holds, p);
    var s := systems[i].pipelines[p];
    assert Inv(s);
    assert Flatten(s.exported) + [] + [] == Flatten(s.exported);
  }

  /** Hence shutting the runtime down never strands a forwarder that has work left. */
  lemma NoForwarderStranded(systems: seq<System>, i: nat, p: nat, step: Step)
    requires IsSystemExecution(systems) && i < |systems| && p < |systems[i].pipelines|
    requires IsForwarderStep(step) && Enabled(systems[i].pipelines[p], step)
    ensures SystemEnabled(systems[i], Act(p, step))
  {
    if systems[i].runtimeShutDown {
      RuntimeOutlivesForwarders(systems, i, p);
    }
  }
}
