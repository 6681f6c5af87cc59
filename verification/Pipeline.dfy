/** The event pipeline of one observer: handles and senders feed an unbounded
    channel, a forwarder task hands batches to the exporter, and dropping the last
    owner cancels and joins the forwarder. One step is one action that other
    threads can observe. */
module Pipeline {
  type HandleId = nat

  /** An event as sent by a generated FSM handle, or by anything else. */
  datatype Event = FromHandle(id: HandleId, number: nat, exit: bool) | Foreign(payload: nat)

  /** A handle is live, has run its drop but still owns the pipeline, or is gone. */
  datatype Life = Live | Dropping | Gone

  datatype Handle = Handle(next: nat, exited: bool, life: Life)

  datatype Batch = Batch(events: seq<Event>, limit: nat)

  datatype Forwarder =
    | Selecting
    | Exporting(closing: bool, limit: nat)
    | Draining
    | ShuttingDown
    | Done

  /** The final owner's drop: not begun, begun, cancelled and joining, returned. */
  datatype Drop = Owned | Begun | Joining | Returned

  datatype State = State(
    queue: seq<Event>,
    closed: bool,
    observers: nat,
    handles: map<HandleId, Handle>,
    owners: nat,
    senders: nat,
    drop: Drop,
    forwarder: Forwarder,
    buffer: seq<Event>,
    exported: seq<Batch>,
    shutdowns: nat,
    sent: seq<Event>,
    rejected: seq<Event>,
    errorLogDisabled: bool,
    errorsLogged: nat)

  /** A pipeline as it is spawned: one owner, an empty channel. */
  const SPAWNED := State([], false, 1, map[], 1, 0, Owned, Selecting, [], [], 0, [], [], false, 0)

  datatype Step =
    | CloneObserver
    | DropObserver
    | CloneSender
    | DropSender
    | SendFromObserver(payload: nat)
    | SendFromSender(payload: nat)
    | NewHandle(id: HandleId)
    | Transition(id: HandleId)
    | Exit(id: HandleId)
    | BeginDropHandle(id: HandleId)
    | EndDropHandle(id: HandleId)
    | Cancel
    | Join
    | Receive(limit: nat, count: nat)
    | ReceiveNothing
    | SeeCancellation
    | DrainReceive(limit: nat, count: nat)
    | DrainNothing
    | Export
    | Shutdown

  // ---- Steps ----------------------------------------------------------------

  predicate HasHandle(s: State, id: HandleId, life: Life) {
    id in s.handles && s.handles[id].life == life
  }

  /** Channel senders: the one the owners share until their drop has returned, and
      the cloned ones. */
  predicate NoSenderLeft(s: State) {
    s.drop.Returned? && s.senders == 0
  }

  predicate CanReceive(s: State, limit: nat, count: nat) {
    0 < count <= limit && count <= |s.queue|
  }

  predicate Enabled(s: State, step: Step) {
    match step
    case CloneObserver => s.observers > 0
    case DropObserver => s.observers > 0
    case CloneSender => s.observers > 0 || s.senders > 0
    case DropSender => s.senders > 0
    case SendFromObserver(_) => s.observers > 0
    case SendFromSender(_) => s.senders > 0
    case NewHandle(id) => s.observers > 0 && id !in s.handles
    case Transition(id) => HasHandle(s, id, Live)
    case Exit(id) => HasHandle(s, id, Live)
    case BeginDropHandle(id) => HasHandle(s, id, Live)
    case EndDropHandle(id) => HasHandle(s, id, Dropping)
    case Cancel => s.drop == Begun
    case Join => s.drop == Joining && s.forwarder == Done
    case Receive(limit, count) => s.forwarder == Selecting && CanReceive(s, limit, count)
    case ReceiveNothing => s.forwarder == Selecting && s.queue == [] && (s.closed || NoSenderLeft(s))
    case SeeCancellation => s.forwarder == Selecting && Cancelled(s)
    case DrainReceive(limit, count) => s.forwarder == Draining && CanReceive(s, limit, count)
    case DrainNothing => s.forwarder == Draining && s.queue == []
    case Export => s.forwarder.Exporting?
    case Shutdown => s.forwarder == ShuttingDown
  }

  predicate Cancelled(s: State) {
    s.drop.Joining? || s.drop.Returned?
  }

  /** A send is accepted until the receiver closes; the first refused one is logged. */
  function Send(s: State, e: Event): State {
    if !s.closed then s.(queue := s.queue + [e], sent := s.sent + [e])
    else s.(rejected := s.rejected + [e],
            errorsLogged := if s.errorLogDisabled then s.errorsLogged else s.errorsLogged + 1,
            errorLogDisabled := true)
  }

  /** A registered handle that has not sent anything yet. */
  function Registered(s: State, id: HandleId): State {
    s.(handles := s.handles[id := Handle(0, false, Live)], owners := s.owners + 1)
  }

  /** Sends the handle's next event. */
  function EmitTransition(s: State, id: HandleId, exit: bool): State
    requires id in s.handles
  {
    var h := s.handles[id];
    var used := h.(next := h.next + 1, exited := h.exited || exit);
    Send(s, FromHandle(id, h.next, exit)).(handles := s.handles[id := used])
  }

  function EmitExit(s: State, id: HandleId): State
    requires id in s.handles
  {
    if s.handles[id].exited then s else EmitTransition(s, id, true)
  }

  /** Gives up one strong reference; the last one begins the drop. */
  function Release(s: State): State
    requires s.owners > 0
  {
    if s.owners == 1 then s.(owners := 0, drop := Begun)
    else s.(owners := s.owners - 1)
  }

  function TakeBatch(s: State, limit: nat, count: nat, closing: bool): State
    requires count <= |s.queue|
  {
    s.(buffer := s.queue[..count], queue := s.queue[count..], forwarder := Exporting(closing, limit))
  }

  /** An enabled step that gives up a reference has one to give up. */
  predicate CanDo(s: State, step: Step) {
    Enabled(s, step) && (step.DropObserver? || step.EndDropHandle? ==> s.owners > 0)
  }

  function Do(s: State, step: Step): State
    requires CanDo(s, step)
  {
    match step
    case CloneObserver => s.(observers := s.observers + 1, owners := s.owners + 1)
    case DropObserver => Release(s.(observers := s.observers - 1))
    case CloneSender => s.(senders := s.senders + 1)
    case DropSender => s.(senders := s.senders - 1)
    case SendFromObserver(payload) => Send(s, Foreign(payload))
    case SendFromSender(payload) => Send(s, Foreign(payload))
    case NewHandle(id) =>
      EmitTransition(Registered(s, id), id, false)
    case Transition(id) => EmitTransition(s, id, false)
    case Exit(id) => EmitExit(s, id)
    case BeginDropHandle(id) =>
      var t := EmitExit(s, id);
      t.(handles := t.handles[id := t.handles[id].(life := Dropping)])
    case EndDropHandle(id) => Release(s.(handles := s.handles[id := s.handles[id].(life := Gone)]))
    case Cancel => s.(drop := Joining)
    case Join => s.(drop := Returned)
    case Receive(limit, count) => TakeBatch(s, limit, count, false)
    case ReceiveNothing => s.(forwarder := ShuttingDown)
    case SeeCancellation => s.(closed := true, forwarder := Draining)
    case DrainReceive(limit, count) => TakeBatch(s, limit, count, true)
    case DrainNothing => s.(forwarder := ShuttingDown)
    case Export =>
      s.(exported := s.exported + [Batch(s.buffer, s.forwarder.limit)], buffer := [],
         forwarder := if s.forwarder.closing then Draining else Selecting)
    case Shutdown => s.(shutdowns := s.shutdowns + 1, forwarder := Done)
  }

  // ---- Sequences of events --------------------------------------------------

  function Flatten(batches: seq<Batch>): seq<Event> {
    if batches == [] then []
    else Flatten(batches[..|batches| - 1]) + batches[|batches| - 1].events
  }

  /** The events of one handle, in order. */
  function Of(events: seq<Event>, id: HandleId): (r: seq<Event>)
    ensures forall e | e in r :: e.FromHandle? && e.id == id
  {
    if events == [] then []
    else
      var last, rest := events[|events| - 1], Of(events[..|events| - 1], id);
      if last.FromHandle? && last.id == id then rest + [last] else rest
  }

  function Exits(events: seq<Event>): nat {
    if events == [] then 0
    else
      var last := events[|events| - 1];
      Exits(events[..|events| - 1]) + if last.FromHandle? && last.exit then 1 else 0
  }

  predicate EndsWithExit(events: seq<Event>) {
    events != [] && events[|events| - 1].FromHandle? && events[|events| - 1].exit
  }

  lemma OfSnoc(events: seq<Event>, e: Event, id: HandleId)
    ensures Of(events + [e], id) == if e.FromHandle? && e.id == id then Of(events, id) + [e] else Of(events, id)
  {
    assert (events + [e])[..|events|] == events;
  }

  lemma ExitsSnoc(events: seq<Event>, e: Event)
    ensures Exits(events + [e]) == Exits(events) + if e.FromHandle? && e.exit then 1 else 0
  {
    assert (events + [e])[..|events|] == events;
  }

  // ---- The invariant --------------------------------------------------------

  /** Every accepted event is in exactly one place, in channel order. */
  ghost predicate NothingLost(s: State) {
    s.sent == Flatten(s.exported) + s.buffer + s.queue
  }

  ghost predicate BatchesBounded(s: State) {
    && (forall b | b in s.exported :: 0 < |b.events| <= b.limit)
    && (s.forwarder.Exporting? ==> 0 < |s.buffer| <= s.forwarder.limit)
    && (!s.forwarder.Exporting? ==> s.buffer == [])
  }

  /** How far the forwarder can be, given how far the drop is. */
  ghost predicate Phased(s: State) {
    && (s.closed <==> s.forwarder in {Draining, ShuttingDown, Done} || (s.forwarder.Exporting? && s.forwarder.closing))
    && (s.closed ==> Cancelled(s))
    && (s.forwarder in {ShuttingDown, Done} ==> s.queue == [])
    && (s.drop.Returned? ==> s.forwarder == Done)
    && s.shutdowns == (if s.forwarder == Done then 1 else 0)
    && (s.drop.Owned? <==> s.owners > 0)
  }

  ghost function LiveHandles(s: State): set<HandleId> {
    set id | id in s.handles && s.handles[id].life != Gone
  }

  ghost predicate Counted(s: State) {
    s.owners == s.observers + |LiveHandles(s)|
  }

  /** What a handle has had accepted: consecutive numbers from zero, and an exit
      exactly if it has exited, which it has once its drop has begun. */
  ghost predicate HandleInOrder(s: State, id: HandleId) {
    var mine := Of(s.sent, id);
    && (id in s.handles ==>
          && |mine| == s.handles[id].next
          && Exits(mine) == (if s.handles[id].exited then 1 else 0)
          && (s.handles[id].life != Live ==> s.handles[id].exited))
    && (id !in s.handles ==> mine == [])
    && (forall k | 0 <= k < |mine| :: mine[k].number == k)
  }

  /** Only cloned senders can be refused, and at most one refusal is logged. */
  ghost predicate Refusals(s: State) {
    && (forall e | e in s.rejected :: e.Foreign?)
    && (s.rejected != [] ==> s.closed)
    && s.errorsLogged == (if s.rejected == [] then 0 else 1)
    && (s.errorLogDisabled <==> s.rejected != [])
  }

  ghost predicate Inv(s: State) {
    && NothingLost(s) && BatchesBounded(s) && Phased(s) && Counted(s) && Refusals(s)
    && forall id :: HandleInOrder(s, id)
  }

  lemma SpawnedInv()
    ensures Inv(SPAWNED)
  {}

  // ---- Every step keeps the invariant ---------------------------------------

  lemma SendKeeps(s: State, e: Event)
    requires NothingLost(s) && BatchesBounded(s) && Phased(s) && Refusals(s)
    requires s.closed ==> e.Foreign?
    ensures var t := Send(s, e);
            NothingLost(t) && BatchesBounded(t) && Phased(t) && Refusals(t) && LiveHandles(t) == LiveHandles(s)
  {
    var t := Send(s, e);
    if !s.closed {
      assert Flatten(s.exported) + s.buffer + (s.queue + [e]) == s.sent + [e];
    }
  }

  /** A foreign event changes nothing for any handle. */
  lemma ForeignKeeps(s: State, payload: nat)
    requires Inv(s)
    ensures Inv(Send(s, Foreign(payload)))
  {
    SendKeeps(s, Foreign(payload));
    forall id ensures HandleInOrder(Send(s, Foreign(payload)), id) {
      OfSnoc(s.sent, Foreign(payload), id);
      assert HandleInOrder(s, id);
    }
  }

  lemma OpenWhileOwned(s: State)
    requires Phased(s) && s.owners > 0
    ensures !s.closed
  {}

  lemma LiveHandleOwns(s: State, id: HandleId)
    requires Counted(s) && id in s.handles && s.handles[id].life != Gone
    ensures s.owners > 0
  {
    assert id in LiveHandles(s);
  }

  /** Emitting through a handle that owns the pipeline. */
  lemma EmitKeeps(s: State, id: HandleId, exit: bool)
    requires Inv(s) && HasHandle(s, id, Live) && (exit ==> !s.handles[id].exited)
    ensures Inv(EmitTransition(s, id, exit))
  {
    LiveHandleOwns(s, id);
    OpenWhileOwned(s);
    var e := FromHandle(id, s.handles[id].next, exit);
    var t := EmitTransition(s, id, exit);
    SendKeeps(s, e);
    assert LiveHandles(t) == LiveHandles(s);
    assert t.sent == s.sent + [e];
    forall other ensures HandleInOrder(t, other) {
      assert HandleInOrder(s, other);
      OfSnoc(s.sent, e, other);
      ExitsSnoc(Of(s.sent, other), e);
    }
  }

  lemma ExitKeeps(s: State, id: HandleId)
    requires Inv(s) && HasHandle(s, id, Live)
    ensures Inv(EmitExit(s, id)) && HasHandle(EmitExit(s, id), id, Live) && EmitExit(s, id).handles[id].exited
  {
    if !s.handles[id].exited {
      EmitKeeps(s, id, true);
    }
  }

  /** `s` but for the number of owners, which counts one reference too many. */
  ghost predicate AboutToRelease(s: State) {
    && NothingLost(s) && BatchesBounded(s) && Phased(s) && Refusals(s)
    && (forall id :: HandleInOrder(s, id))
    && s.owners == s.observers + |LiveHandles(s)| + 1
  }

  lemma ReleaseKeeps(s: State)
    requires AboutToRelease(s)
    ensures Inv(Release(s))
  {
    var t := Release(s);
    OpenWhileOwned(s);
    assert LiveHandles(t) == LiveHandles(s);
    forall id ensures HandleInOrder(t, id) { assert HandleInOrder(s, id); }
  }

  lemma RegisteredInOrder(s: State, id: HandleId)
    requires id !in s.handles && forall other :: HandleInOrder(s, other)
    ensures forall other :: HandleInOrder(Registered(s, id), other)
  {
    forall other ensures HandleInOrder(Registered(s, id), other) { assert HandleInOrder(s, other); }
  }

  lemma RegisteredCounted(s: State, id: HandleId)
    requires id !in s.handles && Counted(s)
    ensures Counted(Registered(s, id))
  {
    assert LiveHandles(Registered(s, id)) == LiveHandles(s) + {id};
  }

  lemma NewHandleKeeps(s: State, id: HandleId)
    requires Inv(s) && Enabled(s, NewHandle(id))
    ensures Inv(Do(s, NewHandle(id)))
  {
    RegisteredInOrder(s, id);
    RegisteredCounted(s, id);
    EmitKeeps(Registered(s, id), id, false);
  }

  lemma BeginDropKeeps(s: State, id: HandleId)
    requires Inv(s) && Enabled(s, BeginDropHandle(id))
    ensures Inv(Do(s, BeginDropHandle(id)))
  {
    ExitKeeps(s, id);
    var t, u := EmitExit(s, id), Do(s, BeginDropHandle(id));
    assert LiveHandles(u) == LiveHandles(t);
    forall other ensures HandleInOrder(u, other) { assert HandleInOrder(t, other); }
  }

  lemma EndDropKeeps(s: State, id: HandleId)
    requires Inv(s) && Enabled(s, EndDropHandle(id))
    ensures s.owners > 0 && Inv(Do(s, EndDropHandle(id)))
  {
    LiveHandleOwns(s, id);
    var t := s.(handles := s.handles[id := s.handles[id].(life := Gone)]);
    assert LiveHandles(s) == LiveHandles(t) + {id};
    forall other ensures HandleInOrder(t, other) { assert HandleInOrder(s, other); }
    ReleaseKeeps(t);
  }

  lemma DropObserverKeeps(s: State)
    requires Inv(s) && Enabled(s, DropObserver)
    ensures s.owners > 0 && Inv(Do(s, DropObserver))
  {
    var t := s.(observers := s.observers - 1);
    assert LiveHandles(s) == LiveHandles(t);
    forall id ensures HandleInOrder(t, id) { assert HandleInOrder(s, id); }
    ReleaseKeeps(t);
  }

  /** The steps of the forwarder and of the drop leave handles, owners and what was
      sent alone. */
  ghost predicate SameClients(s: State, t: State) {
    && t.handles == s.handles && t.owners == s.owners && t.observers == s.observers
    && t.sent == s.sent && t.rejected == s.rejected && (s.closed ==> t.closed)
    && t.errorsLogged == s.errorsLogged && t.errorLogDisabled == s.errorLogDisabled
  }

  lemma SameClientsKeep(s: State, t: State)
    requires Inv(s) && SameClients(s, t)
    ensures Counted(t) && Refusals(t) && forall id :: HandleInOrder(t, id)
  {
    assert LiveHandles(t) == LiveHandles(s);
    forall id ensures HandleInOrder(t, id) { assert HandleInOrder(s, id); }
  }

  predicate IsForwarderStep(step: Step) {
    step.Receive? || step.ReceiveNothing? || step.SeeCancellation? || step.DrainReceive? || step.DrainNothing?
    || step.Export? || step.Shutdown?
  }

  lemma ForwarderKeeps(s: State, step: Step)
    requires Inv(s) && Enabled(s, step) && (IsForwarderStep(step) || step.Cancel? || step.Join?)
    ensures Inv(Do(s, step))
  {
    var t := Do(s, step);
    SameClientsKeep(s, t);
    match step {
      case Receive(limit, count) => BatchTaken(s, limit, count, false);
      case DrainReceive(limit, count) => BatchTaken(s, limit, count, true);
      case Export => BatchExported(s);
      case _ =>
    }
  }

  lemma BatchExported(s: State)
    requires Inv(s) && s.forwarder.Exporting?
    ensures NothingLost(Do(s, Export)) && BatchesBounded(Do(s, Export))
  {
    FlattenSnoc(s.exported, Batch(s.buffer, s.forwarder.limit));
    EmptyBetween(Flatten(s.exported) + s.buffer, s.queue);
  }

  lemma FlattenSnoc(batches: seq<Batch>, b: Batch)
    ensures Flatten(batches + [b]) == Flatten(batches) + b.events
  {
    assert (batches + [b])[..|batches|] == batches;
  }

  lemma EmptyBetween(a: seq<Event>, b: seq<Event>)
    ensures a + [] + b == a + b
  {}

  lemma BatchTaken(s: State, limit: nat, count: nat, closing: bool)
    requires NothingLost(s) && s.buffer == [] && count <= |s.queue|
    ensures NothingLost(TakeBatch(s, limit, count, closing))
  {
    assert s.queue == s.queue[..count] + s.queue[count..];
    assert Flatten(s.exported) + [] + s.queue == Flatten(s.exported) + s.queue[..count] + s.queue[count..];
  }

  /** Every enabled step is possible and keeps the invariant. */
  lemma StepKeepsInv(s: State, step: Step)
    requires Inv(s) && Enabled(s, step)
    ensures CanDo(s, step) && Inv(Do(s, step))
  {
    match step {
      case CloneObserver => PlainKeeps(s, step);
      case CloneSender => PlainKeeps(s, step);
      case DropSender => PlainKeeps(s, step);
      case DropObserver => DropObserverKeeps(s);
      case SendFromObserver(payload) => ForeignKeeps(s, payload);
      case SendFromSender(payload) => ForeignKeeps(s, payload);
      case NewHandle(id) => NewHandleKeeps(s, id);
      case Transition(id) => EmitKeeps(s, id, false);
      case Exit(id) => ExitKeeps(s, id);
      case BeginDropHandle(id) => BeginDropKeeps(s, id);
      case EndDropHandle(id) => EndDropKeeps(s, id);
      case _ => ForwarderKeeps(s, step);
    }
  }

  lemma PlainKeeps(s: State, step: Step)
    requires Inv(s) && Enabled(s, step) && (step.CloneObserver? || step.CloneSender? || step.DropSender?)
    ensures Inv(Do(s, step))
  {
    var t := Do(s, step);
    assert LiveHandles(t) == LiveHandles(s);
    forall id ensures HandleInOrder(t, id) { assert HandleInOrder(s, id); }
  }
}
