/** What a pipeline's state says of the calls made so far: every state of a run is
    determined by the steps that led to it, and nothing sent is lost on the way. */
module PipelineHistory {
  import opened Pipeline
  import opened PipelineRuns

  /** `steps[i]` is possible in state `i` and leads to the next. */
  ghost predicate Leads(states: seq<State>, steps: seq<Step>, i: nat)
    requires i < |steps| && i + 1 < |states|
  {
    CanDo(states[i], steps[i]) && states[i + 1] == Do(states[i], steps[i])
  }

  ghost predicate IsRun(states: seq<State>, steps: seq<Step>) {
    && |states| == |steps| + 1 && states[0] == SPAWNED
    && forall i: nat | i < |steps| :: Leads(states, steps, i)
  }

  lemma {:induction false} RunIsExecution(states: seq<State>, steps: seq<Step>)
    requires IsRun(states, steps)
    ensures IsExecution(states)
  {
    forall i: nat | i + 1 < |states| ensures Follows(states, i) {
      assert Leads(states, steps, i);
    }
  }

  /** Every execution has its steps. */
  lemma {:induction false} StepsOfExecution(states: seq<State>) returns (steps: seq<Step>)
    requires IsExecution(states)
    ensures IsRun(states, steps)
    decreases |states|
  {
    var n := |states| - 1;
    if n == 0 {
      return [];
    }
    var step := StepTaken(states, n - 1);
    forall i: nat | i + 1 < n ensures Follows(states[..n], i) {
      assert Follows(states, i);
    }
    var before := StepsOfExecution(states[..n]);
    steps := before + [step];
    forall i: nat | i < |steps| ensures Leads(states, steps, i) {
      if i < |before| { assert Leads(states[..n], before, i); }
    }
  }

  // ---- One send -------------------------------------------------------------

  /** What an observer sends is accepted, last in the channel; once the final drop has
      returned it has been handed over, in its place. */
  lemma {:induction false} ObserverSendDelivered(states: seq<State>, i: nat, j: nat, payload: nat)
    requires IsExecution(states) && i < j < |states|
    requires CanDo(states[i], SendFromObserver(payload)) && states[i + 1] == Do(states[i], SendFromObserver(payload))
    ensures states[i + 1].sent == states[i].sent + [Foreign(payload)]
    ensures states[i + 1].queue == states[i].queue + [Foreign(payload)]
    ensures states[j].drop.Returned? ==>
              var place := |states[i].sent|;
              place < |Flatten(states[j].exported)| && Flatten(states[j].exported)[place] == Foreign(payload)
  {
    ReachableInv(states, i);
    ObserversOwn(states[i]);
    OpenWhileOwned(states[i]);
    if states[j].drop.Returned? {
      DropDelivers(states, i + 1, j);
    }
  }

  lemma {:induction false} ObserversOwn(s: State)
    requires Counted(s) && s.observers > 0
    ensures s.owners > 0
  {}

  /** What a cloned sender sends is accepted and delivered likewise as long as the
      receiver is open; afterwards exactly that event is refused, and the first
      refusal is logged. */
  lemma {:induction false} SenderSendDelivered(states: seq<State>, i: nat, j: nat, payload: nat)
    requires IsExecution(states) && i < j < |states|
    requires CanDo(states[i], SendFromSender(payload)) && states[i + 1] == Do(states[i], SendFromSender(payload))
    ensures !states[i].closed ==>
              && states[i + 1].sent == states[i].sent + [Foreign(payload)]
              && states[i + 1].queue == states[i].queue + [Foreign(payload)]
              && states[i + 1].rejected == states[i].rejected
    ensures !states[i].closed && states[j].drop.Returned? ==>
              var place := |states[i].sent|;
              place < |Flatten(states[j].exported)| && Flatten(states[j].exported)[place] == Foreign(payload)
    ensures states[i].closed ==>
              && states[i + 1].sent == states[i].sent && states[i + 1].queue == states[i].queue
              && states[i + 1].rejected == states[i].rejected + [Foreign(payload)]
              && states[i + 1].errorsLogged == 1
  {
    ReachableInv(states, i);
    ReachableInv(states, i + 1);
    if states[j].drop.Returned? {
      DropDelivers(states, i + 1, j);
    }
  }

  // ---- What the steps alone tell --------------------------------------------

  /** How often a step was taken. */
  function Times(steps: seq<Step>, step: Step): nat {
    multiset(steps)[step]
  }

  predicate Did(steps: seq<Step>, step: Step) {
    Times(steps, step) > 0
  }

  lemma TimesNext(steps: seq<Step>, step: Step, x: Step)
    ensures Times(steps + [step], x) == Times(steps, x) + if x == step then 1 else 0
  {
    assert multiset(steps + [step]) == multiset(steps) + multiset{step};
  }

  predicate HasExited(steps: seq<Step>, id: HandleId) {
    Did(steps, Exit(id)) || Did(steps, BeginDropHandle(id))
  }

  /** The event a step adds to what the steps before it have sent. */
  function SaidBy(before: seq<Event>, exited: bool, step: Step): (r: seq<Event>)
    ensures |r| <= 1
  {
    match step
    case SendFromObserver(payload) => [Foreign(payload)]
    case SendFromSender(payload) => [Foreign(payload)]
    case NewHandle(id) => [FromHandle(id, 0, false)]
    case Transition(id) => [FromHandle(id, |Of(before, id)|, false)]
    case Exit(id) => if exited then [] else [FromHandle(id, |Of(before, id)|, true)]
    case BeginDropHandle(id) => if exited then [] else [FromHandle(id, |Of(before, id)|, true)]
    case _ => []
  }

  predicate HandleExited(steps: seq<Step>, step: Step) {
    (step.Exit? || step.BeginDropHandle?) && HasExited(steps, step.id)
  }

  /** All that was sent, in order: foreign events as they were passed in, and those of
      a handle numbered by how many it has sent, with one exit. */
  function Said(steps: seq<Step>): seq<Event> {
    if steps == [] then []
    else
      var before, last := steps[..|steps| - 1], steps[|steps| - 1];
      Said(before) + SaidBy(Said(before), HandleExited(before, last), last)
  }

  /** The steps before the forwarder closed the channel. */
  function WhileOpen(steps: seq<Step>): seq<Step> {
    if steps == [] then []
    else
      var before, last := steps[..|steps| - 1], steps[|steps| - 1];
      if Did(before, SeeCancellation) then WhileOpen(before) else steps
  }

  lemma {:induction false} SaidNext(steps: seq<Step>, step: Step)
    ensures Said(steps + [step]) == Said(steps) + SaidBy(Said(steps), HandleExited(steps, step), step)
  {
    assert (steps + [step])[..|steps|] == steps;
  }

  /** The limit and the size of the batch a step receives, if it does. */
  function BatchOf(step: Step): seq<(nat, nat)> {
    match step
    case Receive(limit, count) => [(limit, count)]
    case DrainReceive(limit, count) => [(limit, count)]
    case _ => []
  }

  function Received(steps: seq<Step>): seq<(nat, nat)> {
    if steps == [] then [] else Received(steps[..|steps| - 1]) + BatchOf(steps[|steps| - 1])
  }

  // ---- The state is what the steps tell -------------------------------------

  ghost predicate CallersMatch(s: State, steps: seq<Step>) {
    && s.observers + Times(steps, DropObserver) == 1 + Times(steps, CloneObserver)
    && s.senders + Times(steps, DropSender) == Times(steps, CloneSender)
    && (s.closed <==> Did(steps, SeeCancellation))
    && (Cancelled(s) <==> Did(steps, Cancel))
    && (s.drop.Returned? <==> Did(steps, Join))
    && s.shutdowns == Times(steps, Shutdown)
  }

  /** A handle as the steps tell it. */
  ghost function HandleOf(steps: seq<Step>, id: HandleId): Handle {
    Handle(|Of(Said(steps), id)|, HasExited(steps, id), LifeOf(steps, id))
  }

  ghost function LifeOf(steps: seq<Step>, id: HandleId): Life {
    if Did(steps, EndDropHandle(id)) then Gone else if Did(steps, BeginDropHandle(id)) then Dropping else Live
  }

  ghost predicate HandleMatches(s: State, steps: seq<Step>, id: HandleId) {
    && (id in s.handles <==> Did(steps, NewHandle(id)))
    && (Did(steps, BeginDropHandle(id)) ==> Did(steps, NewHandle(id)))
    && (Did(steps, EndDropHandle(id)) ==> Did(steps, BeginDropHandle(id)))
    && (id in s.handles ==> s.handles[id] == HandleOf(steps, id))
    && (id !in s.handles ==> Of(Said(steps), id) == [] && !HasExited(steps, id))
  }

  ghost predicate EventsMatch(s: State, steps: seq<Step>) {
    && Said(steps) == s.sent + s.rejected
    && s.sent == Said(WhileOpen(steps))
  }

  function Sizes(batches: seq<Batch>): seq<(nat, nat)> {
    seq(|batches|, k requires 0 <= k < |batches| => (batches[k].limit, |batches[k].events|))
  }

  /** The batch the forwarder is exporting. */
  function UnderWay(s: State): seq<(nat, nat)> {
    if s.forwarder.Exporting? then [(s.forwarder.limit, |s.buffer|)] else []
  }

  /** Batches were handed over as they were received. */
  ghost predicate BatchesMatch(s: State, steps: seq<Step>) {
    |s.exported| == Times(steps, Export) && Sizes(s.exported) + UnderWay(s) == Received(steps)
  }

  /** What one step does to the counts, and to the phases. */
  lemma ObserversAfter(s: State, step: Step)
    requires CanDo(s, step)
    ensures Do(s, step).observers ==
            s.observers + (if step == CloneObserver then 1 else if step == DropObserver then -1 else 0)
  {}

  lemma SendersAfter(s: State, step: Step)
    requires CanDo(s, step)
    ensures Do(s, step).senders ==
            s.senders + (if step == CloneSender then 1 else if step == DropSender then -1 else 0)
    ensures Do(s, step).shutdowns == s.shutdowns + (if step == Shutdown then 1 else 0)
  {}

  lemma {:induction false} PhasesAfter(s: State, step: Step)
    requires Phased(s) && CanDo(s, step)
    ensures var t := Do(s, step);
            && (t.closed <==> s.closed || step == SeeCancellation)
            && (Cancelled(t) <==> Cancelled(s) || step == Cancel)
            && (t.drop.Returned? <==> s.drop.Returned? || step == Join)
  {}

  lemma {:induction false} CallersNext(s: State, steps: seq<Step>, step: Step)
    requires Inv(s) && CallersMatch(s, steps) && CanDo(s, step)
    ensures CallersMatch(Do(s, step), steps + [step])
  {
    ObserversAfter(s, step);
    SendersAfter(s, step);
    PhasesAfter(s, step);
    TimesNext(steps, step, CloneObserver);
    TimesNext(steps, step, DropObserver);
    TimesNext(steps, step, CloneSender);
    TimesNext(steps, step, DropSender);
    TimesNext(steps, step, SeeCancellation);
    TimesNext(steps, step, Cancel);
    TimesNext(steps, step, Join);
    TimesNext(steps, step, Shutdown);
  }

  /** The step is one of the handle's. */
  predicate IsOf(step: Step, id: HandleId) {
    (step.NewHandle? || step.Transition? || step.Exit? || step.BeginDropHandle? || step.EndDropHandle?) && step.id == id
  }

  lemma {:induction false} HandleSteps(steps: seq<Step>, step: Step, id: HandleId)
    ensures var next := steps + [step];
            && (Did(next, NewHandle(id)) <==> Did(steps, NewHandle(id)) || step == NewHandle(id))
            && (Did(next, BeginDropHandle(id)) <==> Did(steps, BeginDropHandle(id)) || step == BeginDropHandle(id))
            && (Did(next, EndDropHandle(id)) <==> Did(steps, EndDropHandle(id)) || step == EndDropHandle(id))
            && (HasExited(next, id) <==> HasExited(steps, id) || step == Exit(id) || step == BeginDropHandle(id))
  {
    TimesNext(steps, step, NewHandle(id));
    TimesNext(steps, step, Exit(id));
    TimesNext(steps, step, BeginDropHandle(id));
    TimesNext(steps, step, EndDropHandle(id));
  }

  /** How many events a handle has sent after one more step. */
  lemma {:induction false} SaidOfNext(steps: seq<Step>, step: Step, id: HandleId)
    ensures !IsOf(step, id) ==> Of(Said(steps + [step]), id) == Of(Said(steps), id)
    ensures var silent := step.EndDropHandle? || ((step.Exit? || step.BeginDropHandle?) && HasExited(steps, id));
            IsOf(step, id) ==>
              |Of(Said(steps + [step]), id)| == |Of(Said(steps), id)| + if silent then 0 else 1
  {
    SaidNext(steps, step);
    SaidByOf(Said(steps), HandleExited(steps, step), step, id);
    OfAppend(Said(steps), SaidBy(Said(steps), HandleExited(steps, step), step), id);
  }

  lemma SaidByOf(before: seq<Event>, exited: bool, step: Step, id: HandleId)
    ensures var said := SaidBy(before, exited, step);
            var silent := step.EndDropHandle? || ((step.Exit? || step.BeginDropHandle?) && exited);
            (said != [] && said[0].FromHandle? && said[0].id == id) <==> IsOf(step, id) && !silent
  {}

  lemma {:induction false} OfAppend(events: seq<Event>, said: seq<Event>, id: HandleId)
    requires |said| <= 1
    ensures Of(events + said, id) ==
            if said != [] && said[0].FromHandle? && said[0].id == id then Of(events, id) + said else Of(events, id)
  {
    if said != [] {
      assert said == [said[0]];
      OfSnoc(events, said[0], id);
    } else {
      assert events + said == events;
    }
  }

  lemma {:induction false} StepsOfOthers(s: State, step: Step, id: HandleId)
    requires CanDo(s, step) && !IsOf(step, id)
    ensures id in s.handles <==> id in Do(s, step).handles
    ensures id in s.handles ==> Do(s, step).handles[id] == s.handles[id]
  {}

  /** What one of its steps makes of a handle. */
  function HandleAfter(h: Handle, step: Step): Handle {
    match step
    case NewHandle(_) => Handle(1, false, Live)
    case Transition(_) => h.(next := h.next + 1)
    case Exit(_) => if h.exited then h else h.(next := h.next + 1, exited := true)
    case BeginDropHandle(_) =>
      Handle(if h.exited then h.next else h.next + 1, true, Dropping)
    case EndDropHandle(_) => h.(life := Gone)
    case _ => h
  }

  lemma {:induction false} StepsOfOwn(s: State, step: Step, id: HandleId)
    requires CanDo(s, step) && IsOf(step, id)
    ensures id in Do(s, step).handles && (id in s.handles <==> !step.NewHandle?)
    ensures var h := if id in s.handles then s.handles[id] else Handle(0, false, Live);
            Do(s, step).handles[id] == HandleAfter(h, step)
    ensures step.EndDropHandle? ==> s.handles[id].life == Dropping
    ensures step.Transition? || step.Exit? || step.BeginDropHandle? ==> s.handles[id].life == Live
  {}

  lemma {:induction false} HandleOfNext(steps: seq<Step>, step: Step, id: HandleId)
    requires IsOf(step, id)
    requires HandleOf(steps, id).life == if step.EndDropHandle? then Dropping else Live
    requires step.NewHandle? ==> Of(Said(steps), id) == [] && !HasExited(steps, id)
    ensures HandleOf(steps + [step], id) == HandleAfter(HandleOf(steps, id), step)
  {
    SaidOfNext(steps, step, id);
    HandleSteps(steps, step, id);
  }

  lemma {:induction false} HandleNext(s: State, steps: seq<Step>, step: Step, id: HandleId)
    requires HandleMatches(s, steps, id) && CanDo(s, step)
    ensures HandleMatches(Do(s, step), steps + [step], id)
  {
    HandleSteps(steps, step, id);
    if IsOf(step, id) {
      StepsOfOwn(s, step, id);
      HandleOfNext(steps, step, id);
    } else {
      SaidOfNext(steps, step, id);
      StepsOfOthers(s, step, id);
    }
  }

  lemma {:induction false} WhileOpenNext(steps: seq<Step>, step: Step)
    ensures WhileOpen(steps + [step]) == if Did(steps, SeeCancellation) then WhileOpen(steps) else steps + [step]
  {
    assert (steps + [step])[..|steps|] == steps;
  }

  lemma {:induction false} OpenSoFar(steps: seq<Step>)
    requires !Did(steps, SeeCancellation)
    ensures WhileOpen(steps) == steps
  {}

  /** Whether and from which number on the handle of a step, if it is of one, sends. */
  ghost function SenderOf(s: State, step: Step): Handle
    requires CanDo(s, step)
  {
    if step.Transition? || step.Exit? || step.BeginDropHandle? then s.handles[step.id] else Handle(0, false, Live)
  }

  /** The channel takes what is sent until the receiver closes. */
  ghost predicate Sends(s: State, t: State, said: seq<Event>) {
    if s.closed then t.sent == s.sent && t.rejected == s.rejected + said
    else t.sent == s.sent + said && t.rejected == s.rejected
  }

  /** A step sends what a handle that is as far along as its own says. */
  lemma SendsAfter(s: State, step: Step, before: seq<Event>, exited: bool)
    requires CanDo(s, step)
    requires step.Transition? || step.Exit? || step.BeginDropHandle? ==>
               |Of(before, step.id)| == SenderOf(s, step).next
    requires step.Exit? || step.BeginDropHandle? ==> exited == SenderOf(s, step).exited
    ensures Sends(s, Do(s, step), SaidBy(before, exited, step))
  {}

  ghost predicate SenderMatches(s: State, steps: seq<Step>, id: HandleId) {
    && id in s.handles && s.handles[id].next == |Of(Said(steps), id)|
    && (s.handles[id].exited <==> HasExited(steps, id))
  }

  lemma {:induction false} SenderOfMatches(s: State, steps: seq<Step>, id: HandleId)
    requires HandleMatches(s, steps, id) && id in s.handles
    ensures SenderMatches(s, steps, id)
  {}

  /** What a step says is what it sends. */
  lemma {:induction false} SaysWhatItSends(s: State, steps: seq<Step>, step: Step)
    requires CanDo(s, step)
    requires step.Transition? || step.Exit? || step.BeginDropHandle? ==> SenderMatches(s, steps, step.id)
    ensures Sends(s, Do(s, step), SaidBy(Said(steps), HandleExited(steps, step), step))
  {
    SendsAfter(s, step, Said(steps), HandleExited(steps, step));
  }

  /** What is said is accepted or refused. */
  lemma {:induction false} AllSaidNext(s: State, t: State, steps: seq<Step>, step: Step, said: seq<Event>)
    requires Said(steps) == s.sent + s.rejected && (s.rejected != [] ==> s.closed)
    requires Sends(s, t, said) && said == SaidBy(Said(steps), HandleExited(steps, step), step)
    ensures Said(steps + [step]) == t.sent + t.rejected
  {
    SaidNext(steps, step);
    SentOrRejected(s, t, Said(steps), said);
  }

  lemma SentOrRejected(s: State, t: State, before: seq<Event>, said: seq<Event>)
    requires before == s.sent + s.rejected && (s.rejected != [] ==> s.closed) && Sends(s, t, said)
    ensures before + said == t.sent + t.rejected
  {
    if s.closed {
      assert (s.sent + s.rejected) + said == s.sent + (s.rejected + said);
    } else {
      assert (s.sent + []) + said == s.sent + said + [];
    }
  }

  /** What is said is accepted as long as the channel is open. */
  lemma {:induction false} AcceptedNext(s: State, t: State, steps: seq<Step>, step: Step, said: seq<Event>)
    requires Said(steps) == s.sent + s.rejected && (s.rejected != [] ==> s.closed)
    requires s.sent == Said(WhileOpen(steps)) && (s.closed <==> Did(steps, SeeCancellation))
    requires Sends(s, t, said) && said == SaidBy(Said(steps), HandleExited(steps, step), step)
    ensures t.sent == Said(WhileOpen(steps + [step]))
  {
    WhileOpenNext(steps, step);
    if !s.closed {
      SaidNext(steps, step);
      assert s.sent + [] == s.sent;
    }
  }

  lemma {:induction false} ReceivedNext(steps: seq<Step>, step: Step)
    ensures Received(steps + [step]) == Received(steps) + BatchOf(step)
  {
    assert (steps + [step])[..|steps|] == steps;
  }

  /** How one step moves batches. */
  ghost predicate MovesBatches(s: State, t: State, step: Step) {
    if step == Export then
      UnderWay(t) == [] && |t.exported| == |s.exported| + 1 && Sizes(t.exported) == Sizes(s.exported) + UnderWay(s)
    else t.exported == s.exported && UnderWay(t) == UnderWay(s) + BatchOf(step)
  }

  lemma StepMovesBatches(s: State, step: Step)
    requires CanDo(s, step)
    ensures MovesBatches(s, Do(s, step), step)
  {
    if step == Export {
      assert Sizes(Do(s, step).exported) == Sizes(s.exported) + UnderWay(s);
    }
  }

  lemma {:induction false} BatchesNext(s: State, t: State, steps: seq<Step>, step: Step)
    requires MovesBatches(s, t, step) && BatchesMatch(s, steps)
    ensures BatchesMatch(t, steps + [step])
  {
    TimesNext(steps, step, Export);
    ReceivedNext(steps, step);
    BatchesJoin(s, t, step, Received(steps));
  }

  lemma BatchesJoin(s: State, t: State, step: Step, received: seq<(nat, nat)>)
    requires MovesBatches(s, t, step) && Sizes(s.exported) + UnderWay(s) == received
    ensures Sizes(t.exported) + UnderWay(t) == received + BatchOf(step)
  {
    if step != Export {
      assert Sizes(s.exported) + (UnderWay(s) + BatchOf(step)) == Sizes(s.exported) + UnderWay(s) + BatchOf(step);
    }
  }

  // ---- Every run ------------------------------------------------------------

  lemma InvOfRun(states: seq<State>, steps: seq<Step>, i: nat)
    requires IsRun(states, steps) && i < |steps|
    ensures Inv(states[i]) && Leads(states, steps, i) && steps[..i + 1] == steps[..i] + [steps[i]]
  {
    RunIsExecution(states, steps);
    ReachableInv(states, i);
  }

  /** Who is left, and how far the drop, the channel and the exporter are. */
  lemma {:induction false} CallersHistory(states: seq<State>, steps: seq<Step>, i: nat)
    requires IsRun(states, steps) && i <= |steps|
    ensures CallersMatch(states[i], steps[..i])
  {
    if i > 0 {
      CallersHistory(states, steps, i - 1);
      InvOfRun(states, steps, i - 1);
      CallersNext(states[i - 1], steps[..i - 1], steps[i - 1]);
    }
  }

  /** How far each handle is, and how many events it has sent. */
  lemma {:induction false} HandleHistory(states: seq<State>, steps: seq<Step>, i: nat, id: HandleId)
    requires IsRun(states, steps) && i <= |steps|
    ensures HandleMatches(states[i], steps[..i], id)
  {
    if i > 0 {
      HandleHistory(states, steps, i - 1, id);
      InvOfRun(states, steps, i - 1);
      HandleNext(states[i - 1], steps[..i - 1], steps[i - 1], id);
    }
  }

  /** Everything said is accepted, in order, until the receiver closes, and refused
      afterwards. */
  lemma {:induction false} EventsHistory(states: seq<State>, steps: seq<Step>, i: nat)
    requires IsRun(states, steps) && i <= |steps|
    ensures EventsMatch(states[i], steps[..i])
  {
    if i > 0 {
      EventsHistory(states, steps, i - 1);
      EventsStep(states, steps, i - 1);
    }
  }

  lemma {:induction false} EventsStep(states: seq<State>, steps: seq<Step>, i: nat)
    requires IsRun(states, steps) && i < |steps| && EventsMatch(states[i], steps[..i])
    ensures EventsMatch(states[i + 1], steps[..i + 1])
  {
    var s, t, before, step := states[i], states[i + 1], steps[..i], steps[i];
    InvOfRun(states, steps, i);
    CallersHistory(states, steps, i);
    if step.Transition? || step.Exit? || step.BeginDropHandle? {
      HandleHistory(states, steps, i, step.id);
      SenderOfMatches(s, before, step.id);
    }
    SaysWhatItSends(s, before, step);
    var said := SaidBy(Said(before), HandleExited(before, step), step);
    AllSaidNext(s, t, before, step, said);
    AcceptedNext(s, t, before, step, said);
  }

  /** Batches are handed over as they were received. */
  lemma {:induction false} BatchesHistory(states: seq<State>, steps: seq<Step>, i: nat)
    requires IsRun(states, steps) && i <= |steps|
    ensures BatchesMatch(states[i], steps[..i])
  {
    if i > 0 {
      BatchesHistory(states, steps, i - 1);
      BatchesStep(states, steps, i - 1);
    }
  }

  lemma {:induction false} BatchesStep(states: seq<State>, steps: seq<Step>, i: nat)
    requires IsRun(states, steps) && i < |steps| && BatchesMatch(states[i], steps[..i])
    ensures BatchesMatch(states[i + 1], steps[..i + 1])
  {
    InvOfRun(states, steps, i);
    StepMovesBatches(states[i], steps[i]);
    BatchesNext(states[i], states[i + 1], steps[..i], steps[i]);
  }

  /** Once the final drop has returned, what was said while the channel was open has been
      handed over, and nothing else. */
  lemma {:induction false} DeliveredIsSaid(states: seq<State>, steps: seq<Step>, i: nat)
    requires IsRun(states, steps) && i <= |steps| && states[i].drop.Returned?
    ensures Flatten(states[i].exported) == Said(WhileOpen(steps[..i]))
  {
    RunIsExecution(states, steps);
    DropDelivers(states, i, i);
    EventsHistory(states, steps, i);
  }

  // ---- What can be called ---------------------------------------------------

  /** The observers that have been cloned or spawned and not dropped. */
  function ObserversLeft(steps: seq<Step>): int {
    1 + Times(steps, CloneObserver) - Times(steps, DropObserver)
  }

  function SendersLeft(steps: seq<Step>): int {
    Times(steps, CloneSender) - Times(steps, DropSender)
  }

  /** As long as an observer or a sender is there it can be used. */
  lemma {:induction false} CallsPossible(states: seq<State>, steps: seq<Step>, i: nat, payload: nat)
    requires IsRun(states, steps) && i <= |steps|
    ensures var s, before := states[i], steps[..i];
            && (Enabled(s, SendFromObserver(payload)) <==> ObserversLeft(before) > 0)
            && (Enabled(s, CloneObserver) <==> ObserversLeft(before) > 0)
            && (Enabled(s, DropObserver) <==> ObserversLeft(before) > 0)
            && (Enabled(s, CloneSender) <==> ObserversLeft(before) > 0 || SendersLeft(before) > 0)
            && (Enabled(s, SendFromSender(payload)) <==> SendersLeft(before) > 0)
            && (Enabled(s, DropSender) <==> SendersLeft(before) > 0)
  {
    CallersHistory(states, steps, i);
  }

  /** As long as a handle is there it can be used, and one can be made of an observer. */
  lemma {:induction false} HandleCallsPossible(states: seq<State>, steps: seq<Step>, i: nat, id: HandleId)
    requires IsRun(states, steps) && i <= |steps|
    ensures var s, before := states[i], steps[..i];
            var isLive := Did(before, NewHandle(id)) && !Did(before, BeginDropHandle(id));
            && (Enabled(s, NewHandle(id)) <==> ObserversLeft(before) > 0 && !Did(before, NewHandle(id)))
            && (Enabled(s, Transition(id)) <==> isLive)
            && (Enabled(s, Exit(id)) <==> isLive)
            && (Enabled(s, BeginDropHandle(id)) <==> isLive)
            && (Enabled(s, EndDropHandle(id)) <==>
                Did(before, BeginDropHandle(id)) && !Did(before, EndDropHandle(id)))
  {
    CallersHistory(states, steps, i);
    LifeHistory(states, steps, i, id);
  }

  lemma {:induction false} LifeHistory(states: seq<State>, steps: seq<Step>, i: nat, id: HandleId)
    requires IsRun(states, steps) && i <= |steps|
    ensures var s, before := states[i], steps[..i];
            && (id in s.handles <==> Did(before, NewHandle(id)))
            && (id in s.handles ==> s.handles[id].life == LifeOf(before, id))
            && (Did(before, EndDropHandle(id)) ==> Did(before, BeginDropHandle(id)))
            && (Did(before, BeginDropHandle(id)) ==> Did(before, NewHandle(id)))
  {
    HandleHistory(states, steps, i, id);
  }

  /** The drop begins exactly when every observer and every handle has been dropped. */
  lemma {:induction false} DropBeginsWithLastOwner(states: seq<State>, steps: seq<Step>, i: nat)
    requires IsRun(states, steps) && i <= |steps|
    ensures !states[i].drop.Owned? <==>
            ObserversLeft(steps[..i]) == 0 && AllDropped(steps[..i])
  {
    var s := states[i];
    RunIsExecution(states, steps);
    ReachableInv(states, i);
    CallersHistory(states, steps, i);
    forall id ensures HandleMatches(s, steps[..i], id) { HandleHistory(states, steps, i, id); }
    NoLiveHandle(s);
    AllGone(s, steps[..i]);
  }

  ghost predicate AllDropped(steps: seq<Step>) {
    forall id :: Did(steps, NewHandle(id)) ==> Did(steps, EndDropHandle(id))
  }

  lemma {:induction false} AllGone(s: State, steps: seq<Step>)
    requires forall id :: HandleMatches(s, steps, id)
    ensures AllDropped(steps) <==> forall id | id in s.handles :: s.handles[id].life == Gone
  {
    if AllDropped(steps) {
      forall id | id in s.handles ensures s.handles[id].life == Gone { assert HandleMatches(s, steps, id); }
    }
    if forall id | id in s.handles :: s.handles[id].life == Gone {
      forall id | Did(steps, NewHandle(id)) ensures Did(steps, EndDropHandle(id)) {
        assert HandleMatches(s, steps, id);
      }
    }
  }

  lemma NoLiveHandle(s: State)
    ensures |LiveHandles(s)| == 0 <==> forall id | id in s.handles :: s.handles[id].life == Gone
  {
    if id :| id in s.handles && s.handles[id].life != Gone {
      assert id in LiveHandles(s);
    } else {
      assert LiveHandles(s) == {};
    }
  }

  // ---- Progress -------------------------------------------------------------

  /** The forwarder has a step whenever something accepted is not yet handed over. */
  lemma ForwarderHasWork(s: State)
    requires Inv(s) && Flatten(s.exported) != s.sent
    ensures exists step :: IsForwarderStep(step) && Enabled(s, step)
  {
    NothingWaiting(s);
    var step := if s.forwarder.Exporting? then Export
                else if s.forwarder == Selecting then Receive(1, 1)
                else DrainReceive(1, 1);
    assert Enabled(s, step);
  }

  lemma NothingWaiting(s: State)
    requires NothingLost(s)
    ensures s.queue == [] && s.buffer == [] ==> Flatten(s.exported) == s.sent
  {
    assert Flatten(s.exported) + [] + [] == Flatten(s.exported);
  }

  /** How far the drop and the forwarder are from the end once the last owner is gone. */
  function StepsLeft(s: State): nat {
    2 * |s.queue| + (if s.drop == Begun then 2 else if s.drop == Joining then 1 else 0) +
    match s.forwarder
    case Exporting(closing, _) => if closing then 3 else 6
    case Selecting => 5
    case Draining => 2
    case ShuttingDown => 1
    case Done => 0
  }

  /** The next step of the drop, or of the forwarder it waits for. */
  lemma NextOfDrop(s: State) returns (step: Step)
    requires Inv(s) && (s.drop == Begun || s.drop == Joining)
    ensures CanDo(s, step) && !Do(s, step).drop.Owned? && StepsLeft(Do(s, step)) < StepsLeft(s)
    ensures Do(s, step).sent == s.sent && Do(s, step).rejected == s.rejected
  {
    if s.drop == Begun {
      step := Cancel;
    } else {
      step := match s.forwarder
        case Selecting => SeeCancellation
        case Exporting(_, _) => Export
        case Draining => if s.queue == [] then DrainNothing else DrainReceive(1, 1)
        case ShuttingDown => Shutdown
        case Done => Join;
    }
    StepKeepsInv(s, step);
  }

  /** Whatever has happened, a drop that has begun can return without any further call. */
  lemma {:induction false} DropCanReturn(states: seq<State>) returns (more: seq<State>)
    requires IsExecution(states) && !states[|states| - 1].drop.Owned?
    ensures IsExecution(more) && states <= more && more[|more| - 1].drop.Returned?
    ensures more[|more| - 1].sent == states[|states| - 1].sent
    decreases StepsLeft(states[|states| - 1])
  {
    var s := states[|states| - 1];
    if s.drop.Returned? {
      return states;
    }
    ReachableInv(states, |states| - 1);
    var step := NextOfDrop(s);
    var next := Extend(states, step);
    more := DropCanReturn(next);
  }
}
