/** The forwarder task and the final owner's drop as they are written: loops over a
    shared channel, taking turns with every other thread. */
module Forwarding {
  import opened Pipeline
  import opened PipelineRuns

  /** The forwarder takes its own steps, and only the dropping thread joins it. */
  predicate IsOthers(step: Step) {
    !IsForwarderStep(step) && !step.Join?
  }

  /** What a step of another thread leaves alone: all of the forwarder's own state,
      and a closed channel. */
  ghost predicate ForwarderUntouched(s: State, t: State) {
    && t.forwarder == s.forwarder && t.buffer == s.buffer && t.exported == s.exported && t.shutdowns == s.shutdowns
    && t.closed == s.closed && (s.closed ==> t.queue == s.queue) && (Cancelled(s) ==> t.drop == s.drop)
  }

  /** The memory the threads share. `schedule` tells what the others do each time
      the forwarder lets them run. */
  class Shared {
    var state: State
    var schedule: seq<seq<Step>>
    ghost var history: seq<State>

    ghost predicate Valid()
      reads this
    {
      IsExecution(history) && state == history[|history| - 1] && Inv(state)
    }

    constructor (schedule: seq<seq<Step>>)
      ensures Valid() && state == SPAWNED && this.schedule == schedule
    {
      state, history, this.schedule := SPAWNED, [SPAWNED], schedule;
      new;
      SpawnedInv();
    }

    /** One atomic action of some thread. */
    method Act(step: Step)
      requires Valid() && Enabled(state, step)
      modifies `state, `history
      ensures Valid() && old(history) <= history
      ensures CanDo(old(state), step) && state == Do(old(state), step)
    {
      StepKeepsInv(state, step);
      history := Extend(history, step);
      state := Do(state, step);
    }

    /** The other threads run for a while, as the schedule has it. */
    method Yield()
      requires Valid()
      modifies this
      ensures Valid() && old(history) <= history
      ensures ForwarderUntouched(old(state), state)
      ensures schedule == if old(schedule) == [] then [] else old(schedule)[1..]
      ensures old(schedule) == [] ==> state == old(state)
    {
      if schedule == [] {
        return;
      }
      var steps := schedule[0];
      schedule := schedule[1..];
      for i := 0 to |steps|
        invariant Valid() && old(history) <= history
        invariant ForwarderUntouched(old(state), state)
        invariant schedule == old(schedule)[1..]
      {
        if IsOthers(steps[i]) && Enabled(state, steps[i]) {
          ghost var before := state;
          Act(steps[i]);
          OthersLeaveForwarder(before, steps[i]);
        }
      }
    }

    /** The exporter's current choice of batch size, which is positive. */
    method BatchSizeHint() returns (limit: nat)
      ensures limit > 0
    {
      limit :| limit > 0;
    }

    /** Receives between one and `limit` events into the empty buffer, and hands
        them to the exporter, which empties the buffer. */
    method ReceiveAndExport(limit: nat)
      requires Valid() && limit > 0 && state.queue != []
      requires state.forwarder in {Selecting, Draining}
      modifies this
      ensures Valid() && old(history) <= history
      ensures state.forwarder == old(state.forwarder) && |schedule| <= |old(schedule)|
      ensures old(state.closed) || old(schedule) == [] ==> |state.queue| < |old(state.queue)|
      ensures Cancelled(old(state)) ==> state.drop == old(state.drop)
    {
      var count: nat :| 0 < count <= limit && count <= |state.queue|;
      Act(if state.forwarder == Draining then DrainReceive(limit, count) else Receive(limit, count));
      Yield();
      Act(Export);
    }

    /** After cancellation: close the channel, drain what is buffered, and shut the
        exporter down. */
    method DrainAndShutdown()
      requires Valid() && state.forwarder == Selecting && Cancelled(state)
      modifies this
      ensures Valid() && old(history) <= history && state.forwarder == Done && state.drop == old(state.drop)
    {
      Act(SeeCancellation);
      while state.queue != []
        invariant Valid() && old(history) <= history
        invariant state.forwarder == Draining && state.closed && Cancelled(state) && state.drop == old(state.drop)
        decreases |state.queue|
      {
        var limit := BatchSizeHint();
        ReceiveAndExport(limit);
      }
      Act(DrainNothing);
      Yield();
      Act(Shutdown);
    }

    /** The forwarder's loop. Each time round, one of the branches that are ready is
        taken; it is left waiting only if nothing was cancelled and nothing more
        happens. */
    method Forward() returns (finished: bool)
      requires Valid() && state.forwarder == Selecting
      modifies this
      ensures Valid() && old(history) <= history
      ensures finished <==> state.forwarder == Done
      ensures !finished ==> state.forwarder == Selecting && !Cancelled(state) && state.queue == [] && schedule == []
      ensures finished ==> Flatten(state.exported) == state.sent && state.shutdowns == 1
      ensures !finished ==> Flatten(state.exported) == state.sent && state.shutdowns == 0
      ensures Cancelled(old(state)) ==> finished && state.drop == old(state.drop)
    {
      finished := false;
      while schedule != [] || state.queue != [] || Cancelled(state)
        invariant Valid() && old(history) <= history
        invariant state.forwarder == Selecting
        invariant Cancelled(old(state)) ==> state.drop == old(state.drop)
        decreases |schedule|, |state.queue|
      {
        Yield();
        var limit := BatchSizeHint();
        var preferChannel: bool := *;
        if state.queue != [] && (preferChannel || !Cancelled(state)) {
          ReceiveAndExport(limit);
        } else if Cancelled(state) {
          DrainAndShutdown();
          finished := true;
          break;
        }
      }
      AllHandedOver(state);
    }

    /** Cancels; a batch that was under way is finished. */
    method CancelForwarder()
      requires Valid() && state.drop == Begun
      modifies `state, `history
      ensures Valid() && old(history) <= history
      ensures state.forwarder == Selecting && state.drop == Joining
    {
      BegunForwarder(state);
      Act(Cancel);
      if state.forwarder.Exporting? {
        Act(Export);
      }
    }

    /** The drop of the final owner, once its strong count has reached zero; the
        forwarder may be waiting or in the middle of a batch. */
    method DropFinalOwner()
      requires Valid() && state.drop == Begun
      modifies this
      ensures Valid() && old(history) <= history
      ensures state.drop == Returned && old(state.sent) <= Flatten(state.exported) && state.shutdowns == 1
      ensures forall b | b in state.exported :: 0 < |b.events| <= b.limit
    {
      CancelForwarder();
      var finished := Forward();
      Act(Join);
      DropDelivers(history, |old(history)| - 1, |history| - 1);
    }
  }

  /** When the drop begins the forwarder waits or exports a batch of its main loop. */
  lemma BegunForwarder(s: State)
    requires Inv(s) && s.drop == Begun
    ensures s.forwarder == Selecting || (s.forwarder.Exporting? && !s.forwarder.closing)
  {}

  lemma OthersLeaveForwarder(s: State, step: Step)
    requires Inv(s) && CanDo(s, step) && IsOthers(step)
    ensures ForwarderUntouched(s, Do(s, step))
  {}

  lemma AllHandedOver(s: State)
    requires Inv(s) && s.queue == [] && s.forwarder in {Selecting, Done}
    ensures Flatten(s.exported) == s.sent && s.shutdowns == if s.forwarder == Done then 1 else 0
  {
    assert Flatten(s.exported) + [] + [] == Flatten(s.exported);
  }
}
