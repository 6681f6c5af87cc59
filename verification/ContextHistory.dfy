/** What the state of a context and its pipelines says of the calls made so far. */
module ContextHistory {
  import opened Pipeline
  import opened PipelineRuns
  import opened PipelineHistory

  ghost predicate SystemLeads(systems: seq<System>, steps: seq<SystemStep>, i: nat)
    requires i < |steps| && i + 1 < |systems|
  {
    SystemEnabled(systems[i], steps[i]) && systems[i + 1] == SystemDo(systems[i], steps[i])
  }

  ghost predicate IsSystemRun(systems: seq<System>, steps: seq<SystemStep>) {
    && |systems| == |steps| + 1 && systems[0] == STARTED
    && forall i: nat | i < |steps| :: SystemLeads(systems, steps, i)
  }

  lemma SystemRunIsExecution(systems: seq<System>, steps: seq<SystemStep>)
    requires IsSystemRun(systems, steps)
    ensures IsSystemExecution(systems)
  {
    forall i: nat | i + 1 < |systems| ensures SystemFollows(systems, i) {
      assert SystemLeads(systems, steps, i);
    }
  }

  /** The steps that the context's pipeline `p` took. */
  function StepsOf(steps: seq<SystemStep>, p: nat): seq<Step> {
    if steps == [] then []
    else
      var before, last := StepsOf(steps[..|steps| - 1], p), steps[|steps| - 1];
      if last.Act? && last.pipeline == p then before + [last.step] else before
  }

  lemma {:induction false} StepsOfNext(steps: seq<SystemStep>, step: SystemStep, p: nat)
    ensures StepsOf(steps + [step], p) ==
            if step.Act? && step.pipeline == p then StepsOf(steps, p) + [step.step] else StepsOf(steps, p)
  {
    assert (steps + [step])[..|steps|] == steps;
  }

  lemma SystemPrefix(systems: seq<System>, steps: seq<SystemStep>, i: nat)
    requires IsSystemRun(systems, steps) && i < |steps|
    ensures SystemLeads(systems, steps, i) && steps[..i + 1] == steps[..i] + [steps[i]]
  {}

  /** A pipeline that is yet to be spawned has taken no step. */
  lemma {:induction false} NoStepsYet(systems: seq<System>, steps: seq<SystemStep>, i: nat, p: nat)
    requires IsSystemRun(systems, steps) && i <= |steps| && p >= |systems[i].pipelines|
    ensures StepsOf(steps[..i], p) == []
  {
    if i > 0 {
      SystemPrefix(systems, steps, i - 1);
      NoStepsYet(systems, steps, i - 1, p);
      StepsOfNext(steps[..i - 1], steps[i - 1], p);
    }
  }

  /** Each pipeline of a context runs on its own, by its own steps: what holds of every
      run of a pipeline holds of it. */
  lemma {:induction false} PipelineRunsAlone(systems: seq<System>, steps: seq<SystemStep>, i: nat, p: nat)
    returns (states: seq<State>)
    requires IsSystemRun(systems, steps) && i <= |steps| && p < |systems[i].pipelines|
    ensures IsRun(states, StepsOf(steps[..i], p)) && states[|states| - 1] == systems[i].pipelines[p]
  {
    SystemPrefix(systems, steps, i - 1);
    var step := steps[i - 1];
    StepsOfNext(steps[..i - 1], step, p);
    if p == |systems[i - 1].pipelines| {
      NoStepsYet(systems, steps, i - 1, p);
      return [SPAWNED];
    }
    var before := PipelineRunsAlone(systems, steps, i - 1, p);
    if step.Act? && step.pipeline == p {
      states := ExtendRun(before, StepsOf(steps[..i - 1], p), step.step);
    } else {
      states := before;
    }
  }

  lemma {:induction false} ExtendRun(states: seq<State>, steps: seq<Step>, step: Step) returns (more: seq<State>)
    requires IsRun(states, steps) && CanDo(states[|steps|], step)
    ensures IsRun(more, steps + [step]) && more == states + [Do(states[|steps|], step)]
  {
    more := states + [Do(states[|steps|], step)];
    forall i: nat | i < |steps| + 1 ensures Leads(more, steps + [step], i) {
      if i < |steps| { assert Leads(states, steps, i); }
    }
  }

  /** Who holds the runtime: the context until it is dropped, and every pipeline spawned
      until it lets go; the runtime is up as long as any of them does. */
  ghost predicate HoldersMatch(y: System, steps: seq<SystemStep>) {
    && |y.pipelines| == |y.holds| == multiset(steps)[Spawn]
    && (forall p: nat | p < |y.holds| :: y.holds[p] <==> ReleaseRuntime(p) !in steps)
    && (forall p: nat | p >= |y.holds| :: ReleaseRuntime(p) !in steps)
    && (y.context <==> DropContext !in steps)
  }

  lemma {:induction false} HoldersNext(y: System, steps: seq<SystemStep>, step: SystemStep)
    requires HoldersMatch(y, steps) && SystemEnabled(y, step)
    ensures HoldersMatch(SystemDo(y, step), steps + [step])
  {
    assert multiset(steps + [step]) == multiset(steps) + multiset{step};
    assert forall x :: x in steps + [step] <==> x in steps || x == step;
  }

  lemma {:induction false} HoldersHistory(systems: seq<System>, steps: seq<SystemStep>, i: nat)
    requires IsSystemRun(systems, steps) && i <= |steps|
    ensures HoldersMatch(systems[i], steps[..i])
  {
    if i > 0 {
      HoldersHistory(systems, steps, i - 1);
      SystemPrefix(systems, steps, i - 1);
      HoldersNext(systems[i - 1], steps[..i - 1], steps[i - 1]);
    }
  }

  lemma {:induction false} HoldingNoneIff(holds: seq<bool>)
    ensures Holding(holds) == 0 <==> forall p | 0 <= p < |holds| :: !holds[p]
  {
    if holds != [] {
      HoldingNoneIff(holds[..|holds| - 1]);
    }
  }

  /** The runtime is shut down exactly when the context has been dropped and every
      pipeline it spawned has let go of it. */
  lemma {:induction false} RuntimeUpWhileHeld(systems: seq<System>, steps: seq<SystemStep>, i: nat)
    requires IsSystemRun(systems, steps) && i <= |steps|
    ensures systems[i].runtimeShutDown <==>
            && DropContext in steps[..i]
            && forall p: nat | p < multiset(steps[..i])[Spawn] :: ReleaseRuntime(p) in steps[..i]
  {
    HoldersHistory(systems, steps, i);
    SystemRunIsExecution(systems, steps);
    SystemReachableInv(systems, i);
    HoldingNoneIff(systems[i].holds);
  }

  /** A pipeline whose drop has returned can let go, and a context can always be
      dropped and spawn until then. */
  lemma SystemCallsPossible(systems: seq<System>, steps: seq<SystemStep>, i: nat, p: nat)
    requires IsSystemRun(systems, steps) && i <= |steps|
    ensures var before := steps[..i];
            && (SystemEnabled(systems[i], Spawn) <==> DropContext !in before)
            && (SystemEnabled(systems[i], DropContext) <==> DropContext !in before)
            && (SystemEnabled(systems[i], ReleaseRuntime(p)) <==>
                && p < |systems[i].pipelines| && systems[i].pipelines[p].drop.Returned?
                && ReleaseRuntime(p) !in before)
  {
    HoldersHistory(systems, steps, i);
    SystemRunIsExecution(systems, steps);
    SystemReachableInv(systems, i);
    HoldingNoneIff(systems[i].holds);
  }
}
