/** What the topology checks say about runs: the sequences of states an FSM can
    enter, starting in its initial state. */
module FsmRuns {
  import opened SchemaModel
  import opened Graphs
  import opened Fsms

  ghost predicate IsRun(fsm: Fsm, run: seq<Identifier>) {
    IsPath(Steps(fsm), run) && run[0] == fsm.initial
  }

  /** A run that ends in a final state. */
  ghost predicate IsCompleteRun(fsm: Fsm, run: seq<Identifier>) {
    IsRun(fsm, run) && IsFinalState(fsm, run[|run| - 1])
  }

  /** How often `run` enters `state`. */
  ghost function Entries(run: seq<Identifier>, state: Identifier): nat {
    multiset(run)[state]
  }

  lemma EntriesAt(run: seq<Identifier>, state: Identifier)
    ensures state !in run <==> Entries(run, state) == 0
    ensures Entries(run, state) > 1 ==> exists i, j :: 0 <= i < j < |run| && run[i] == run[j] == state
  {
    if Entries(run, state) > 1 {
      var i :| 0 <= i < |run| && run[i] == state;
      assert run == run[..i] + [state] + run[i + 1..];
      assert multiset(run) == multiset(run[..i]) + multiset{state} + multiset(run[i + 1..]);
      assert state in multiset(run[..i]) || state in multiset(run[i + 1..]);
      if state in run[..i] {
        var k :| 0 <= k < |run[..i]| && run[..i][k] == state;
        assert run[k] == run[i] == state;
      } else {
        var k :| 0 <= k < |run[i + 1..]| && run[i + 1..][k] == state;
        assert run[i] == run[i + 1 + k] == state;
      }
    }
  }

  lemma EntriesConcat(a: seq<Identifier>, b: seq<Identifier>, state: Identifier)
    ensures Entries(a + b, state) == Entries(a, state) + Entries(b, state)
  {}

  lemma EntriesOfPrefix(a: seq<Identifier>, b: seq<Identifier>, state: Identifier)
    requires a <= b
    ensures Entries(a, state) <= Entries(b, state)
  {
    assert b == a + b[|a|..];
  }

  /** A state that lies on no cycle is entered at most once by any run, whether or
      not the topology passes the checks. */
  lemma OnceStateEnteredAtMostOnce(fsm: Fsm, state: Identifier, run: seq<Identifier>)
    requires !Recurs(fsm, state) && IsRun(fsm, run)
    ensures Entries(run, state) <= 1
  {
    EntriesAt(run, state);
    if i, j :| 0 <= i < j < |run| && run[i] == run[j] == state {
      SubPath(Steps(fsm), run, i, j + 1);
      assert OnCycle(Steps(fsm), state);
    }
  }

  /** Driving a run on to `goal`. */
  lemma ExtendRun(fsm: Fsm, run: seq<Identifier>, goal: Identifier) returns (longer: seq<Identifier>)
    requires IsRun(fsm, run) && Reaches(Steps(fsm), run[|run| - 1], goal)
    ensures IsRun(fsm, longer) && run <= longer && longer[|longer| - 1] == goal
  {
    var p :| Joins(Steps(fsm), p, run[|run| - 1], goal);
    JoinPaths(Steps(fsm), run, p, fsm.initial, run[|run| - 1], goal);
    longer := run + p[1..];
  }

  lemma RunReaches(fsm: Fsm, run: seq<Identifier>, i: nat)
    requires IsRun(fsm, run) && i < |run|
    ensures Reaches(Steps(fsm), fsm.initial, run[i]) && IsState(fsm, run[i])
  {
    SubPath(Steps(fsm), run, 0, i + 1);
    ReachableIsState(fsm, run[i]);
  }

  /** In an accepted topology no run is ever stuck: it extends to a complete run. */
  lemma EveryRunCompletes(entity: Entity, fsm: Fsm, run: seq<Identifier>) returns (complete: seq<Identifier>)
    requires MeetsRequirements(entity, fsm) && IsRun(fsm, run)
    ensures IsCompleteRun(fsm, complete) && run <= complete
  {
    RunReaches(fsm, run, |run| - 1);
    var f :| IsFinalState(fsm, f) && Reaches(Steps(fsm), run[|run| - 1], f);
    complete := ExtendRun(fsm, run, f);
  }

  /** A run that goes round a cycle as often as wanted. */
  lemma RunRoundCycle(fsm: Fsm, state: Identifier, k: nat) returns (run: seq<Identifier>)
    requires Recurs(fsm, state) && Reaches(Steps(fsm), fsm.initial, state)
    ensures IsRun(fsm, run) && Entries(run, state) >= k
  {
    var p :| Joins(Steps(fsm), p, fsm.initial, state);
    var rounds := RepeatCycle(Steps(fsm), state, k + 1);
    JoinPaths(Steps(fsm), p, rounds, fsm.initial, state, state);
    run := p + rounds[1..];
    assert rounds == [rounds[0]] + rounds[1..];
    EntriesConcat([rounds[0]], rounds[1..], state);
    EntriesConcat(p, rounds[1..], state);
  }

  /** On every topology, no run enters a state twice if and only if the state cannot be
      reached or lies on no cycle. */
  lemma NeverTwiceIff(fsm: Fsm, state: Identifier)
    ensures (forall run | IsRun(fsm, run) :: Entries(run, state) <= 1) <==>
            !(Reaches(Steps(fsm), fsm.initial, state) && Recurs(fsm, state))
  {
    if Reaches(Steps(fsm), fsm.initial, state) && Recurs(fsm, state) {
      var run := RunRoundCycle(fsm, state, 2);
    } else {
      forall run | IsRun(fsm, run) ensures Entries(run, state) <= 1 {
        if Entries(run, state) > 1 {
          EntriesAt(run, state);
          var i :| 0 <= i < |run| && run[i] == state;
          RunReaches(fsm, run, i);
          OnceStateEnteredAtMostOnce(fsm, state, run);
        }
      }
    }
  }

  /** In an accepted topology every multi state is entered any number of times by
      some complete run. */
  lemma MultiStateUnbounded(entity: Entity, fsm: Fsm, event: Event, k: nat) returns (complete: seq<Identifier>)
    requires MeetsRequirements(entity, fsm) && event in entity.events && event.cardinality == Multi
    ensures IsCompleteRun(fsm, complete) && Entries(complete, event.name) >= k
  {
    assert Recurs(fsm, event.name) && Reaches(Steps(fsm), fsm.initial, event.name) by {
      assert IsState(fsm, event.name);
      assert event.cardinality == Expected(fsm, event.name);
    }
    var run := RunRoundCycle(fsm, event.name, k);
    complete := EveryRunCompletes(entity, fsm, run);
    EntriesOfPrefix(run, complete, event.name);
  }

  /** The cardinality an accepted entity declares is exactly what runs can do. */
  lemma OnceIffEnteredAtMostOnce(entity: Entity, fsm: Fsm, event: Event)
    requires MeetsRequirements(entity, fsm) && event in entity.events
    ensures event.cardinality == Once <==> forall run :: IsRun(fsm, run) ==> Entries(run, event.name) <= 1
  {
    if event.cardinality == Once {
      forall run | IsRun(fsm, run) ensures Entries(run, event.name) <= 1 {
        OnceStateEnteredAtMostOnce(fsm, event.name, run);
      }
    } else {
      var run := MultiStateUnbounded(entity, fsm, event, 2);
      assert IsRun(fsm, run);
    }
  }

  /** A state that is not final has a later state on every complete run. */
  lemma NonFinalIsLeft(fsm: Fsm, run: seq<Identifier>, i: nat)
    requires IsCompleteRun(fsm, run) && i < |run| && !IsFinalState(fsm, run[i])
    ensures i + 1 < |run| && Transition(run[i], run[i + 1]) in fsm.transitions
  {
    assert (run[i], run[i + 1]) in Steps(fsm);
    StepIsTransition(fsm, run[i], run[i + 1]);
  }
}
