/** The handle behind a generated entity: its once-event flags, and what driving
    it along an FSM run does. */
module Handles {
  import opened Wrappers
  import opened SchemaModel
  import opened Graphs
  import opened Fsms
  import opened FsmRuns

  const MAX_ONCE_EVENTS := 64

  /** An index into the flag word. */
  type Bit = b: nat | b < MAX_ONCE_EVENTS

  /** The 64 bits of the flag word, least significant first. */
  type FlagWord = w: seq<bool> | |w| == MAX_ONCE_EVENTS witness seq(MAX_ONCE_EVENTS, _ => false)

  const NO_FLAGS: FlagWord := seq(MAX_ONCE_EVENTS, _ => false)

  datatype HandleError = OnceAlreadyEmitted(event: Identifier)

  class Handle {
    var onceFlags: FlagWord
    /** What the handle has passed to its observer. */
    var emitted: seq<Identifier>

    constructor ()
      ensures onceFlags == NO_FLAGS && emitted == []
    {
      onceFlags, emitted := NO_FLAGS, [];
    }

    method Emit(event: Identifier)
      modifies this`emitted
      ensures emitted == old(emitted) + [event]
    {
      emitted := emitted + [event];
    }

    /** Emits unless `bit` is set, and sets it. */
    method EmitOnce(bit: Bit, event: Identifier) returns (error: Option<HandleError>)
      modifies this
      ensures error == if old(onceFlags)[bit] then Some(OnceAlreadyEmitted(event)) else None
      ensures emitted == if error == None then old(emitted) + [event] else old(emitted)
      ensures onceFlags == old(onceFlags)[bit := true]
    {
      if onceFlags[bit] {
        return Some(OnceAlreadyEmitted(event));
      }
      onceFlags := onceFlags[bit := true];
      emitted := emitted + [event];
      return None;
    }

    method IsEmitted(bit: Bit) returns (r: bool)
      ensures r == onceFlags[bit]
    {
      r := onceFlags[bit];
    }
  }

  /** `bits` gives every once event of the entity its own flag. */
  ghost predicate Assigns(bits: map<Identifier, Bit>, events: seq<Event>) {
    && bits.Keys == (set ev | ev in events && ev.cardinality == Once :: ev.name)
    && (forall m, n | m in bits && n in bits && m != n :: bits[m] != bits[n])
  }

  function OnceCount(events: seq<Event>): nat {
    if events == [] then 0
    else OnceCount(events[..|events| - 1]) + if events[|events| - 1].cardinality == Once then 1 else 0
  }

  lemma {:induction false} OnceCountGrows(events: seq<Event>, i: nat)
    requires i <= |events|
    ensures OnceCount(events[..i]) <= OnceCount(events)
  {
    if i < |events| {
      var shorter := events[..|events| - 1];
      assert shorter[..i] == events[..i];
      OnceCountGrows(shorter, i);
    } else {
      assert events[..i] == events;
    }
  }

  lemma AssignsNext(claimed: map<Identifier, Bit>, events: seq<Event>, i: nat, next: nat)
    requires UniqueEvents(events) && i < |events| && Assigns(claimed, events[..i])
    requires forall n | n in claimed :: claimed[n] < next
    ensures events[i].cardinality != Once ==> Assigns(claimed, events[..i + 1])
    ensures events[i].cardinality == Once && next < MAX_ONCE_EVENTS ==>
              Assigns(claimed[events[i].name := next], events[..i + 1])
  {
    var before := set ev | ev in events[..i] && ev.cardinality == Once :: ev.name;
    var after := set ev | ev in events[..i + 1] && ev.cardinality == Once :: ev.name;
    assert events[..i + 1] == events[..i] + [events[i]];
    assert after == before + if events[i].cardinality == Once then {events[i].name} else {};
  }

  /** Once events claim successive flags in declaration order; there is no
      assignment exactly when they outnumber the flags. */
  method AssignBits(events: seq<Event>) returns (bits: Option<map<Identifier, Bit>>)
    requires UniqueEvents(events)
    ensures bits.Some? ==> Assigns(bits.value, events)
    ensures bits.None? <==> OnceCount(events) > MAX_ONCE_EVENTS
  {
    var claimed: map<Identifier, Bit> := map[];
    var next: nat := 0;
    for i := 0 to |events|
      invariant next == OnceCount(events[..i]) <= MAX_ONCE_EVENTS
      invariant Assigns(claimed, events[..i])
      invariant forall n | n in claimed :: claimed[n] < next
    {
      OnceCountGrows(events, i + 1);
      assert events[..i + 1][..i] == events[..i];
      AssignsNext(claimed, events, i, next);
      if events[i].cardinality == Once {
        if next == MAX_ONCE_EVENTS {
          return None;
        }
        claimed := claimed[events[i].name := next];
        next := next + 1;
      }
    }
    assert events[..|events|] == events;
    bits := Some(claimed);
  }

  /** `names` without any repetition of the names in `once`. */
  function FirstOnce(names: seq<Identifier>, once: set<Identifier>): seq<Identifier> {
    if names == [] then []
    else
      var last, before := names[|names| - 1], names[..|names| - 1];
      FirstOnce(before, once) + if last in once && last in before then [] else [last]
  }

  lemma FirstOnceSnoc(names: seq<Identifier>, n: Identifier, once: set<Identifier>)
    ensures FirstOnce(names + [n], once) == FirstOnce(names, once) + if n in once && n in names then [] else [n]
  {
    assert (names + [n])[..|names|] == names;
  }

  /** No name in `once` is repeated. */
  predicate NoneRepeated(names: seq<Identifier>, once: set<Identifier>) {
    names == [] ||
    var last, before := names[|names| - 1], names[..|names| - 1];
    NoneRepeated(before, once) && !(last in once && last in before)
  }

  lemma NoneRepeatedSnoc(names: seq<Identifier>, n: Identifier, once: set<Identifier>)
    ensures NoneRepeated(names + [n], once) <==> NoneRepeated(names, once) && !(n in once && n in names)
  {
    assert (names + [n])[..|names|] == names;
  }

  lemma {:induction false} NoneRepeatedIff(names: seq<Identifier>, once: set<Identifier>)
    ensures NoneRepeated(names, once) <==> forall n | n in once :: Entries(names, n) <= 1
    ensures NoneRepeated(names, once) ==> FirstOnce(names, once) == names
  {
    if names != [] {
      var last, before := names[|names| - 1], names[..|names| - 1];
      assert names == before + [last];
      NoneRepeatedIff(before, once);
      EntriesAt(before, last);
      forall n ensures Entries(names, n) == Entries(before, n) + if n == last then 1 else 0 {
        EntriesConcat(before, [last], n);
      }
    }
  }

  /** Emits one event through the generated method: a once event that was emitted
      before is refused and leaves no trace. */
  method EmitNamed(bits: map<Identifier, Bit>, handle: Handle, name: Identifier) returns (error: Option<HandleError>)
    modifies handle
    ensures error.Some? <==> name in bits && old(handle.onceFlags)[bits[name]]
    ensures handle.emitted == old(handle.emitted) + if error.Some? then [] else [name]
    ensures handle.onceFlags ==
            if name in bits then old(handle.onceFlags)[bits[name] := true] else old(handle.onceFlags)
  {
    if name in bits {
      error := handle.EmitOnce(bits[name], name);
    } else {
      handle.Emit(name);
      error := None;
    }
  }

  /** Emits the events named by `names`, in order, through the generated methods. */
  method Drive(events: seq<Event>, bits: map<Identifier, Bit>, handle: Handle, names: seq<Identifier>)
    returns (ok: bool)
    requires UniqueEvents(events) && Assigns(bits, events)
    requires handle.onceFlags == NO_FLAGS && handle.emitted == []
    requires forall n | n in names :: exists ev :: ev in events && ev.name == n
    modifies handle
    ensures ok <==> forall ev | ev in events && ev.cardinality == Once :: Entries(names, ev.name) <= 1
    ensures handle.emitted == FirstOnce(names, bits.Keys)
    ensures ok ==> handle.emitted == names
    ensures forall n | n in bits :: handle.onceFlags[bits[n]] <==> n in names
  {
    ok := true;
    for i := 0 to |names|
      invariant forall n | n in bits :: handle.onceFlags[bits[n]] <==> n in names[..i]
      invariant ok <==> NoneRepeated(names[..i], bits.Keys)
      invariant handle.emitted == FirstOnce(names[..i], bits.Keys)
    {
      assert names[..i + 1] == names[..i] + [names[i]];
      NoneRepeatedSnoc(names[..i], names[i], bits.Keys);
      FirstOnceSnoc(names[..i], names[i], bits.Keys);
      var error := EmitNamed(bits, handle, names[i]);
      ok := ok && error == None;
    }
    assert names[..|names|] == names;
    NoneRepeatedIff(names, bits.Keys);
    assert forall ev | ev in events && ev.cardinality == Once :: ev.name in bits;
    assert forall n | n in bits :: exists ev :: ev in events && ev.cardinality == Once && ev.name == n;
  }

  /** After any sequence of calls the handle tells which once events were emitted. */
  method DriveThenAsk(events: seq<Event>, bits: map<Identifier, Bit>, handle: Handle, names: seq<Identifier>,
                      name: Identifier)
    returns (emitted: bool)
    requires UniqueEvents(events) && Assigns(bits, events) && name in bits
    requires handle.onceFlags == NO_FLAGS && handle.emitted == []
    requires forall n | n in names :: exists ev :: ev in events && ev.name == n
    modifies handle
    ensures emitted <==> name in names
  {
    var _ := Drive(events, bits, handle, names);
    emitted := handle.IsEmitted(bits[name]);
  }

  /** Whatever the topology, if its states are events and no once event lies on a cycle
      that can be reached, no once event is ever refused along a run, and the handle
      emits the run. */
  method DriveRun(entity: Entity, fsm: Fsm, bits: map<Identifier, Bit>, handle: Handle, run: seq<Identifier>)
    returns (ok: bool)
    requires UniqueEvents(entity.events) && Assigns(bits, entity.events)
    requires forall s | IsState(fsm, s) :: s in EventNames(entity)
    requires forall ev | ev in entity.events && ev.cardinality == Once ::
               !(Reaches(Steps(fsm), fsm.initial, ev.name) && Recurs(fsm, ev.name))
    requires IsRun(fsm, run) && handle.onceFlags == NO_FLAGS && handle.emitted == []
    modifies handle
    ensures ok && handle.emitted == run
  {
    forall n | n in run ensures exists ev :: ev in entity.events && ev.name == n {
      var i :| 0 <= i < |run| && run[i] == n;
      RunReaches(fsm, run, i);
      assert n in EventNames(entity);
    }
    forall ev | ev in entity.events && ev.cardinality == Once ensures Entries(run, ev.name) <= 1 {
      NeverTwiceIff(fsm, ev.name);
    }
    ok := Drive(entity.events, bits, handle, run);
  }

  /** In particular along every run of an accepted topology. */
  method DriveAcceptedRun(entity: Entity, fsm: Fsm, bits: map<Identifier, Bit>, handle: Handle, run: seq<Identifier>)
    returns (ok: bool)
    requires UniqueEvents(entity.events) && Assigns(bits, entity.events)
    requires MeetsRequirements(entity, fsm) && IsRun(fsm, run)
    requires handle.onceFlags == NO_FLAGS && handle.emitted == []
    modifies handle
    ensures ok && handle.emitted == run
  {
    forall ev | ev in entity.events && ev.cardinality == Once ensures !Recurs(fsm, ev.name) {
      assert IsState(fsm, ev.name) && ev.cardinality == Expected(fsm, ev.name);
    }
    ok := DriveRun(entity, fsm, bits, handle, run);
  }
}
