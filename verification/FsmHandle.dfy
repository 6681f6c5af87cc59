/** The handle generated for an FSM: every call sends the next event of its
    instance, and dropping it exits it. */
module FsmHandles {
  import opened Pipeline
  import P = Pipeline

  /** The observer that the handles of one entity type share. */
  class Stream {
    var events: seq<Event>

    constructor ()
      ensures events == []
    {
      events := [];
    }

    method Send(event: Event)
      modifies this
      ensures events == old(events) + [event]
    {
      events := events + [event];
    }
  }

  class FsmHandle {
    const id: HandleId
    const inner: Stream
    var next: nat
    var exited: bool

    /** The handle is as the protocol state `s` has it, and its sends are accepted. */
    ghost predicate Shows(s: State)
      reads this, inner
    {
      !s.closed && s.sent == inner.events && id in s.handles && s.handles[id] == P.Handle(next, exited, Live)
    }

    /** Entering the first state. */
    constructor (id: HandleId, inner: Stream)
      modifies inner
      ensures this.id == id && this.inner == inner && next == 1 && !exited
      ensures inner.events == old(inner.events) + [FromHandle(id, 0, false)]
      ensures forall s: State | !s.closed && s.sent == old(inner.events) && Enabled(s, NewHandle(id)) ::
                Shows(Do(s, NewHandle(id)))
    {
      this.id, this.inner, next, exited := id, inner, 0, false;
      new;
      EmitTransition(false);
    }

    method EmitTransition(exit: bool)
      modifies this`next, inner
      ensures inner.events == old(inner.events) + [FromHandle(id, old(next), exit)] && next == old(next) + 1
    {
      var number := next;
      next := next + 1;
      inner.Send(FromHandle(id, number, exit));
    }

    method Transition()
      modifies this`next, inner
      ensures inner.events == old(inner.events) + [FromHandle(id, old(next), false)] && next == old(next) + 1
      ensures forall s: State | old(Shows(s)) :: Shows(Do(s, P.Transition(id)))
    {
      EmitTransition(false);
    }

    method Exit()
      modifies this, inner
      ensures exited
      ensures inner.events == old(inner.events) + if old(exited) then [] else [FromHandle(id, old(next), true)]
      ensures next == old(next) + if old(exited) then 0 else 1
      ensures forall s: State | old(Shows(s)) :: Shows(Do(s, P.Exit(id)))
    {
      if !exited {
        EmitTransition(true);
        exited := true;
      }
    }

    /** The first half of the protocol's drop; the other gives up the observer. */
    method Drop()
      modifies this, inner
      ensures exited
      ensures next == old(next) + if old(exited) then 0 else 1
      ensures forall s: State | old(Shows(s)) ::
                var t := Do(s, BeginDropHandle(id));
                !t.closed && t.sent == inner.events && t.handles == s.handles[id := P.Handle(next, true, Dropping)]
      ensures inner.events == old(inner.events) + if old(exited) then [] else [FromHandle(id, old(next), true)]
    {
      Exit();
    }
  }

  datatype Call = CallTransition | CallExit

  /** What a handle that has sent `next` events still sends over `calls` and its drop. */
  ghost function Emitted(id: HandleId, next: nat, exited: bool, calls: seq<Call>): seq<Event>
    decreases |calls|
  {
    if calls == [] then
      if exited then [] else [FromHandle(id, next, true)]
    else if calls[0].CallTransition? then
      [FromHandle(id, next, false)] + Emitted(id, next + 1, exited, calls[1..])
    else if exited then Emitted(id, next, exited, calls[1..])
    else [FromHandle(id, next, true)] + Emitted(id, next + 1, true, calls[1..])
  }

  function TransitionCalls(calls: seq<Call>): nat {
    if calls == [] then 0 else TransitionCalls(calls[1..]) + if calls[0].CallTransition? then 1 else 0
  }

  lemma {:induction false} ExitsCons(e: Event, events: seq<Event>)
    ensures Exits([e] + events) == Exits(events) + if e.FromHandle? && e.exit then 1 else 0
  {
    if events == [] {
      assert [e] + events == [e];
      assert Exits([e]) == Exits([]) + if e.FromHandle? && e.exit then 1 else 0;
    } else {
      assert ([e] + events)[..|events|] == [e] + events[..|events| - 1];
      ExitsCons(e, events[..|events| - 1]);
    }
  }

  /** Numbers go up one by one; every transition is sent, and one exit if none was. */
  lemma {:induction false} EmittedInOrder(id: HandleId, next: nat, exited: bool, calls: seq<Call>)
    ensures var sent := Emitted(id, next, exited, calls);
            && (forall k | 0 <= k < |sent| :: sent[k].FromHandle? && sent[k].id == id && sent[k].number == next + k)
            && Exits(sent) == (if exited then 0 else 1)
            && |sent| == TransitionCalls(calls) + Exits(sent)
    decreases |calls|
  {
    if calls == [] {
      ExitsCons(FromHandle(id, next, true), []);
      assert [FromHandle(id, next, true)] + [] == [FromHandle(id, next, true)];
    } else if calls[0].CallTransition? {
      EmittedInOrder(id, next + 1, exited, calls[1..]);
      ExitsCons(FromHandle(id, next, false), Emitted(id, next + 1, exited, calls[1..]));
    } else if exited {
      EmittedInOrder(id, next, exited, calls[1..]);
    } else {
      EmittedInOrder(id, next + 1, true, calls[1..]);
      ExitsCons(FromHandle(id, next, true), Emitted(id, next + 1, true, calls[1..]));
    }
  }

  /** No transition is called after an exit. */
  predicate ExitsLast(calls: seq<Call>) {
    forall i, j | 0 <= i < j < |calls| :: !(calls[i].CallExit? && calls[j].CallTransition?)
  }

  predicate NoTransition(calls: seq<Call>) {
    forall i | 0 <= i < |calls| :: !calls[i].CallTransition?
  }

  /** A handle that has exited sends something exactly if a transition is called, and
      what it sends are transitions. */
  lemma {:induction false} EmittedOnceExited(id: HandleId, next: nat, calls: seq<Call>)
    ensures var sent := Emitted(id, next, true, calls);
            (sent == [] <==> NoTransition(calls)) && !EndsWithExit(sent)
    decreases |calls|
  {
    if calls != [] {
      var rest := calls[1..];
      assert forall i | 1 <= i < |calls| :: calls[i] == rest[i - 1];
      if calls[0].CallTransition? {
        EmittedOnceExited(id, next + 1, rest);
      } else {
        EmittedOnceExited(id, next, rest);
        assert forall i | 0 <= i < |rest| :: rest[i] == calls[i + 1];
      }
    }
  }

  /** The exit comes last if and only if no transition is called after an exit. */
  lemma {:induction false} ExitIsLastIff(id: HandleId, next: nat, calls: seq<Call>)
    ensures var sent := Emitted(id, next, false, calls);
            sent != [] && (EndsWithExit(sent) <==> ExitsLast(calls))
    decreases |calls|
  {
    if calls != [] {
      var rest := calls[1..];
      assert forall i | 1 <= i < |calls| :: calls[i] == rest[i - 1];
      assert forall i | 0 <= i < |rest| :: rest[i] == calls[i + 1];
      if calls[0].CallTransition? {
        ExitIsLastIff(id, next + 1, rest);
        assert ExitsLast(calls) <==> ExitsLast(rest);
      } else {
        EmittedOnceExited(id, next + 1, rest);
        ExitFirst(calls);
      }
    }
  }

  lemma ExitFirst(calls: seq<Call>)
    requires calls != [] && calls[0].CallExit?
    ensures ExitsLast(calls) <==> NoTransition(calls[1..])
  {
    var rest := calls[1..];
    assert forall i | 0 <= i < |rest| :: rest[i] == calls[i + 1];
    if NoTransition(rest) {
      forall i, j | 0 <= i < j < |calls| ensures !(calls[i].CallExit? && calls[j].CallTransition?) {
        assert calls[j] == rest[j - 1];
      }
    }
  }

  method Perform(handle: FsmHandle, call: Call)
    modifies handle, handle.inner
    ensures forall rest: seq<Call> ::
              (handle.inner.events + Emitted(handle.id, handle.next, handle.exited, rest)
               == old(handle.inner.events) + Emitted(handle.id, old(handle.next), old(handle.exited), [call] + rest))
  {
    match call {
      case CallTransition => handle.Transition();
      case CallExit => handle.Exit();
    }
    forall rest: seq<Call>
      ensures handle.inner.events + Emitted(handle.id, handle.next, handle.exited, rest)
           == old(handle.inner.events) + Emitted(handle.id, old(handle.next), old(handle.exited), [call] + rest)
    {
      assert ([call] + rest)[1..] == rest;
    }
  }

  method UseThenDrop(handle: FsmHandle, calls: seq<Call>)
    modifies handle, handle.inner
    ensures handle.inner.events ==
            old(handle.inner.events) + Emitted(handle.id, old(handle.next), old(handle.exited), calls)
    decreases |calls|
  {
    if calls == [] {
      handle.Drop();
    } else {
      assert calls == [calls[0]] + calls[1..];
      Perform(handle, calls[0]);
      UseThenDrop(handle, calls[1..]);
    }
  }

  /** The whole life of a handle: entered, used in any way, dropped. */
  method UseAndDrop(inner: Stream, id: HandleId, calls: seq<Call>)
    modifies inner
    ensures old(inner.events) <= inner.events
    ensures var sent := inner.events[|old(inner.events)|..];
            && (forall k | 0 <= k < |sent| :: sent[k].FromHandle? && sent[k].id == id && sent[k].number == k)
            && Exits(sent) == 1 && |sent| == TransitionCalls(calls) + 2 && !sent[0].exit
            && (EndsWithExit(sent) <==> ExitsLast(calls))
  {
    var handle := new FsmHandle(id, inner);
    UseThenDrop(handle, calls);
    ghost var all := Emitted(id, 1, false, calls);
    EmittedInOrder(id, 1, false, calls);
    ExitIsLastIff(id, 1, calls);
    ExitsCons(FromHandle(id, 0, false), all);
    assert inner.events[|old(inner.events)|..] == [FromHandle(id, 0, false)] + all;
  }
}
