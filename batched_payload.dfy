/** The batching buffer of the event dispatcher
    (src/event_api/batched_event_dispatcher/batched_payload.rs): events go into one
    pending payload, and every tenth event, or dropping the buffer, hands the
    payload to the Event API client. */
module BatchedPayloads {
  import opened Wrappers
  import opened EventApi
  import opened Visitors
  import opened Payloads

  /** `DEFAULT_BATCH_THRESHOLD`. */
  const Threshold: nat := 10

  /** The buffer's observable state: the counter, the pending request, and the
      requests handed to the Event API client so far, oldest first. */
  datatype BatchState = BatchState(counter: nat, pending: Option<RequestBody>, dispatched: seq<RequestBody>)

  /** Whether an event can go into the buffer: a pending payload of another
      account makes `Payload::add_event` panic. */
  predicate Accepts(s: BatchState, event: Event)
  {
    s.pending.None? || s.pending.value.accountId == event.accountId
  }

  /** The pending request with one more event: a new payload for the event's
      account when none is pending. */
  function Enqueue(pending: Option<RequestBody>, event: Event): (b: RequestBody)
    requires pending.None? || pending.value.accountId == event.accountId
    ensures b.accountId == event.accountId
    ensures pending.None? ==> b == RequestBody(event.accountId, [RecordOf(event)], true, true, ClientName)
    ensures pending.Some? ==> b == pending.value.(visitors := pending.value.visitors + [RecordOf(event)])
  {
    match pending
    case None => RequestBody(event.accountId, [RecordOf(event)], true, true, ClientName)
    case Some(b) => b.(visitors := b.visitors + [RecordOf(event)])
  }

  /** `send`: hand the pending request over and reset the counter; nothing to do
      when no request is pending. */
  function Flush(s: BatchState): (t: BatchState)
    ensures t.pending.None?
    ensures s.pending.Some? ==> t == BatchState(0, None, s.dispatched + [s.pending.value])
    ensures s.pending.None? ==> t == s
  {
    match s.pending
    case None => s
    case Some(b) => BatchState(0, None, s.dispatched + [b])
  }

  /** `add_event`: the event goes into the pending request, the counter goes up by
      one, and reaching the threshold flushes. A rejected event changes nothing. */
  function Step(s: BatchState, event: Event): (t: BatchState)
  {
    if !Accepts(s, event) then s
    else
      var added := BatchState(s.counter + 1, Some(Enqueue(s.pending, event)), s.dispatched);
      if added.counter >= Threshold then Flush(added) else added
  }

  /** The states the buffer keeps between calls: fewer than ten pending events, a
      pending request exactly when the counter is positive, one visitor per
      pending event. */
  predicate Consistent(s: BatchState)
  {
    s.counter < Threshold && (s.counter > 0 <==> s.pending.Some?) &&
    (s.pending.Some? ==> |s.pending.value.visitors| == s.counter)
  }

  /** Every step keeps the buffer consistent, and a step either dispatches nothing
      or dispatches exactly the ten events pending with the new one. */
  lemma StepKeepsConsistent(s: BatchState, event: Event)
    requires Consistent(s)
    ensures Consistent(Step(s, event))
    ensures Accepts(s, event) && s.counter + 1 < Threshold ==>
      Step(s, event) == BatchState(s.counter + 1, Some(Enqueue(s.pending, event)), s.dispatched)
    ensures Accepts(s, event) && s.counter + 1 == Threshold ==>
      Step(s, event) == BatchState(0, None, s.dispatched + [Enqueue(s.pending, event)]) &&
      |Enqueue(s.pending, event).visitors| == Threshold
  {
  }

  /** Feeding a list of events, in order. */
  function Steps(s: BatchState, events: seq<Event>): BatchState
    decreases |events|
  {
    if events == [] then s else Steps(Step(s, events[0]), events[1..])
  }

  /** Events of one account fed to a consistent buffer: the counter advances modulo
      ten and one request is dispatched per ten events. */
  lemma {:induction false} StepsCount(s: BatchState, events: seq<Event>)
    requires Consistent(s)
    requires forall i, j :: 0 <= i < j < |events| ==> events[i].accountId == events[j].accountId
    requires s.pending.None? || forall i :: 0 <= i < |events| ==> events[i].accountId == s.pending.value.accountId
    ensures Consistent(Steps(s, events))
    ensures Steps(s, events).counter == (s.counter + |events|) % Threshold
    ensures |Steps(s, events).dispatched| == |s.dispatched| + (s.counter + |events|) / Threshold
    ensures Steps(s, events).dispatched[..|s.dispatched|] == s.dispatched
    decreases |events|
  {
    if events != [] {
      var t := Step(s, events[0]);
      StepKeepsConsistent(s, events[0]);
      var rest := events[1..];
      assert forall i :: 0 <= i < |rest| ==> rest[i] == events[i + 1];
      assert t.pending.None? || forall i :: 0 <= i < |rest| ==> rest[i].accountId == t.pending.value.accountId;
      StepsCount(t, rest);
    }
  }

  class BatchedPayload {
    var counter: nat
    var payload: Option<Payload>
    var dispatched: seq<RequestBody>
    ghost var Repr: set<object>

    /** The heap side of the buffer: a pending payload is owned and valid. */
    ghost predicate Owned()
      reads this, Repr
    {
      this in Repr &&
      (payload.Some? ==> payload.value in Repr && payload.value.Repr <= Repr && this !in payload.value.Repr && payload.value.Valid())
    }

    /** The buffer's state as a value. */
    function State(): BatchState
      requires Owned()
      reads this, Repr
    {
      BatchState(counter, if payload.Some? then Some(payload.value.Body()) else None, dispatched)
    }

    ghost predicate Valid()
      reads this, Repr
    {
      Owned() && Consistent(State())
    }

    /** `BatchedPayload::new`: counter 0, no payload, nothing dispatched. */
    constructor ()
      ensures Valid() && fresh(Repr)
      ensures State() == BatchState(0, None, [])
    {
      counter := 0;
      payload := None;
      dispatched := [];
      Repr := {this};
    }

    /** `add_event`; `accepted` is false where the source panics. */
    method AddEvent(event: Event) returns (accepted: bool)
      requires Valid()
      modifies Repr
      ensures Valid() && fresh(Repr - old(Repr))
      ensures accepted <==> Accepts(old(State()), event)
      ensures State() == Step(old(State()), event)
    {
      ghost var s := State();
      accepted := Push(event);
      if !accepted {
        return;
      }
      counter := counter + 1;
      assert State() == BatchState(s.counter + 1, Some(Enqueue(s.pending, event)), s.dispatched);
      if counter >= Threshold {
        Send();
      }
    }

    /** The first half of `add_event`: the event goes into the pending payload, or
        into a new payload for its account when none is pending. */
    method Push(event: Event) returns (accepted: bool)
      requires Valid()
      modifies Repr
      ensures Owned() && fresh(Repr - old(Repr))
      ensures counter == old(counter) && dispatched == old(dispatched)
      ensures accepted <==> Accepts(old(State()), event)
      ensures !accepted ==> State() == old(State())
      ensures accepted ==> payload.Some? && payload.value.Body() == Enqueue(old(State()).pending, event)
    {
      ghost var s := State();
      if payload.None? {
        var p := PayloadFor(event);
        payload := Some(p);
        Repr := Repr + p.Repr;
        accepted := true;
      } else {
        var p := payload.value;
        ghost var b := p.Body();
        assert s.pending == Some(b);
        accepted := p.AddEvent(event);
        Repr := Repr + p.Repr;
        if accepted {
          assert p.Body() == Enqueue(s.pending, event);
        }
      }
    }

    /** A new payload for the event's account, holding the event. */
    static method PayloadFor(event: Event) returns (p: Payload)
      ensures p.Valid() && fresh(p.Repr)
      ensures p.Body() == Enqueue(None, event)
    {
      p := new Payload(event.accountId);
      var accepted := p.AddEvent(event);
    }

    /** `send`: the pending payload is handed to the Event API client, whatever
        the outcome of the request, and the counter resets. */
    method Send()
      requires Owned()
      modifies this
      ensures Owned() && Repr == old(Repr)
      ensures State() == Flush(old(State()))
    {
      match payload {
        case Some(p) =>
          dispatched := dispatched + [p.Body()];
          payload := None;
          counter := 0;
        case None =>
      }
    }

    /** `drop`: one last flush of the partial batch. */
    method Drop()
      requires Valid()
      modifies this
      ensures Valid()
      ensures State() == Flush(old(State()))
    {
      Send();
    }
  }
}
