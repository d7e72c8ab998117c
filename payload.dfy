/** The body of an Event API request (src/event_api/request/payload.rs): an account
    id and the visitors added so far, one visitor per event. */
module Payloads {
  import opened EventApi
  import opened Snapshots
  import opened Visitors

  const ClientName: string := "rust-sdk"

  /** The event key reported when a decision activates an experiment. */
  const ActivateEventKey: string := "campaign_activated"

  /** What a request carries, apart from the client version. */
  datatype RequestBody = RequestBody(
    accountId: string,
    visitors: seq<VisitorRecord>,
    enrichDecisions: bool,
    anonymizeIp: bool,
    clientName: string)

  /** The visitor one event becomes: a decision event gives one decision and one
      "campaign_activated" event on the campaign; a conversion gives one event. */
  function RecordOf(event: Event): (r: VisitorRecord)
    ensures r.visitorId == event.userId
    ensures event.DecisionEvent? ==>
      r.decisions == [NewDecision(event.campaignId, event.experimentId, event.variationId)] &&
      r.events == [RequestEvent(event.campaignId, ActivateEventKey)]
    ensures event.ConversionEvent? ==> r.decisions == [] && r.events == [RequestEvent(event.eventId, event.eventKey)]
  {
    match event
    case DecisionEvent(_, userId, campaignId, experimentId, variationId) =>
      VisitorRecord(userId, [NewDecision(campaignId, experimentId, variationId)], [RequestEvent(campaignId, ActivateEventKey)])
    case ConversionEvent(_, userId, eventId, eventKey) =>
      VisitorRecord(userId, [], [RequestEvent(eventId, eventKey)])
  }

  /** The objects of a list of visitors. */
  ghost function Footprint(vs: seq<Visitor>): set<object>
  {
    if vs == [] then {} else vs[0].Repr + Footprint(vs[1..])
  }

  ghost predicate AllValid(vs: seq<Visitor>)
    reads Footprint(vs)
  {
    vs == [] || (vs[0].Valid() && AllValid(vs[1..]))
  }

  /** The contents of a list of visitors, in order. */
  function RecordsOf(vs: seq<Visitor>): seq<VisitorRecord>
    requires AllValid(vs)
    reads Footprint(vs)
  {
    if vs == [] then [] else [vs[0].View()] + RecordsOf(vs[1..])
  }

  /** Appending a visitor to the list: its footprint joins, its validity adds, and
      its contents come last. */
  lemma {:induction false} AppendVisitor(vs: seq<Visitor>, v: Visitor)
    ensures Footprint(vs + [v]) == Footprint(vs) + v.Repr
    ensures AllValid(vs + [v]) <==> AllValid(vs) && v.Valid()
    ensures AllValid(vs + [v]) ==> RecordsOf(vs + [v]) == RecordsOf(vs) + [v.View()]
  {
    if vs == [] {
      assert vs + [v] == [v];
    } else {
      AppendVisitor(vs[1..], v);
      assert (vs + [v])[1..] == vs[1..] + [v];
    }
  }

  lemma {:induction false} RecordsLength(vs: seq<Visitor>)
    requires AllValid(vs)
    ensures |RecordsOf(vs)| == |vs|
  {
    if vs != [] {
      RecordsLength(vs[1..]);
    }
  }

  /** The fresh visitor `add_event` builds for one event. */
  method VisitorFor(event: Event) returns (visitor: Visitor)
    ensures visitor.Valid() && fresh(visitor.Repr)
    ensures visitor.View() == RecordOf(event)
  {
    visitor := new Visitor(event.userId);
    match event {
      case DecisionEvent(_, _, campaignId, experimentId, variationId) =>
        visitor.AddDecision(campaignId, experimentId, variationId);
        visitor.AddEvent(campaignId, ActivateEventKey);
      case ConversionEvent(_, _, eventId, eventKey) =>
        visitor.AddEvent(eventId, eventKey);
    }
  }

  class Payload {
    const accountId: string
    var visitors: seq<Visitor>
    const enrichDecisions: bool
    const anonymizeIp: bool
    const clientName: string
    ghost var Repr: set<object>

    ghost predicate Valid()
      reads this, Repr
    {
      this in Repr && Footprint(visitors) <= Repr && this !in Footprint(visitors) && AllValid(visitors)
    }

    /** The contents of the visitors, in the order they were added. */
    function Records(): seq<VisitorRecord>
      requires Valid()
      reads this, Repr
    {
      RecordsOf(visitors)
    }

    /** The request this payload stands for. */
    function Body(): (b: RequestBody)
      requires Valid()
      reads this, Repr
      ensures b.accountId == accountId && b.visitors == Records()
    {
      RequestBody(accountId, Records(), enrichDecisions, anonymizeIp, clientName)
    }

    /** `Payload::new`: the account id, no visitors, decisions enriched, the IP
        anonymized, and the client name "rust-sdk". */
    constructor (accountId: string)
      ensures Valid() && fresh(Repr)
      ensures this.accountId == accountId && visitors == []
      ensures Body() == RequestBody(accountId, [], true, true, ClientName)
    {
      this.accountId := accountId;
      visitors := [];
      enrichDecisions := true;
      anonymizeIp := true;
      clientName := ClientName;
      Repr := {this};
    }

    /** `add_event`: an event of another account panics (reported here as
        `accepted` false, with nothing changed); otherwise one new visitor for the
        event's user is appended, and the visitors already present stay as they
        are. */
    method AddEvent(event: Event) returns (accepted: bool)
      requires Valid()
      modifies this
      ensures Valid() && fresh(Repr - old(Repr))
      ensures accepted <==> event.accountId == accountId
      ensures !accepted ==> visitors == old(visitors) && Repr == old(Repr)
      ensures accepted ==> |visitors| == |old(visitors)| + 1 && visitors[..|old(visitors)|] == old(visitors)
      ensures accepted ==> fresh(visitors[|old(visitors)|])
      ensures Body() == old(Body()).(visitors := old(Records()) + if accepted then [RecordOf(event)] else [])
    {
      if event.accountId != accountId {
        return false;
      }
      ghost var before, vs := Records(), visitors;
      var visitor := VisitorFor(event);
      visitors := visitors + [visitor];
      Repr := Repr + visitor.Repr;
      assert AllValid(vs) && RecordsOf(vs) == before;
      AppendVisitor(vs, visitor);
      accepted := true;
    }
  }
}
