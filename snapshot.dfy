/** One snapshot of a visitor in an Event API request
    (src/event_api/request/snapshot.rs, src/event_api/request/decision.rs,
    src/event_api/request/event.rs). */
module Snapshots {

  /** A decision as reported to the Event API. */
  datatype RequestDecision = RequestDecision(campaignId: string, experimentId: string, variationId: string, isCampaignHoldback: bool)

  /** An event as reported to the Event API; its uuid and timestamp are not modelled. */
  datatype RequestEvent = RequestEvent(entityId: string, eventKey: string)

  /** `Decision::new`: a reported decision is never a campaign holdback. */
  function NewDecision(campaignId: string, experimentId: string, variationId: string): (d: RequestDecision)
    ensures d.campaignId == campaignId && d.experimentId == experimentId && d.variationId == variationId
    ensures !d.isCampaignHoldback
  {
    RequestDecision(campaignId, experimentId, variationId, false)
  }

  /** `Snapshot`: the decisions and events of one visit, in the order added. */
  class Snapshot {
    var decisions: seq<RequestDecision>
    var events: seq<RequestEvent>

    /** `Snapshot::new`: no decisions and no events. */
    constructor ()
      ensures decisions == [] && events == []
    {
      decisions := [];
      events := [];
    }

    /** `add_decision`: appends one decision and leaves the events alone. */
    method AddDecision(campaignId: string, experimentId: string, variationId: string)
      modifies this
      ensures decisions == old(decisions) + [NewDecision(campaignId, experimentId, variationId)]
      ensures events == old(events)
    {
      decisions := decisions + [NewDecision(campaignId, experimentId, variationId)];
    }

    /** `add_event`: appends one event and leaves the decisions alone. */
    method AddEvent(entityId: string, eventKey: string)
      modifies this
      ensures events == old(events) + [RequestEvent(entityId, eventKey)]
      ensures decisions == old(decisions)
    {
      events := events + [RequestEvent(entityId, eventKey)];
    }
  }
}
