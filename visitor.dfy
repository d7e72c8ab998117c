/** A visitor of an Event API request (src/event_api/request/visitor.rs): a visitor
    id and a one-element array of snapshots, all additions going to the first. */
module Visitors {
  import opened Snapshots

  /** What a visitor holds: its id and the contents of its only snapshot. */
  datatype VisitorRecord = VisitorRecord(visitorId: string, decisions: seq<RequestDecision>, events: seq<RequestEvent>)

  class Visitor {
    const visitorId: string
    const snapshots: array<Snapshot>
    ghost const Repr: set<object>

    /** Exactly one snapshot, and the footprint is the visitor, its array and that
        snapshot. */
    ghost predicate Valid()
      reads Repr
    {
      snapshots in Repr && snapshots.Length == 1 && Repr == {this, snapshots, snapshots[0]}
    }

    /** The visitor's contents. */
    function View(): (r: VisitorRecord)
      requires Valid()
      reads Repr
      ensures r.visitorId == visitorId
    {
      VisitorRecord(visitorId, snapshots[0].decisions, snapshots[0].events)
    }

    /** `Visitor::new`: the given id and one empty snapshot. */
    constructor (visitorId: string)
      ensures Valid() && fresh(Repr)
      ensures View() == VisitorRecord(visitorId, [], [])
    {
      var snapshot := new Snapshot();
      var a := new Snapshot[1](_ => snapshot);
      this.visitorId := visitorId;
      snapshots := a;
      Repr := {this, a, snapshot};
    }

    /** `add_decision`: one decision appended to the first snapshot. */
    method AddDecision(campaignId: string, experimentId: string, variationId: string)
      requires Valid()
      modifies snapshots[0]
      ensures Valid()
      ensures View() == old(View()).(decisions := old(View()).decisions + [NewDecision(campaignId, experimentId, variationId)])
    {
      snapshots[0].AddDecision(campaignId, experimentId, variationId);
    }

    /** `add_event`: one event appended to the first snapshot. */
    method AddEvent(entityId: string, eventKey: string)
      requires Valid()
      modifies snapshots[0]
      ensures Valid()
      ensures View() == old(View()).(events := old(View()).events + [RequestEvent(entityId, eventKey)])
    {
      snapshots[0].AddEvent(entityId, eventKey);
    }
  }
}
