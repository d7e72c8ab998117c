/** The log payload of the first event dispatcher (src/event/log_payload.rs):
    decisions grouped per visitor id in a map, and the JSON document they become. */
module LogPayloads {

  const ClientName: string := "rust-sdk"

  /** The event type recorded with every decision. */
  const ActivateEventType: string := "campaign_activated"

  /** `LogDecision`. */
  datatype LogDecision = LogDecision(campaignId: string, experimentId: string, variationId: string, isCampaignHoldback: bool)

  /** `LogEvent`; its uuid and timestamp are not modelled. */
  datatype LogEvent = LogEvent(entityId: string, eventType: string)

  /** `LogVisitor`: one visitor's decisions and events, in the order added. */
  datatype LogVisitor = LogVisitor(visitorId: string, decisions: seq<LogDecision>, events: seq<LogEvent>)

  /** `LogDecision::new`: never a campaign holdback. */
  function NewLogDecision(campaignId: string, experimentId: string, variationId: string): (d: LogDecision)
    ensures d.campaignId == campaignId && d.experimentId == experimentId && d.variationId == variationId
    ensures !d.isCampaignHoldback
  {
    LogDecision(campaignId, experimentId, variationId, false)
  }

  /** What one decision adds to a visitor: the decision, and a
      "campaign_activated" event on the campaign. */
  function WithDecision(v: LogVisitor, campaignId: string, experimentId: string, variationId: string): (w: LogVisitor)
    ensures w.visitorId == v.visitorId
    ensures w.decisions == v.decisions + [NewLogDecision(campaignId, experimentId, variationId)]
    ensures w.events == v.events + [LogEvent(campaignId, ActivateEventType)]
  {
    LogVisitor(v.visitorId, v.decisions + [NewLogDecision(campaignId, experimentId, variationId)],
      v.events + [LogEvent(campaignId, ActivateEventType)])
  }

  /** The JSON form of a visitor: its id and a single snapshot. */
  datatype SnapshotJson = SnapshotJson(decisions: seq<LogDecision>, events: seq<LogEvent>)
  datatype VisitorJson = VisitorJson(visitorId: string, snapshots: seq<SnapshotJson>)

  /** The JSON document of the payload, apart from the client version. */
  datatype PayloadJson = PayloadJson(
    accountId: string,
    visitors: seq<VisitorJson>,
    enrichDecisions: bool,
    anonymizeIp: bool,
    clientName: string)

  /** `LogVisitor::as_json`. */
  function VisitorAsJson(v: LogVisitor): (j: VisitorJson)
    ensures j.visitorId == v.visitorId
    ensures j.snapshots == [SnapshotJson(v.decisions, v.events)]
  {
    VisitorJson(v.visitorId, [SnapshotJson(v.decisions, v.events)])
  }

  /** `order` lists every key of `m` exactly once: an iteration order of the map. */
  predicate IsOrderOf<V>(order: seq<string>, m: map<string, V>)
  {
    (forall i :: 0 <= i < |order| ==> order[i] in m) &&
    (forall k :: k in m ==> k in order) &&
    (forall i, j :: 0 <= i < j < |order| ==> order[i] != order[j])
  }

  class LogPayload {
    const accountId: string
    var visitors: map<string, LogVisitor>

    /** Each visitor is stored under its own id. */
    ghost predicate Valid()
      reads this
    {
      forall id :: id in visitors ==> visitors[id].visitorId == id
    }

    /** `LogPayload::new`: the account id and no visitors. */
    constructor (accountId: string)
      ensures Valid()
      ensures this.accountId == accountId && visitors == map[]
    {
      this.accountId := accountId;
      visitors := map[];
    }

    /** `add_decision`: the visitor with this id, or a new empty one, gets the
        decision and its event; every other visitor stays as it was. */
    method AddDecision(visitorId: string, campaignId: string, experimentId: string, variationId: string)
      requires Valid()
      modifies this
      ensures Valid()
      ensures visitors.Keys == old(visitors).Keys + {visitorId}
      ensures visitors[visitorId] ==
        WithDecision(if visitorId in old(visitors) then old(visitors)[visitorId] else LogVisitor(visitorId, [], []),
          campaignId, experimentId, variationId)
      ensures forall id :: id in old(visitors) && id != visitorId ==> visitors[id] == old(visitors)[id]
    {
      var visitor := if visitorId in visitors then visitors[visitorId] else LogVisitor(visitorId, [], []);
      visitor := WithDecision(visitor, campaignId, experimentId, variationId);
      visitors := visitors[visitorId := visitor];
    }

    /** `LogPayload::as_json`, the visitors taken in the map's iteration `order`:
        one entry per visitor, each with a single snapshot that keeps the order of
        its decisions and events. */
    function AsJson(order: seq<string>): (j: PayloadJson)
      requires IsOrderOf(order, visitors)
      reads this
      ensures j.accountId == accountId && j.enrichDecisions && j.anonymizeIp && j.clientName == ClientName
      ensures |j.visitors| == |order| == |visitors|
      ensures forall i :: 0 <= i < |order| ==> j.visitors[i] == VisitorAsJson(visitors[order[i]])
    {
      OrderLength(order, visitors);
      var vs := visitors;
      PayloadJson(accountId, seq(|order|, i requires 0 <= i < |order| && order[i] in vs => VisitorAsJson(vs[order[i]])), true, true, ClientName)
    }
  }

  /** An iteration order is as long as the map is large. */
  lemma {:induction false} OrderLength<V>(order: seq<string>, m: map<string, V>)
    requires IsOrderOf(order, m)
    ensures |order| == |m|
    decreases |order|
  {
    if order == [] {
      assert m.Keys == {};
    } else {
      var k := order[0];
      var rest := order[1..];
      var m' := m - {k};
      assert IsOrderOf(rest, m') by {
        forall i | 0 <= i < |rest| ensures rest[i] in m' {
          assert rest[i] == order[i + 1];
        }
        forall x | x in m' ensures x in rest {
          var i :| 0 <= i < |order| && order[i] == x;
          assert rest[i - 1] == x;
        }
        forall a, b | 0 <= a < b < |rest| ensures rest[a] != rest[b] {
          assert rest[a] == order[a + 1] && rest[b] == order[b + 1];
        }
      }
      OrderLength(rest, m');
      assert m'.Keys == m.Keys - {k};
    }
  }

  /** The visitors of the document carry distinct ids, and every visitor of the
      payload appears in it. */
  lemma AsJsonCoversVisitors(p: LogPayload, order: seq<string>)
    requires p.Valid() && IsOrderOf(order, p.visitors)
    ensures forall i, j :: 0 <= i < j < |p.AsJson(order).visitors| ==>
      p.AsJson(order).visitors[i].visitorId != p.AsJson(order).visitors[j].visitorId
    ensures forall id :: id in p.visitors ==>
      exists i :: 0 <= i < |p.AsJson(order).visitors| && p.AsJson(order).visitors[i] == VisitorAsJson(p.visitors[id])
  {
    var j := p.AsJson(order);
    OrderLength(order, p.visitors);
    forall id | id in p.visitors
      ensures exists i :: 0 <= i < |j.visitors| && j.visitors[i] == VisitorAsJson(p.visitors[id])
    {
      var i :| 0 <= i < |order| && order[i] == id;
      assert j.visitors[i] == VisitorAsJson(p.visitors[id]);
    }
  }
}
