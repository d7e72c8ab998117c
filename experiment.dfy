/** Experiments of the datafile (optimizely/src/datafile/experiment.rs): the audience
    gate, the variation lookup, and the list-to-map step of deserialization. */
module Experiments {
  import opened Wrappers
  import opened KeyedMaps
  import opened BooleanConditions
  import opened TrafficAllocations
  import opened Variations

  /** An experiment (A/B test or rollout rule); `campaignId` is the datafile's
      `layerId`. */
  datatype Experiment = Experiment(
    id: string,
    key: string,
    audienceConditions: Option<Condition<string>>,
    audienceIds: seq<string>,
    campaignId: string,
    trafficAllocation: Allocation,
    variations: map<string, Variation>)

  /** `Experiment::variation`: the variation stored under the id, if any. */
  function GetVariation(e: Experiment, variationId: string): (r: Option<Variation>)
    ensures r.Some? <==> variationId in e.variations
    ensures r.Some? ==> r.value == e.variations[variationId]
  {
    if variationId in e.variations then Some(e.variations[variationId]) else None
  }

  /** The implicit gate built from `audienceIds`: an OR of one leaf per id, in order. */
  function ImplicitConditions(ids: seq<string>): (c: Condition<string>)
    ensures c.Or? && |c.children| == |ids|
    ensures forall i :: 0 <= i < |ids| ==> c.children[i] == Single(ids[i])
  {
    Or(seq(|ids|, i requires 0 <= i < |ids| => Single(ids[i])))
  }

  /** `Experiment::evaluate_audience_conditions`: an explicit tree is used when
      present, otherwise the OR over the audience ids; an empty gate lets every
      user through. */
  function EvaluateAudienceConditions(e: Experiment, evaluator: string -> bool): (r: bool)
    ensures e.audienceConditions.Some? && IsEmpty(e.audienceConditions.value) ==> r
    ensures e.audienceConditions.Some? && !IsEmpty(e.audienceConditions.value) ==>
      r == Evaluate(e.audienceConditions.value, evaluator)
    ensures e.audienceConditions.None? && e.audienceIds == [] ==> r
    ensures e.audienceConditions.None? && e.audienceIds != [] ==>
      (r <==> exists i :: 0 <= i < |e.audienceIds| && evaluator(e.audienceIds[i]))
  {
    match e.audienceConditions
    case Some(conditions) =>
      if IsEmpty(conditions) then true else Evaluate(conditions, evaluator)
    case None =>
      var conditions := ImplicitConditions(e.audienceIds);
      EvaluateOr(conditions.children, evaluator);
      if IsEmpty(conditions) then true else Evaluate(conditions, evaluator)
  }

  /** An explicit empty `Or([])` or `Not(None)` gate lets every user through even
      though the tree itself evaluates to false. */
  lemma EmptyGateOverridesTree(e: Experiment, evaluator: string -> bool)
    requires e.audienceConditions.Some? && IsEmpty(e.audienceConditions.value)
    requires !e.audienceConditions.value.And?
    ensures EvaluateAudienceConditions(e, evaluator)
    ensures !Evaluate(e.audienceConditions.value, evaluator)
  {
    EmptyIgnoresEvaluator(e.audienceConditions.value, evaluator);
  }

  function IdOf(e: Experiment): string { e.id }

  /** `Experiment::deserialize`: the list becomes a map keyed by each experiment's
      own id; of two experiments with the same id the later one is kept. */
  method Deserialize(experiments: seq<Experiment>) returns (m: map<string, Experiment>)
    ensures forall id :: id in m ==> m[id].id == id
    ensures forall i :: 0 <= i < |experiments| ==> experiments[i].id in m
    ensures forall id :: id in m ==> exists i :: IsLastWithKey(experiments, IdOf, id, i)
    ensures forall id, i :: IsLastWithKey(experiments, IdOf, id, i) ==> m[id] == experiments[i]
  {
    m := Index(experiments, IdOf, Identity);
    IndexByMeaning(experiments, IdOf, Identity);
    forall id | id in m ensures m[id].id == id {
      var i :| IsLastWithKey(experiments, IdOf, id, i);
    }
    forall i | 0 <= i < |experiments| ensures experiments[i].id in m {
      assert IdOf(experiments[i]) in m;
    }
  }
}
