/** The parsed datafile as the decision path sees it
    (optimizely/src/datafile/environment.rs, optimizely/src/datafile/feature_flag.rs,
    optimizely/src/datafile/rollout.rs, optimizely/src/datafile/event.rs). */
module Datafiles {
  import opened Experiments

  /** A feature flag: its rollout and the ids of its A/B tests, in order. */
  datatype FeatureFlag = FeatureFlag(key: string, rolloutId: string, experimentIds: seq<string>)

  /** A rollout: the ordered list of its delivery rules. */
  datatype Rollout = Rollout(id: string, experiments: seq<Experiment>)

  /** A conversion event definition. */
  datatype EventDefinition = EventDefinition(id: string, key: string)

  /** The collections of the datafile, each keyed as `Datafile` looks it up: flags
      by key, experiments and rollouts by id, events by key. */
  datatype Datafile = Datafile(
    accountId: string,
    revision: nat,
    featureFlags: map<string, FeatureFlag>,
    experiments: map<string, Experiment>,
    rollouts: map<string, Rollout>,
    events: map<string, EventDefinition>)
}
