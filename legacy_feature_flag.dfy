/** The older feature flag (src/datafile/feature_flag.rs): a flag takes its rollout
    and then its experiments out of the maps of the datafile, so that it owns
    them. Rollouts and experiments are left abstract (`R`, `X`). */
module LegacyFeatureFlags {
  import opened Wrappers
  import opened KeyedMaps
  import opened Removals
  import opened LegacyDatafileErrors

  /** A feature flag as written in the datafile: its "id", "key", "rolloutId" and
      "experimentIds". */
  datatype RawFlag = RawFlag(id: string, key: string, rolloutId: string, experimentIds: seq<string>)

  /** `FeatureFlag`: the key, the rollout and the experiments it owns. */
  datatype LegacyFlag<R, X> = LegacyFlag(key: string, rollout: R, experiments: seq<X>)

  /** The outcome of a build together with what is left of the two maps, which the
      source mutates through `&mut` borrows. */
  datatype Built<R, X> = Built(flag: Result<LegacyFlag<R, X>, DatafileError>, rollouts: map<string, R>, experiments: map<string, X>)

  /** What `build` does: take the rollout out first (an unknown id fails with
      `InvalidRolloutId` and leaves both maps alone), then take the experiments in
      list order (the first id that cannot be taken fails with
      `InvalidExperimentId`; the rollout stays removed). */
  function BuildFlag<R, X>(raw: RawFlag, rollouts: map<string, R>, experiments: map<string, X>): Built<R, X>
  {
    if raw.rolloutId !in rollouts then Built(Failure(InvalidRolloutId(raw.rolloutId)), rollouts, experiments)
    else
      var t := Take(raw.experimentIds, experiments);
      match t.values
      case Success(xs) => Built(Success(LegacyFlag(raw.key, rollouts[raw.rolloutId], xs)), rollouts - {raw.rolloutId}, t.remaining)
      case Failure(id) => Built(Failure(InvalidExperimentId(id)), rollouts - {raw.rolloutId}, t.remaining)
  }

  /** `FeatureFlag::build`, with the loop over "experimentIds". */
  method Build<R, X>(raw: RawFlag, rollouts: map<string, R>, experiments: map<string, X>)
    returns (result: Result<LegacyFlag<R, X>, DatafileError>, rolloutsLeft: map<string, R>, experimentsLeft: map<string, X>)
    ensures Built(result, rolloutsLeft, experimentsLeft) == BuildFlag(raw, rollouts, experiments)
  {
    rolloutsLeft := rollouts;
    experimentsLeft := experiments;
    if raw.rolloutId !in rolloutsLeft {
      return Failure(InvalidRolloutId(raw.rolloutId)), rolloutsLeft, experimentsLeft;
    }
    var rollout := rolloutsLeft[raw.rolloutId];
    rolloutsLeft := rolloutsLeft - {raw.rolloutId};
    ghost var ids := raw.experimentIds;
    var taken: seq<X> := [];
    var i := 0;
    assert ids[i..] == ids;
    PrefixedEmpty(Take(ids, experiments));
    while i < |raw.experimentIds|
      invariant 0 <= i <= |ids|
      invariant Take(ids, experiments) == Prefixed(taken, Take(ids[i..], experimentsLeft))
    {
      var id := raw.experimentIds[i];
      if id !in experimentsLeft {
        assert Take(ids, experiments) == Taken(Failure(id), experimentsLeft);
        return Failure(InvalidExperimentId(id)), rolloutsLeft, experimentsLeft;
      }
      TakeStep(ids, i, experimentsLeft, taken);
      taken := taken + [experimentsLeft[id]];
      experimentsLeft := experimentsLeft - {id};
      i := i + 1;
    }
    assert ids[i..] == [];
    assert taken + [] == taken;
    assert Take(ids, experiments) == Taken(Success(taken), experimentsLeft);
    result := Success(LegacyFlag(raw.key, rollout, taken));
  }

  /** A flag builds exactly when its rollout id is known and its experiment ids are
      distinct and known; the flag then carries that rollout and those experiments
      in list order, and the rollout and the experiments have left the maps. */
  lemma BuildSucceeds<R, X>(raw: RawFlag, rollouts: map<string, R>, experiments: map<string, X>)
    ensures BuildFlag(raw, rollouts, experiments).flag.Success? <==>
      raw.rolloutId in rollouts &&
      (forall i :: 0 <= i < |raw.experimentIds| ==> raw.experimentIds[i] in experiments) && Distinct(raw.experimentIds)
    ensures BuildFlag(raw, rollouts, experiments).flag.Success? ==>
      var f := BuildFlag(raw, rollouts, experiments).flag.value;
      f.key == raw.key && f.rollout == rollouts[raw.rolloutId] &&
      |f.experiments| == |raw.experimentIds| &&
      (forall i :: 0 <= i < |raw.experimentIds| ==> f.experiments[i] == experiments[raw.experimentIds[i]]) &&
      raw.rolloutId !in BuildFlag(raw, rollouts, experiments).rollouts &&
      BuildFlag(raw, rollouts, experiments).experiments == experiments - IdSet(raw.experimentIds)
  {
    TakeSucceeds(raw.experimentIds, experiments);
    if raw.rolloutId in rollouts && Take(raw.experimentIds, experiments).values.Success? {
      TakeValues(raw.experimentIds, experiments);
      TakeRemaining(raw.experimentIds, experiments);
    }
  }

  /** An experiment id that cannot be taken fails the build with
      `InvalidExperimentId`, naming the first such id in list order. */
  lemma BuildFailsOnExperiment<R, X>(raw: RawFlag, rollouts: map<string, R>, experiments: map<string, X>)
    requires raw.rolloutId in rollouts && Take(raw.experimentIds, experiments).values.Failure?
    ensures exists k :: (FirstUntakable(raw.experimentIds, experiments, k) &&
      BuildFlag(raw, rollouts, experiments).flag == Failure(InvalidExperimentId(raw.experimentIds[k])))
  {
    TakeFailure(raw.experimentIds, experiments);
  }

  /** Two flags naming the same rollout: whatever became of the first build, the
      rollout has left the map, and the second build fails with
      `InvalidRolloutId`. */
  lemma SharedRolloutFails<R, X>(a: RawFlag, b: RawFlag, rollouts: map<string, R>, experiments: map<string, X>)
    requires a.rolloutId in rollouts && a.rolloutId == b.rolloutId
    ensures var after := BuildFlag(a, rollouts, experiments);
      BuildFlag(b, after.rollouts, after.experiments).flag == Failure(InvalidRolloutId(b.rolloutId))
  {
  }

  /** Two flags naming the same experiment: once the first has built, the second
      fails. */
  lemma SharedExperimentFails<R, X>(a: RawFlag, b: RawFlag, rollouts: map<string, R>, experiments: map<string, X>, id: string)
    requires BuildFlag(a, rollouts, experiments).flag.Success?
    requires id in a.experimentIds && id in b.experimentIds
    ensures var after := BuildFlag(a, rollouts, experiments);
      BuildFlag(b, after.rollouts, after.experiments).flag.Failure?
  {
    TakenOnce(a.experimentIds, experiments, id);
    var after := BuildFlag(a, rollouts, experiments);
    TakeSucceeds(b.experimentIds, after.experiments);
    var j :| 0 <= j < |b.experimentIds| && b.experimentIds[j] == id;
  }

  /** `FeatureFlag::map_entry`: the flag under its own key. */
  function MapEntry<R, X>(flag: LegacyFlag<R, X>): (e: (string, LegacyFlag<R, X>))
    ensures e.1 == flag && e.0 == flag.key
  {
    (flag.key, flag)
  }

  function EntryKey<R, X>(flag: LegacyFlag<R, X>): string { MapEntry(flag).0 }
  function EntryValue<R, X>(flag: LegacyFlag<R, X>): LegacyFlag<R, X> { MapEntry(flag).1 }

  /** Collecting the entries of a list of flags into a map: every flag's key is
      present, and each key holds a flag with that key, the last one listed. */
  lemma EntriesKeyedByKey<R, X>(flags: seq<LegacyFlag<R, X>>)
    ensures forall i :: 0 <= i < |flags| ==> flags[i].key in IndexBy(flags, EntryKey, EntryValue)
    ensures forall k :: k in IndexBy(flags, EntryKey, EntryValue) ==> IndexBy(flags, EntryKey, EntryValue)[k].key == k
    ensures forall k, i :: IsLastWithKey(flags, EntryKey, k, i) ==> IndexBy(flags, EntryKey, EntryValue)[k] == flags[i]
  {
    IndexByMeaning(flags, EntryKey, EntryValue);
    forall i | 0 <= i < |flags| ensures flags[i].key in IndexBy(flags, EntryKey, EntryValue) {
      assert EntryKey(flags[i]) in IndexBy(flags, EntryKey, EntryValue);
    }
    forall k | k in IndexBy(flags, EntryKey, EntryValue) ensures IndexBy(flags, EntryKey, EntryValue)[k].key == k {
      var i :| IsLastWithKey(flags, EntryKey, k, i);
    }
  }
}
