/** Variations of an experiment (optimizely/src/datafile/variation.rs). */
module Variations {
  import opened Wrappers
  import opened KeyedMaps

  /** One outcome of a flag: `featureEnabled` is false for the "off" variation. */
  datatype Variation = Variation(id: string, key: string, isFeatureEnabled: bool)

  /** A variation as written in the datafile, where `featureEnabled` may be missing. */
  datatype RawVariation = RawVariation(id: string, key: string, featureEnabled: Option<bool>)

  /** Reading one variation: a missing `featureEnabled` defaults to true. */
  function FromRaw(raw: RawVariation): (v: Variation)
    ensures v.id == raw.id && v.key == raw.key
    ensures v.isFeatureEnabled <==> raw.featureEnabled != Some(false)
  {
    Variation(raw.id, raw.key, if raw.featureEnabled.Some? then raw.featureEnabled.value else true)
  }

  function IdOf(v: Variation): string { v.id }

  /** The variations read one by one, in datafile order. */
  function ReadAll(raws: seq<RawVariation>): (vs: seq<Variation>)
    ensures |vs| == |raws| && forall i :: 0 <= i < |raws| ==> vs[i] == FromRaw(raws[i])
  {
    seq(|raws|, i requires 0 <= i < |raws| => FromRaw(raws[i]))
  }

  /** `Variation::deserialize`: the list becomes a map keyed by each variation's
      own id; of two variations with the same id the later one is kept. */
  method Deserialize(raws: seq<RawVariation>) returns (m: map<string, Variation>)
    ensures forall id :: id in m ==> m[id].id == id
    ensures forall i :: 0 <= i < |raws| ==> raws[i].id in m
    ensures forall id :: id in m ==> exists i :: IsLastWithKey(ReadAll(raws), IdOf, id, i)
    ensures forall id, i :: IsLastWithKey(ReadAll(raws), IdOf, id, i) ==> m[id] == FromRaw(raws[i])
  {
    var vs := ReadAll(raws);
    m := Index(vs, IdOf, Identity);
    IndexByMeaning(vs, IdOf, Identity);
    forall id | id in m ensures m[id].id == id {
      var i :| IsLastWithKey(vs, IdOf, id, i);
    }
    forall i | 0 <= i < |raws| ensures raws[i].id in m {
      assert IdOf(vs[i]) in m;
    }
  }
}
