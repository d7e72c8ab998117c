/** The older traffic allocation (src/datafile/traffic_allocation.rs): the ranges
    of an experiment are read in order, each takes its variation out of the
    experiment's variation map, and the pairs are collected into a map ordered by
    end of range. */
module LegacyTrafficAllocations {
  import opened Wrappers
  import opened KeyedMaps
  import opened Variations
  import opened Removals
  import opened LegacyDatafileErrors

  type U32 = n: nat | n <= 0xFFFF_FFFF

  /** One element of the "trafficAllocation" array: its "entityId" and its
      "endOfRange". */
  datatype RawRange = RawRange(entityId: string, endOfRange: U32)

  /** `TrafficAllocation`: the variations keyed by end of range. */
  datatype LegacyTrafficAllocation = LegacyTrafficAllocation(ranges: map<U32, Variation>)

  function EntityIds(raws: seq<RawRange>): (ids: seq<string>)
    ensures |ids| == |raws| && forall i :: 0 <= i < |raws| ==> ids[i] == raws[i].entityId
  {
    seq(|raws|, i requires 0 <= i < |raws| => raws[i].entityId)
  }

  function PairKey(p: (U32, Variation)): U32 { p.0 }
  function PairValue(p: (U32, Variation)): Variation { p.1 }

  /** The ends of range paired, in order, with the variations taken for them. */
  function Pairs(raws: seq<RawRange>, vs: seq<Variation>): (ps: seq<(U32, Variation)>)
    requires |vs| == |raws|
    ensures |ps| == |raws| && forall i :: 0 <= i < |raws| ==> ps[i] == (raws[i].endOfRange, vs[i])
  {
    seq(|raws|, i requires 0 <= i < |raws| => (raws[i].endOfRange, vs[i]))
  }

  /** `TrafficAllocation::build`: the ranges are read in order; each takes its
      variation out of `variations`, and an id that is not there (never was, or was
      taken by an earlier range) stops the build with `InvalidVariationId`. The
      pairs are then collected by end of range, a later pair replacing an earlier
      one with the same end. `remaining` is what is left of `variations`, which the
      source mutates through a `&mut` borrow, including on failure. */
  method Build(raws: seq<RawRange>, variations: map<string, Variation>)
    returns (result: Result<LegacyTrafficAllocation, DatafileError>, remaining: map<string, Variation>)
    ensures remaining == Take(EntityIds(raws), variations).remaining
    ensures result.Failure? <==> Take(EntityIds(raws), variations).values.Failure?
    ensures result.Failure? ==> result.error == InvalidVariationId(Take(EntityIds(raws), variations).values.error)
    ensures result.Success? ==>
      |Take(EntityIds(raws), variations).values.value| == |raws| &&
      result.value.ranges == IndexBy(Pairs(raws, Take(EntityIds(raws), variations).values.value), PairKey, PairValue)
  {
    ghost var ids := EntityIds(raws);
    var taken: seq<Variation> := [];
    remaining := variations;
    var i := 0;
    assert ids[i..] == ids;
    PrefixedEmpty(Take(ids, variations));
    while i < |raws|
      invariant 0 <= i <= |raws|
      invariant |taken| == i
      invariant Take(ids, variations) == Prefixed(taken, Take(ids[i..], remaining))
    {
      var id := raws[i].entityId;
      if id !in remaining {
        return Failure(InvalidVariationId(id)), remaining;
      }
      TakeStep(ids, i, remaining, taken);
      var variation := remaining[id];
      remaining := remaining - {id};
      taken := taken + [variation];
      i := i + 1;
    }
    assert ids[i..] == [];
    assert Take(ids, variations).values.value == taken;
    var ranges := Index(Pairs(raws, taken), PairKey, PairValue);
    result := Success(LegacyTrafficAllocation(ranges));
  }

  /** A range whose variation id is not in the map makes the build fail, and the
      error names the first range that cannot be resolved. */
  lemma UnknownVariationFails(raws: seq<RawRange>, variations: map<string, Variation>, i: nat)
    requires i < |raws| && raws[i].entityId !in variations
    ensures Take(EntityIds(raws), variations).values.Failure?
    ensures exists k :: 0 <= k <= i && Take(EntityIds(raws), variations).values.error == raws[k].entityId
  {
    var ids := EntityIds(raws);
    TakeSucceeds(ids, variations);
    assert ids[i] !in variations;
    TakeFailure(ids, variations);
    var k :| FirstUntakable(ids, variations, k) && Take(ids, variations).values.error == ids[k] &&
      Take(ids, variations).remaining == variations - IdSet(ids[..k]);
  }

  /** Two ranges naming the same variation make the build fail: the first one
      took it out of the map. */
  lemma SharedVariationFails(raws: seq<RawRange>, variations: map<string, Variation>, i: nat, j: nat)
    requires i < j < |raws| && raws[i].entityId == raws[j].entityId
    ensures Take(EntityIds(raws), variations).values.Failure?
  {
    var ids := EntityIds(raws);
    TakeSucceeds(ids, variations);
    assert ids[i] == ids[j];
  }

  /** On success every variation of the allocation came out of the input map under
      its range's id, and the map lost exactly the variations used: one entry per
      range. */
  lemma BuildSuccess(raws: seq<RawRange>, variations: map<string, Variation>)
    requires Take(EntityIds(raws), variations).values.Success?
    ensures |Take(EntityIds(raws), variations).values.value| == |raws|
    ensures forall i :: 0 <= i < |raws| ==>
      raws[i].entityId in variations &&
      Take(EntityIds(raws), variations).values.value[i] == variations[raws[i].entityId] &&
      raws[i].entityId !in Take(EntityIds(raws), variations).remaining
    ensures |Take(EntityIds(raws), variations).remaining| == |variations| - |raws|
    ensures forall id :: id in Take(EntityIds(raws), variations).remaining ==>
      id in variations && Take(EntityIds(raws), variations).remaining[id] == variations[id]
  {
    var ids := EntityIds(raws);
    TakeValues(ids, variations);
    TakeRemaining(ids, variations);
    TakeShrinks(ids, variations);
    forall i | 0 <= i < |raws| ensures raws[i].entityId !in Take(ids, variations).remaining {
      assert ids[i] in IdSet(ids);
    }
  }

  /** Ranges with the same end of range: the later one's variation is the one
      kept. */
  lemma DuplicateEndKeepsLater(raws: seq<RawRange>, vs: seq<Variation>, i: nat)
    requires |vs| == |raws| && i < |raws|
    requires forall j :: i < j < |raws| ==> raws[j].endOfRange != raws[i].endOfRange
    ensures raws[i].endOfRange in IndexBy(Pairs(raws, vs), PairKey, PairValue)
    ensures IndexBy(Pairs(raws, vs), PairKey, PairValue)[raws[i].endOfRange] == vs[i]
  {
    var ps := Pairs(raws, vs);
    IndexByMeaning(ps, PairKey, PairValue);
    assert IsLastWithKey(ps, PairKey, raws[i].endOfRange, i);
  }
}
