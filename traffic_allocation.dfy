/** Traffic allocations (optimizely/src/datafile/traffic_allocation.rs): an ordered
    map from end-of-range to variation id, queried for the smallest end at or
    above a bucket value. */
module TrafficAllocations {
  import opened Wrappers
  import opened KeyedMaps

  /** One `{"entityId": ..., "endOfRange": ...}` entry of the datafile. */
  datatype Range = Range(variationId: string, end: nat)

  function EndOf(r: Range): nat { r.end }
  function VariationIdOf(r: Range): string { r.variationId }

  /** The `BTreeMap<u64, String>`: its entries in strictly increasing key order. */
  datatype TrafficAllocation = TrafficAllocation(entries: seq<(nat, string)>)

  predicate Sorted(es: seq<(nat, string)>)
  {
    forall i, j :: 0 <= i < j < |es| ==> es[i].0 < es[j].0
  }

  /** An allocation whose entries are in key order, as every `BTreeMap` is. */
  type Allocation = ta: TrafficAllocation | Sorted(ta.entries) witness TrafficAllocation([])

  /** The map the ordered entries stand for. */
  function AsMap(es: seq<(nat, string)>): map<nat, string>
  {
    if es == [] then map[] else AsMap(es[1..])[es[0].0 := es[0].1]
  }

  lemma {:induction false} AsMapKeys(es: seq<(nat, string)>)
    ensures forall k :: k in AsMap(es) <==> exists i :: 0 <= i < |es| && es[i].0 == k
  {
    if es != [] {
      AsMapKeys(es[1..]);
      assert forall i :: 1 <= i < |es| ==> es[i] == es[1..][i - 1];
    }
  }

  /** `k` is the smallest key of `m` that is at least `bucket`. */
  ghost predicate IsLeastAtLeast(m: map<nat, string>, bucket: nat, k: nat)
  {
    k in m && bucket <= k && forall k' :: k' in m && bucket <= k' ==> k <= k'
  }

  /** Every key of `m` is below `bucket`. */
  ghost predicate AllBelow(m: map<nat, string>, bucket: nat)
  {
    forall k :: k in m ==> k < bucket
  }

  /** `BTreeMap::range(bucket..).next()` on the ordered entries. */
  function Lookup(es: seq<(nat, string)>, bucket: nat): (r: Option<string>)
    requires Sorted(es)
    ensures r.None? <==> AllBelow(AsMap(es), bucket)
    ensures r.Some? ==> exists k :: IsLeastAtLeast(AsMap(es), bucket, k) && AsMap(es)[k] == r.value
  {
    if es == [] then None
    else if bucket <= es[0].0 then
      AsMapKeys(es[1..]);
      assert forall i :: 1 <= i < |es| ==> es[i] == es[1..][i - 1];
      assert IsLeastAtLeast(AsMap(es), bucket, es[0].0);
      Some(es[0].1)
    else
      TailAgrees(es, bucket);
      Lookup(es[1..], bucket)
  }

  /** Below the first key, the entries and their tail agree on every key at or
      above the bucket. */
  lemma TailAgrees(es: seq<(nat, string)>, bucket: nat)
    requires Sorted(es) && es != [] && es[0].0 < bucket
    ensures forall k :: IsLeastAtLeast(AsMap(es[1..]), bucket, k) ==>
      IsLeastAtLeast(AsMap(es), bucket, k) && AsMap(es)[k] == AsMap(es[1..])[k]
    ensures AllBelow(AsMap(es), bucket) <==> AllBelow(AsMap(es[1..]), bucket)
  {
    assert es[0].0 in AsMap(es);
  }

  /** `TrafficAllocation::variation`: the variation id stored at the smallest
      end-of-range that is at least the bucket value; None when the bucket value
      exceeds every end. */
  function GetVariation(ta: TrafficAllocation, bucket: nat): (r: Option<string>)
    requires Sorted(ta.entries)
    ensures r.None? <==> AllBelow(AsMap(ta.entries), bucket)
    ensures r.Some? ==> exists k :: IsLeastAtLeast(AsMap(ta.entries), bucket, k) && AsMap(ta.entries)[k] == r.value
  {
    Lookup(ta.entries, bucket)
  }

  /** Boundaries are inclusive: a bucket equal to an end-of-range gets that end's
      variation, and every bucket up to an end is allocated. */
  lemma BoundaryInclusive(ta: TrafficAllocation, end: nat, bucket: nat)
    requires Sorted(ta.entries) && end in AsMap(ta.entries)
    ensures GetVariation(ta, end) == Some(AsMap(ta.entries)[end])
    ensures bucket <= end ==> GetVariation(ta, bucket).Some?
  {
    var r := GetVariation(ta, end);
    var k :| IsLeastAtLeast(AsMap(ta.entries), end, k) && AsMap(ta.entries)[k] == r.value;
  }

  /** `BTreeMap::insert` on the ordered entries: replaces the value of an existing
      key, otherwise adds the key in its place. */
  function Insert(es: seq<(nat, string)>, k: nat, v: string): (r: seq<(nat, string)>)
    requires Sorted(es)
    ensures Sorted(r)
    ensures AsMap(r) == AsMap(es)[k := v]
    ensures forall p :: p in r ==> p == (k, v) || p in es
  {
    if es == [] then [(k, v)]
    else if k < es[0].0 then [(k, v)] + es
    else if k == es[0].0 then
      assert AsMap(([(k, v)] + es[1..])[1..]) == AsMap(es[1..]);
      [(k, v)] + es[1..]
    else
      var rest := Insert(es[1..], k, v);
      InsertBehind(es, k, v, rest);
      [es[0]] + rest
  }

  /** A key above the first one goes into the tail, behind the first entry. */
  lemma InsertBehind(es: seq<(nat, string)>, k: nat, v: string, rest: seq<(nat, string)>)
    requires Sorted(es) && es != [] && es[0].0 < k
    requires Sorted(rest) && AsMap(rest) == AsMap(es[1..])[k := v]
    requires forall p :: p in rest ==> p == (k, v) || p in es[1..]
    ensures Sorted([es[0]] + rest)
    ensures AsMap([es[0]] + rest) == AsMap(es)[k := v]
    ensures forall p :: p in [es[0]] + rest ==> p == (k, v) || p in es
  {
    var r := [es[0]] + rest;
    assert r[1..] == rest;
    forall j | 1 <= j < |r| ensures es[0].0 < r[j].0 {
      assert r[j] == rest[j - 1] && rest[j - 1] in rest;
      if r[j] != (k, v) {
        var t :| 0 <= t < |es[1..]| && es[1..][t] == r[j];
        assert es[t + 1] == r[j];
      }
    }
    assert AsMap(r) == AsMap(rest)[es[0].0 := es[0].1];
  }

  /** `TrafficAllocation::deserialize`: the ranges are inserted in datafile order,
      so the result maps each end-of-range to the variation id of the last range
      with that end. */
  method Deserialize(ranges: seq<Range>) returns (ta: Allocation)
    ensures Sorted(ta.entries)
    ensures AsMap(ta.entries) == IndexBy(ranges, EndOf, VariationIdOf)
  {
    var entries: seq<(nat, string)> := [];
    for i := 0 to |ranges|
      invariant Sorted(entries)
      invariant AsMap(entries) == IndexBy(ranges[..i], EndOf, VariationIdOf)
    {
      assert ranges[..i + 1][..i] == ranges[..i];
      entries := Insert(entries, ranges[i].end, ranges[i].variationId);
    }
    assert ranges[..|ranges|] == ranges;
    ta := TrafficAllocation(entries);
  }

  /** A repeated end-of-range keeps the variation id of the later range. */
  lemma DeserializeKeepsLater(ranges: seq<Range>, i: nat)
    requires i < |ranges| && IsLastWithKey(ranges, EndOf, ranges[i].end, i)
    ensures ranges[i].end in IndexBy(ranges, EndOf, VariationIdOf)
    ensures IndexBy(ranges, EndOf, VariationIdOf)[ranges[i].end] == ranges[i].variationId
  {
    IndexByMeaning(ranges, EndOf, VariationIdOf);
  }

  /** The allocation {3333 -> A, 6666 -> B, 10000 -> C} of the module's unit test. */
  lemma ThreeWaySplit(bucket: nat)
    ensures var ta := TrafficAllocation([(3333, "A"), (6666, "B"), (10000, "C")]);
      Sorted(ta.entries) &&
      (bucket <= 3333 ==> GetVariation(ta, bucket) == Some("A")) &&
      (3334 <= bucket <= 6666 ==> GetVariation(ta, bucket) == Some("B")) &&
      (6667 <= bucket <= 10000 ==> GetVariation(ta, bucket) == Some("C")) &&
      (10000 < bucket ==> GetVariation(ta, bucket) == None)
  {
    var es := [(3333, "A"), (6666, "B"), (10000, "C")];
    var es1, es2 := [(6666, "B"), (10000, "C")], [(10000, "C")];
    assert es[1..] == es1 && es1[1..] == es2 && es2[1..] == [];
    if 3333 < bucket {
      assert Lookup(es, bucket) == Lookup(es1, bucket);
      if 6666 < bucket {
        assert Lookup(es1, bucket) == Lookup(es2, bucket);
      }
    }
  }
}
