/** Resolving a list of ids by removing each entry from a map, as the older
    datafile builders do (src/datafile/traffic_allocation.rs,
    src/datafile/feature_flag.rs): the first id that is not in the map stops the
    list with an error, and entries removed before that stay removed. */
module Removals {
  import opened Wrappers

  /** The values taken, or the first id that could not be taken; and the map that
      is left. */
  datatype Taken<V> = Taken(values: Result<seq<V>, string>, remaining: map<string, V>)

  /** Taking the ids one after the other. */
  function Take<V>(ids: seq<string>, m: map<string, V>): Taken<V>
  {
    if ids == [] then Taken(Success([]), m)
    else if ids[0] !in m then Taken(Failure(ids[0]), m)
    else
      var rest := Take(ids[1..], m - {ids[0]});
      match rest.values
      case Success(vs) => Taken(Success([m[ids[0]]] + vs), rest.remaining)
      case Failure(id) => Taken(Failure(id), rest.remaining)
  }

  /** `vs` taken before the outcome `t` of the rest of the list. */
  function Prefixed<V>(vs: seq<V>, t: Taken<V>): Taken<V>
  {
    match t.values
    case Success(ws) => Taken(Success(vs + ws), t.remaining)
    case Failure(id) => t
  }

  lemma PrefixedEmpty<V>(t: Taken<V>)
    ensures Prefixed([], t) == t
  {
    if t.values.Success? {
      assert [] + t.values.value == t.values.value;
    }
  }

  /** One step of `Take`, seen from the front of a list that is being consumed. */
  lemma TakeStep<V>(ids: seq<string>, i: nat, m: map<string, V>, vs: seq<V>)
    requires i < |ids| && ids[i] in m
    ensures Prefixed(vs, Take(ids[i..], m)) == Prefixed(vs + [m[ids[i]]], Take(ids[i + 1..], m - {ids[i]}))
  {
    assert ids[i..][1..] == ids[i + 1..];
    var t := Take(ids[i + 1..], m - {ids[i]});
    if t.values.Success? {
      assert vs + ([m[ids[i]]] + t.values.value) == (vs + [m[ids[i]]]) + t.values.value;
    }
  }

  predicate Distinct(ids: seq<string>)
  {
    forall i, j :: 0 <= i < j < |ids| ==> ids[i] != ids[j]
  }

  function IdSet(ids: seq<string>): set<string>
  {
    set i | 0 <= i < |ids| :: ids[i]
  }

  /** `ids[k]` is the first id that cannot be taken: it is not in the map, or an
      earlier id already took it. */
  predicate FirstUntakable<V>(ids: seq<string>, m: map<string, V>, k: int)
  {
    0 <= k < |ids| &&
    (ids[k] !in m || exists j :: 0 <= j < k && ids[j] == ids[k]) &&
    (forall j :: 0 <= j < k ==> ids[j] in m) && Distinct(ids[..k])
  }

  lemma IdSetCons(ids: seq<string>)
    requires ids != []
    ensures IdSet(ids) == {ids[0]} + IdSet(ids[1..])
  {
    forall x | x in IdSet(ids) ensures x in {ids[0]} + IdSet(ids[1..]) {
      var i :| 0 <= i < |ids| && ids[i] == x;
      if i > 0 { assert ids[1..][i - 1] == x; }
    }
    forall x | x in IdSet(ids[1..]) ensures x in IdSet(ids) {
      var i :| 0 <= i < |ids| - 1 && ids[1..][i] == x;
      assert ids[i + 1] == x;
    }
  }

  /** Taking succeeds exactly when the ids are all in the map and distinct. */
  lemma {:induction false} TakeSucceeds<V>(ids: seq<string>, m: map<string, V>)
    ensures Take(ids, m).values.Success? <==> (forall i :: 0 <= i < |ids| ==> ids[i] in m) && Distinct(ids)
  {
    if ids != [] && ids[0] in m {
      var tail := ids[1..];
      TakeSucceeds(tail, m - {ids[0]});
      assert forall i :: 1 <= i < |ids| ==> ids[i] == tail[i - 1];
      if (forall i :: 0 <= i < |ids| ==> ids[i] in m) && Distinct(ids) {
        assert forall i :: 0 <= i < |tail| ==> tail[i] in m - {ids[0]};
      }
    }
  }

  /** A successful take yields the values of the ids, in order. */
  lemma {:induction false} TakeValues<V>(ids: seq<string>, m: map<string, V>)
    requires Take(ids, m).values.Success?
    ensures |Take(ids, m).values.value| == |ids|
    ensures forall i :: 0 <= i < |ids| ==> ids[i] in m && Take(ids, m).values.value[i] == m[ids[i]]
  {
    if ids != [] {
      var tail := ids[1..];
      TakeValues(tail, m - {ids[0]});
      assert forall i :: 1 <= i < |ids| ==> ids[i] == tail[i - 1];
    }
  }

  /** A successful take leaves the map without the ids. */
  lemma {:induction false} TakeRemaining<V>(ids: seq<string>, m: map<string, V>)
    requires Take(ids, m).values.Success?
    ensures Take(ids, m).remaining == m - IdSet(ids)
  {
    if ids == [] {
      assert IdSet(ids) == {};
      assert m - {} == m;
    } else {
      var id0 := ids[0];
      var tail := ids[1..];
      TakeRemaining(tail, m - {id0});
      IdSetCons(ids);
      MinusTwice(m, id0, IdSet(tail));
    }
  }

  lemma MinusTwice<V>(m: map<string, V>, k: string, s: set<string>)
    ensures (m - {k}) - s == m - ({k} + s)
  {
  }

  /** A successful take leaves one entry fewer per id. */
  lemma {:induction false} TakeShrinks<V>(ids: seq<string>, m: map<string, V>)
    requires Take(ids, m).values.Success?
    ensures |Take(ids, m).remaining| == |m| - |ids|
  {
    if ids != [] {
      var id0 := ids[0];
      var m' := m - {id0};
      TakeShrinks(ids[1..], m');
      assert m'.Keys == m.Keys - {id0};
    }
  }

  /** A failed take reports the first id that cannot be taken; the ids before it
      have been removed. */
  lemma {:induction false} TakeFailure<V>(ids: seq<string>, m: map<string, V>)
    requires Take(ids, m).values.Failure?
    ensures exists k :: (FirstUntakable(ids, m, k) && Take(ids, m).values.error == ids[k] &&
      Take(ids, m).remaining == m - IdSet(ids[..k]))
  {
    if ids[0] !in m {
      assert FirstUntakable(ids, m, 0);
      assert IdSet(ids[..0]) == {};
      assert m - {} == m;
    } else {
      var id0 := ids[0];
      var tail := ids[1..];
      var m' := m - {id0};
      TakeFailure(tail, m');
      var rest := Take(tail, m');
      var k' :| FirstUntakable(tail, m', k') && rest.values.error == tail[k'] && rest.remaining == m' - IdSet(tail[..k']);
      var k := k' + 1;
      FirstUntakableCons(ids, m, k');
      assert ids[k] == tail[k'];
      assert ids[..k][1..] == tail[..k'];
      IdSetCons(ids[..k]);
      MinusTwice(m, id0, IdSet(tail[..k']));
    }
  }

  /** The first untakable id of the tail, once the head is taken, is the first
      untakable id of the whole list. */
  lemma FirstUntakableCons<V>(ids: seq<string>, m: map<string, V>, k': int)
    requires ids != [] && ids[0] in m
    requires FirstUntakable(ids[1..], m - {ids[0]}, k')
    ensures FirstUntakable(ids, m, k' + 1)
  {
    var tail, m', k := ids[1..], m - {ids[0]}, k' + 1;
    assert ids[k] == tail[k'];
    if tail[k'] !in m' {
      if ids[k] in m {
        assert ids[0] == ids[k];
      }
    } else {
      var j :| 0 <= j < k' && tail[j] == tail[k'];
      assert ids[j + 1] == ids[k];
    }
    forall j | 0 <= j < k ensures ids[j] in m {
      if j > 0 { assert tail[j - 1] in m'; }
    }
    forall a, b | 0 <= a < b < k ensures ids[..k][a] != ids[..k][b] {
      if a > 0 {
        assert ids[..k][a] == tail[..k'][a - 1];
      } else {
        assert ids[..k][b] == tail[..k'][b - 1] && tail[..k'][b - 1] in m';
      }
    }
  }

  /** An id taken once cannot be taken again from what is left. */
  lemma TakenOnce<V>(ids: seq<string>, m: map<string, V>, id: string)
    requires Take(ids, m).values.Success? && id in ids
    ensures id !in Take(ids, m).remaining
  {
    TakeRemaining(ids, m);
    var i :| 0 <= i < |ids| && ids[i] == id;
    assert id in IdSet(ids);
  }
}
