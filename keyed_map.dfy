/** The "list into map" step that every `deserialize` of a datafile collection
    performs: `for x in list { map.insert(key(x), value(x)) }`. A later element
    replaces an earlier one with the same key. */
module KeyedMaps {

  /** The map the insertion loop builds. */
  function IndexBy<T, K, V>(items: seq<T>, key: T -> K, value: T -> V): map<K, V>
  {
    if items == [] then map[]
    else IndexBy(items[..|items| - 1], key, value)[key(items[|items| - 1]) := value(items[|items| - 1])]
  }

  /** `items[i]` is the last element whose key is `k`. */
  ghost predicate IsLastWithKey<T, K>(items: seq<T>, key: T -> K, k: K, i: int)
  {
    0 <= i < |items| && key(items[i]) == k && forall j :: i < j < |items| ==> key(items[j]) != k
  }

  /** The keys of the map are exactly the keys of the elements, and each key maps to
      the value of the LAST element carrying it. */
  lemma {:induction false} IndexByMeaning<T, K, V>(items: seq<T>, key: T -> K, value: T -> V)
    ensures forall i :: 0 <= i < |items| ==> key(items[i]) in IndexBy(items, key, value)
    ensures forall k :: k in IndexBy(items, key, value) ==> exists i :: IsLastWithKey(items, key, k, i)
    ensures forall k, i :: IsLastWithKey(items, key, k, i) ==> IndexBy(items, key, value)[k] == value(items[i])
  {
    if items != [] {
      var n := |items| - 1;
      var front := items[..n];
      IndexByMeaning(front, key, value);
      forall k | k in IndexBy(items, key, value)
        ensures exists i :: IsLastWithKey(items, key, k, i)
      {
        if k == key(items[n]) {
          assert IsLastWithKey(items, key, k, n);
        } else {
          var i :| IsLastWithKey(front, key, k, i);
          assert IsLastWithKey(items, key, k, i);
        }
      }
      forall k, i | IsLastWithKey(items, key, k, i)
        ensures IndexBy(items, key, value)[k] == value(items[i])
      {
        if i < n {
          assert IsLastWithKey(front, key, k, i);
        }
      }
      forall i | 0 <= i < |items|
        ensures key(items[i]) in IndexBy(items, key, value)
      {
        if i < n {
          assert key(front[i]) in IndexBy(front, key, value);
        }
      }
    }
  }

  /** The insertion loop itself, proved to build `IndexBy`. */
  method Index<T, K, V>(items: seq<T>, key: T -> K, value: T -> V) returns (m: map<K, V>)
    ensures m == IndexBy(items, key, value)
  {
    m := map[];
    for i := 0 to |items|
      invariant m == IndexBy(items[..i], key, value)
    {
      assert items[..i + 1][..i] == items[..i];
      m := m[key(items[i]) := value(items[i])];
    }
    assert items[..|items|] == items;
  }

  function Identity<T>(x: T): T { x }
}
