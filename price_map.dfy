/**
 * A price-keyed sorted map: the keys in iteration order beside the entries.
 * Bids iterate by descending price, asks by ascending price.
 */
module PriceMaps {
  import opened JavaTypes
  import opened Wrappers

  /** `a` iterates before `b` under the map's comparator. */
  predicate Before(descending: bool, a: int, b: int)
  {
    if descending then a > b else a < b
  }

  /** Each key iterates before the next one. */
  predicate Sorted(keys: seq<Long>, descending: bool)
    decreases |keys|
  {
    |keys| < 2 || (Before(descending, keys[0], keys[1]) && Sorted(keys[1..], descending))
  }

  /** In sorted keys every key iterates before every later one. */
  lemma {:induction false} SortedPairs(keys: seq<Long>, descending: bool)
    requires Sorted(keys, descending)
    ensures forall i, j :: 0 <= i < j < |keys| ==> Before(descending, keys[i], keys[j])
    decreases |keys|
  {
    if |keys| >= 2 {
      var t := keys[1..];
      SortedPairs(t, descending);
      forall i, j | 0 <= i < j < |keys|
        ensures Before(descending, keys[i], keys[j])
      {
        assert keys[j] == t[j - 1];
        if i > 0 {
          assert keys[i] == t[i - 1];
        } else if j > 1 {
          assert keys[1] == t[0];
        }
      }
    }
  }

  lemma SortedCons(h: Long, t: seq<Long>, descending: bool)
    requires Sorted(t, descending)
    requires forall x :: x in t ==> Before(descending, h, x)
    ensures Sorted([h] + t, descending)
  {
    var s := [h] + t;
    assert s[1..] == t;
    if t != [] {
      assert s[1] == t[0] && t[0] in t;
    }
  }

  /** `k` inserted into sorted `keys` at its place. */
  function Insert(keys: seq<Long>, k: Long, descending: bool): (r: seq<Long>)
    requires Sorted(keys, descending) && k !in keys
    ensures Sorted(r, descending)
    ensures forall x :: x in r <==> x in keys || x == k
    ensures |r| == |keys| + 1
  {
    if keys == [] then [k]
    else if Before(descending, k, keys[0]) then [k] + keys
    else
      var rest := Insert(keys[1..], k, descending);
      SortedPairs(keys, descending);
      assert forall x :: x in keys <==> x == keys[0] || x in keys[1..];
      assert forall j :: 0 < j < |keys| ==> Before(descending, keys[0], keys[j]);
      SortedCons(keys[0], rest, descending);
      [keys[0]] + rest
  }

  /** `keys` with `k` taken out. */
  function Delete(keys: seq<Long>, k: Long, descending: bool): (r: seq<Long>)
    requires Sorted(keys, descending)
    ensures Sorted(r, descending)
    ensures forall x :: x in r <==> x in keys && x != k
    ensures k in keys ==> |r| == |keys| - 1
    ensures k !in keys ==> r == keys
  {
    if keys == [] then []
    else if keys[0] == k then
      SortedPairs(keys, descending);
      assert k !in keys[1..];
      keys[1..]
    else
      var rest := Delete(keys[1..], k, descending);
      SortedPairs(keys, descending);
      assert forall x :: x in keys <==> x == keys[0] || x in keys[1..];
      assert forall j :: 0 < j < |keys| ==> Before(descending, keys[0], keys[j]);
      SortedCons(keys[0], rest, descending);
      [keys[0]] + rest
  }

  datatype PriceMap<V> = PriceMap(descending: bool, keys: seq<Long>, entries: map<Long, V>)
  {
    /** The keys are sorted by the comparator and are exactly the mapped prices. */
    ghost predicate Valid()
    {
      Sorted(keys, descending) && forall k :: k in entries <==> k in keys
    }

    /** `firstKey`, or nothing when the map is empty. */
    function First(): (r: Option<Long>)
      requires Valid()
      ensures r.None? <==> entries == map[]
      ensures r.Some? ==> r.value in entries
      ensures r.Some? ==> forall k :: k in entries && k != r.value ==> Before(descending, r.value, k)
    {
      if keys == [] then
        assert forall k :: k !in entries;
        None
      else
        assert keys[0] in entries;
        SortedPairs(keys, descending);
        assert forall k :: k in entries && k != keys[0] ==> exists j :: 0 < j < |keys| && keys[j] == k;
        Some(keys[0])
    }

    /** Maps `k` to `v`, adding `k` at its place when it is new. */
    function Put(k: Long, v: V): (r: PriceMap<V>)
      requires Valid()
      ensures r.Valid() && r.descending == descending
      ensures r.entries == entries[k := v]
      ensures k in entries ==> r.keys == keys
    {
      if k in entries then PriceMap(descending, keys, entries[k := v])
      else PriceMap(descending, Insert(keys, k, descending), entries[k := v])
    }

    /** Unmaps `k`. */
    function Remove(k: Long): (r: PriceMap<V>)
      requires Valid()
      ensures r.Valid() && r.descending == descending
      ensures r.entries == entries - {k}
      ensures keys != [] && k == keys[0] ==> r.keys == keys[1..]
    {
      PriceMap(descending, Delete(keys, k, descending), entries - {k})
    }
  }
}
