/**
 * A JavaScript `Map`: a finite map that also remembers the order in which its
 * keys were first inserted. `set` on a present key keeps its position,
 * `delete` removes the key from the order, and iteration follows the order.
 */
module JsMap {
  import opened Wrappers

  /** No element occurs twice. */
  ghost predicate Distinct<K>(s: seq<K>)
  {
    |s| == 0 || (s[0] !in s[1..] && Distinct(s[1..]))
  }

  /** `s` without any occurrence of `x`, the rest in their order. */
  function Without<K(==, !new)>(s: seq<K>, x: K): (r: seq<K>)
    ensures forall y :: y in r <==> y in s && y != x
    ensures Distinct(s) ==> Distinct(r)
    ensures x !in s ==> r == s
  {
    if |s| == 0 then []
    else if s[0] == x then Without(s[1..], x)
    else [s[0]] + Without(s[1..], x)
  }

  lemma {:induction false} DistinctAppend<K>(s: seq<K>, x: K)
    requires Distinct(s) && x !in s
    ensures Distinct(s + [x])
  {
    if |s| > 0 {
      assert (s + [x])[1..] == s[1..] + [x];
      DistinctAppend(s[1..], x);
    }
  }

  /** A sequence without repetitions has as many elements as its set. */
  lemma {:induction false} DistinctCard<K>(s: seq<K>)
    requires Distinct(s)
    ensures |set x | x in s| == |s|
  {
    if |s| > 0 {
      DistinctCard(s[1..]);
      assert (set x | x in s) == (set x | x in s[1..]) + {s[0]};
    }
  }

  datatype OrderedMap<K(==, !new), V> = OrderedMap(entries: map<K, V>, order: seq<K>) {

    /** The order lists every key exactly once. */
    ghost predicate Valid()
    {
      Distinct(order) && forall k :: k in entries <==> k in order
    }

    /** `get`: the value, or `undefined` when the key is absent. */
    function Get(k: K): Option<V>
    {
      if k in entries then Some(entries[k]) else None
    }

    /** `set`: a new key goes to the end of the order. */
    function Set(k: K, v: V): OrderedMap<K, V>
    {
      OrderedMap(entries[k := v], if k in entries then order else order + [k])
    }

    /** `delete`: a no-op when the key is absent. */
    function Delete(k: K): OrderedMap<K, V>
    {
      OrderedMap(entries - {k}, Without(order, k))
    }

    /** `size`. */
    function Size(): nat
    {
      |order|
    }
  }

  /** `new Map()` and the state after `clear()`. */
  function Empty<K(==, !new), V>(): (m: OrderedMap<K, V>)
    ensures m.Valid() && m.Size() == 0
  {
    OrderedMap(map[], [])
  }

  /** `set` is an upsert that keeps the map well formed and can be repeated. */
  lemma SetUpserts<K(!new), V>(m: OrderedMap<K, V>, k: K, v: V)
    requires m.Valid()
    ensures m.Set(k, v).Valid()
    ensures m.Set(k, v).Get(k) == Some(v)
    ensures forall j :: j != k ==> m.Set(k, v).Get(j) == m.Get(j)
    ensures m.Set(k, v).Set(k, v) == m.Set(k, v)
    ensures m.Set(k, v).Size() == if k in m.entries then m.Size() else m.Size() + 1
  {
    if k !in m.entries {
      DistinctAppend(m.order, k);
    }
  }

  /** `delete` removes exactly one key, keeps the map well formed and can be repeated. */
  lemma DeleteRemoves<K(!new), V>(m: OrderedMap<K, V>, k: K)
    requires m.Valid()
    ensures m.Delete(k).Valid()
    ensures m.Delete(k).Get(k) == None
    ensures forall j :: j != k ==> m.Delete(k).Get(j) == m.Get(j)
    ensures m.Delete(k).Delete(k) == m.Delete(k)
  {
  }

  /** `size` counts the keys. */
  lemma {:induction false} SizeIsCount<K(!new), V>(m: OrderedMap<K, V>)
    requires m.Valid()
    ensures m.Size() == |m.entries|
  {
    DistinctCard(m.order);
    assert m.entries.Keys == set x | x in m.order;
  }
}
