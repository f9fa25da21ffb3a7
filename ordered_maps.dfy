/**
 * The JavaScript `Map` (and a plain object with string property names): a finite map
 * that also remembers the order in which its keys were first set. Iteration
 * (`values()`, `Object.entries`) follows that order; setting an existing key keeps its
 * position; deleting a key removes it from the order.
 */
module OrderedMaps {
  import opened Wrappers

  /** No element of `s` occurs twice. */
  predicate Distinct<K(==)>(s: seq<K>) {
    forall i, j :: 0 <= i < j < |s| ==> s[i] != s[j]
  }

  /** The position of the first occurrence of `x` in `s`. */
  function IndexOf<K(==)>(s: seq<K>, x: K): (p: nat)
    requires x in s
    ensures p < |s| && s[p] == x
    ensures forall i :: 0 <= i < p ==> s[i] != x
  {
    if s[0] == x then 0 else 1 + IndexOf(s[1..], x)
  }

  /** A sequence without repetitions has as many distinct elements as it has positions. */
  lemma {:induction false} DistinctCardinality<K>(s: seq<K>)
    requires Distinct(s)
    ensures |set x | x in s| == |s|
  {
    if s != [] {
      var t := s[..|s| - 1];
      DistinctCardinality(t);
      assert (set x | x in s) == (set x | x in t) + {s[|s| - 1]};
      assert s[|s| - 1] !in t;
    }
  }

  /** Dropping position `p` of a sequence without repetitions removes exactly the element there. */
  lemma {:induction false} DropAt<K>(s: seq<K>, p: nat)
    requires Distinct(s) && p < |s|
    ensures Distinct(s[..p] + s[p + 1..])
    ensures forall x :: x in s[..p] + s[p + 1..] <==> x in s && x != s[p]
  {
    var rest := s[..p] + s[p + 1..];
    assert forall i :: 0 <= i < |rest| ==> rest[i] == if i < p then s[i] else s[i + 1];
    forall x | x in s && x != s[p] ensures x in rest {
      var q :| 0 <= q < |s| && s[q] == x;
      assert rest[if q < p then q else q - 1] == x;
    }
  }

  datatype OrderedMap<K(==,!new), V> = OrderedMap(entries: map<K, V>, keys: seq<K>) {

    /** Every key is listed once, and exactly the keys that have an entry are listed. */
    ghost predicate Valid() {
      Distinct(keys) && forall k :: k in entries <==> k in keys
    }

    /** `new Map()`. */
    static function Empty(): (r: OrderedMap<K, V>)
      ensures r.Valid()
      ensures forall k :: r.Get(k) == None
      ensures r.keys == []
    {
      OrderedMap(map[], [])
    }

    /** `m.get(k)`: the value stored under `k`, if any. */
    function Get(k: K): (r: Option<V>)
      ensures r.Some? <==> k in entries
      ensures r.Some? ==> r.value == entries[k]
    {
      if k in entries then Some(entries[k]) else None
    }

    /** `m.set(k, v)`: stores `v` under `k`, replacing any earlier value. */
    function Set(k: K, v: V): (r: OrderedMap<K, V>)
      requires Valid()
      ensures r.Valid()
      ensures r.Get(k) == Some(v)
      ensures forall j :: j != k ==> r.Get(j) == Get(j)
      ensures k in entries ==> r.keys == keys
      ensures k !in entries ==> r.keys == keys + [k]
    {
      OrderedMap(entries[k := v], if k in entries then keys else keys + [k])
    }

    /** `m.delete(k)`: removes the entry under `k`, if any; the other keys keep their order. */
    function Delete(k: K): (r: OrderedMap<K, V>)
      requires Valid()
      ensures r.Valid()
      ensures r.Get(k) == None
      ensures forall j :: j != k ==> r.Get(j) == Get(j)
      ensures k !in entries ==> r == this
      ensures k in entries ==> r.keys == keys[..IndexOf(keys, k)] + keys[IndexOf(keys, k) + 1..]
    {
      if k !in entries then this
      else
        var p := IndexOf(keys, k);
        var rest := keys[..p] + keys[p + 1..];
        DropAt(keys, p);
        OrderedMap(entries - {k}, rest)
    }

    /** `Array.from(m.values())`: the stored values in key order, one per entry. */
    function Values(): (r: seq<V>)
      requires Valid()
      ensures |r| == |keys| == |entries|
      ensures forall i :: 0 <= i < |r| ==> r[i] == entries[keys[i]]
      ensures forall k :: k in entries ==> entries[k] in r
    {
      DistinctCardinality(keys);
      assert entries.Keys == set x | x in keys;
      var r := seq(|keys|, i requires 0 <= i < |keys| => entries[keys[i]]);
      assert forall k :: k in entries ==> r[IndexOf(keys, k)] == entries[k];
      r
    }

    /** `Object.entries(m)`: the (key, value) pairs in key order. */
    function Pairs(): (r: seq<(K, V)>)
      requires Valid()
      ensures |r| == |keys|
      ensures forall i :: 0 <= i < |r| ==> r[i].0 == keys[i] && r[i].0 in entries && r[i].1 == entries[keys[i]]
    {
      seq(|keys|, i requires 0 <= i < |keys| => (keys[i], entries[keys[i]]))
    }
  }

  /** Setting a key that was absent and then deleting it gives back the original map, order included. */
  lemma {:induction false} SetThenDeleteRestores<K(!new), V>(m: OrderedMap<K, V>, k: K, v: V)
    requires m.Valid() && k !in m.entries
    ensures m.Set(k, v).Delete(k) == m
  {
    var s := m.Set(k, v);
    assert s.keys == m.keys + [k];
    assert IndexOf(s.keys, k) == |m.keys|;
    assert s.keys[..|m.keys|] == m.keys;
    assert (m.entries[k := v]) - {k} == m.entries;
  }
}
