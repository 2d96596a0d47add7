/**
 JavaScript's `Map`: a finite map that also remembers the order in which its keys were first
 inserted, which is the order `values()` enumerates them in.
 */
module JsMap {
  import JsArray

  datatype MapRep<K, V> = MapRep(order: seq<K>, entries: map<K, V>)

  /** Every key is listed exactly once in the insertion order. */
  ghost predicate Valid<K(!new), V(!new)>(m: MapRep<K, V>) {
    && JsArray.NoDup(m.order)
    && forall k :: k in m.entries <==> k in m.order
  }

  type OrderedMap<K(==,!new), V(!new)> = m: MapRep<K, V> | Valid(m) witness MapRep([], map[])

  function Empty<K(==,!new), V(!new)>(): (m: OrderedMap<K, V>)
    ensures m.entries == map[]
  {
    MapRep([], map[])
  }

  /** `m.set(k, v)`: a new key goes last; an existing key keeps its place and gets the new value. */
  function Set<K(==,!new), V(!new)>(m: OrderedMap<K, V>, k: K, v: V): (r: OrderedMap<K, V>)
    ensures r.entries == m.entries[k := v]
    ensures k in m.entries ==> r.order == m.order
    ensures k !in m.entries ==> r.order == m.order + [k]
  {
    if k in m.entries then MapRep(m.order, m.entries[k := v])
    else MapRep(m.order + [k], m.entries[k := v])
  }

  /** `m.delete(k)`: the key and its value are gone; the other keys keep their order. */
  function Delete<K(==,!new), V(!new)>(m: OrderedMap<K, V>, k: K): (r: OrderedMap<K, V>)
    ensures r.entries == m.entries - {k}
  {
    MapRep(JsArray.Filter(m.order, x => x != k), m.entries - {k})
  }

  /** `Array.from(m.values())`: every value once per key, in insertion order. */
  function Values<K(==,!new), V(==,!new)>(m: OrderedMap<K, V>): (vs: seq<V>)
    ensures |vs| == |m.order|
    ensures forall i :: 0 <= i < |vs| ==> vs[i] == m.entries[m.order[i]]
    ensures forall v :: v in vs <==> v in m.entries.Values
  {
    var vs := seq(|m.order|, i requires 0 <= i < |m.order| => m.entries[m.order[i]]);
    assert forall v :: v in m.entries.Values ==> v in vs by {
      forall v | v in m.entries.Values
        ensures v in vs
      {
        var k :| k in m.entries && m.entries[k] == v;
        var i :| 0 <= i < |m.order| && m.order[i] == k;
        assert vs[i] == v;
      }
    }
    vs
  }
}
