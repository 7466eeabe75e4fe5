/**
  A JavaScript `Map`: a mutable dictionary that iterates its entries in the
  order in which their keys were first set. Setting a key that is already
  present replaces its value and keeps its position.
 */
module OrderedMaps {
  import Grouping

  class OrderedMap<K(==), V> {
    /** The keys in insertion order. */
    var keys: seq<K>
    var entries: map<K, V>

    ghost predicate Valid()
      reads this
    {
      && (forall k :: k in entries ==> k in keys)
      && (forall i :: 0 <= i < |keys| ==> keys[i] in entries)
      && Grouping.NoDuplicates(keys)
    }

    /** `new Map()` */
    constructor ()
      ensures Valid()
      ensures keys == [] && entries == map[]
    {
      keys := [];
      entries := map[];
    }

    /** `map.has(k)` */
    function Has(k: K): (b: bool)
      reads this
      requires Valid()
      ensures b <==> k in keys
    {
      k in entries
    }

    /** `map.get(k)` for a key that is present. */
    function Get(k: K): V
      reads this
      requires k in entries
    {
      entries[k]
    }

    /** `map.set(k, v)` */
    method Set(k: K, v: V)
      requires Valid()
      modifies this
      ensures Valid()
      ensures entries == old(entries)[k := v]
      ensures keys == if k in old(entries) then old(keys) else old(keys) + [k]
    {
      if k !in entries {
        keys := keys + [k];
      }
      entries := entries[k := v];
    }

    /** `Array.from(map.values())`: the values in key order. */
    function Values(): (vs: seq<V>)
      reads this
      requires Valid()
      ensures |vs| == |keys|
      ensures forall i :: 0 <= i < |keys| ==> vs[i] == entries[keys[i]]
    {
      ValuesOf(keys, entries)
    }

    /** `Array.from(map.entries())`: the key-value pairs in key order. */
    function Entries(): (es: seq<(K, V)>)
      reads this
      requires Valid()
      ensures |es| == |keys|
      ensures forall i :: 0 <= i < |keys| ==> es[i] == (keys[i], entries[keys[i]])
    {
      EntriesOf(keys, entries)
    }
  }

  function ValuesOf<K, V>(ks: seq<K>, m: map<K, V>): (vs: seq<V>)
    requires forall i :: 0 <= i < |ks| ==> ks[i] in m
    ensures |vs| == |ks|
    ensures forall i :: 0 <= i < |ks| ==> vs[i] == m[ks[i]]
  {
    if ks == [] then [] else [m[ks[0]]] + ValuesOf(ks[1..], m)
  }

  function EntriesOf<K, V>(ks: seq<K>, m: map<K, V>): (es: seq<(K, V)>)
    requires forall i :: 0 <= i < |ks| ==> ks[i] in m
    ensures |es| == |ks|
    ensures forall i :: 0 <= i < |ks| ==> es[i] == (ks[i], m[ks[i]])
  {
    if ks == [] then [] else [(ks[0], m[ks[0]])] + EntriesOf(ks[1..], m)
  }
}
