/** Python's collections.OrderedDict with string keys: a map together with the
    order in which its keys were first inserted. */
module OrderedDict {

  /** No element occurs twice. */
  predicate Distinct<T(==)>(s: seq<T>) {
    forall i, j :: 0 <= i < j < |s| ==> s[i] != s[j]
  }

  datatype ODict<V> = ODict(keys: seq<string>, m: map<string, V>) {

    /** Every key appears once in the key order, and the key order lists
        exactly the keys of the map. */
    ghost predicate Valid() {
      Distinct(keys) &&
      (forall k :: k in m <==> k in keys)
    }

    /** d[k] = v: a new key goes to the end of the order, an existing key keeps
        its place and only its value changes. */
    function Set(k: string, v: V): (d: ODict<V>)
      requires Valid()
      ensures d.Valid()
      ensures d.m == m[k := v]
      ensures d.keys == if k in m then keys else keys + [k]
    {
      if k in m then ODict(keys, m[k := v]) else ODict(keys + [k], m[k := v])
    }
  }

  /** OrderedDict(): no keys. */
  function Empty<V>(): (d: ODict<V>)
    ensures d.Valid() && d.keys == [] && d.m == map[]
  {
    ODict([], map[])
  }
}
