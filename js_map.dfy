/** The JavaScript `Map` the registries are built on. A `Map` iterates its
    keys in insertion order; `set` on a key already present keeps that key's
    place, `set` on a new key appends it, `delete` takes the key out. */
module JsMap {
  import opened Results
  import opened Seqs

  /** The test that keeps every key but `k`. */
  function Other(k: string): string -> bool {
    x => x != k
  }

  /** The values stored under `ks`, in the order of `ks`. */
  function ValuesOf<V>(ks: seq<string>, m: map<string, V>): (vs: seq<V>)
    requires forall i :: 0 <= i < |ks| ==> ks[i] in m
    ensures |vs| == |ks|
    ensures forall i :: 0 <= i < |ks| ==> vs[i] == m[ks[i]]
    decreases |ks|
  {
    if ks == [] then [] else ValuesOf(ks[..|ks| - 1], m) + [m[ks[|ks| - 1]]]
  }

  datatype OrderedMap<V> = OrderedMap(keys: seq<string>, entries: map<string, V>) {

    /** Each key listed once, and the listed keys are exactly the stored ones. */
    ghost predicate Valid() {
      Distinct(keys) && forall k :: k in entries <==> k in keys
    }

    /** `Map.prototype.set` */
    function Set(k: string, v: V): (r: OrderedMap<V>)
      requires Valid()
      ensures r.Valid()
      ensures r.entries == entries[k := v]
      ensures k in entries ==> r.keys == keys
      ensures k !in entries ==> r.keys == keys + [k]
    {
      if k in entries then OrderedMap(keys, entries[k := v])
      else OrderedMap(keys + [k], entries[k := v])
    }

    /** `Map.prototype.delete` */
    function Delete(k: string): (r: OrderedMap<V>)
      requires Valid()
      ensures r.Valid()
      ensures r.entries == entries - {k}
      ensures r.keys == Filter(keys, Other(k))
      ensures k !in entries ==> r == this
    {
      if k !in entries then
        FilterAll(keys, Other(k));
        assert entries - {k} == entries;
        this
      else
        FilterDistinct(keys, Other(k));
        FilterMembership(keys, Other(k));
        OrderedMap(Filter(keys, Other(k)), entries - {k})
    }

    /** `Map.prototype.values()`, spread into an array. */
    function Values(): (vs: seq<V>)
      requires Valid()
      ensures |vs| == |keys|
      ensures forall i :: 0 <= i < |keys| ==> vs[i] == entries[keys[i]]
    {
      ValuesOf(keys, entries)
    }
  }

  /** The listed values are exactly the stored ones, and none is listed when
      nothing is stored. */
  lemma ValuesAreStored<V>(m: OrderedMap<V>)
    requires m.Valid()
    ensures forall v :: v in m.Values() <==> v in m.entries.Values
    ensures m.Values() == [] <==> m.entries == map[]
  {
    var vs := m.Values();
    forall v | v in m.entries.Values ensures v in vs {
      var k :| k in m.entries && m.entries[k] == v;
      var i :| 0 <= i < |m.keys| && m.keys[i] == k;
      assert vs[i] == v;
    }
    forall v | v in vs ensures v in m.entries.Values {
      var i :| 0 <= i < |vs| && vs[i] == v;
      assert m.keys[i] in m.entries;
    }
    if m.entries != map[] {
      var k :| k in m.entries;
      assert k in m.keys;
      assert |vs| == |m.keys| > 0;
    }
  }

  function Empty<V>(): (r: OrderedMap<V>)
    ensures r.Valid() && r.entries == map[]
  {
    OrderedMap([], map[])
  }

  /** Writing a value and then deleting its key is the same as deleting it. */
  lemma DeleteAfterSet<V>(m: OrderedMap<V>, k: string, v: V)
    requires m.Valid() && k in m.entries
    ensures m.Set(k, v).Delete(k) == m.Delete(k)
  {
    assert m.entries[k := v] - {k} == m.entries - {k};
  }
}
