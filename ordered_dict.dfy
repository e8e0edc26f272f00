/** A Python `dict` with string keys, as `json.load` builds it and
    `json.dump` writes it: a finite map whose keys remember the order in
    which they were first inserted. */
module OrderedDict {
  import opened Lists

  datatype Dict<V> = Dict(keys: seq<string>, entries: map<string, V>)

  /** Every key is listed once in the order, and the order lists exactly the keys. */
  ghost predicate Valid<V>(d: Dict<V>) {
    && NoDup(d.keys)
    && (forall k :: k in d.entries <==> k in d.keys)
  }

  /** `{}` */
  function Empty<V>(): (d: Dict<V>)
    ensures Valid(d) && d.entries == map[] && d.keys == []
  {
    Dict([], map[])
  }

  /** `not d`: the dictionary has no entries. */
  predicate IsEmpty<V>(d: Dict<V>) {
    d.keys == []
  }

  lemma EmptyIffNoEntries<V>(d: Dict<V>)
    requires Valid(d)
    ensures IsEmpty(d) <==> d.entries == map[]
  {
    if !IsEmpty(d) {
      assert d.keys[0] in d.entries;
    }
  }

  /** `d[k] = v`: an existing key keeps its place in the order, a new key
      goes last. */
  function Put<V>(d: Dict<V>, k: string, v: V): (r: Dict<V>)
    requires Valid(d)
    ensures Valid(r)
    ensures r.entries == d.entries[k := v]
    ensures k in d.entries ==> r.keys == d.keys
    ensures k !in d.entries ==> r.keys == d.keys + [k]
  {
    if k in d.entries then Dict(d.keys, d.entries[k := v])
    else Dict(d.keys + [k], d.entries[k := v])
  }

  /** `del d[k]`: the key leaves the map and the order; the other keys keep
      their relative order. */
  function Delete<V>(d: Dict<V>, k: string): (r: Dict<V>)
    requires Valid(d) && k in d.entries
    ensures Valid(r)
    ensures r.entries == d.entries - {k}
    ensures |r.keys| == |d.keys| - 1
    ensures r.keys == d.keys[..IndexOf(d.keys, k)] + d.keys[IndexOf(d.keys, k) + 1..]
  {
    RemoveFirstNoDup(d.keys, k);
    RemoveFirstSplices(d.keys, k);
    Dict(RemoveFirst(d.keys, k), d.entries - {k})
  }
}
