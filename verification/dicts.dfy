/** Python's `dict`: a finite map that remembers insertion order. Assigning to a
    key already present changes its value and keeps its place. */
module Dicts {

  datatype Dict<K, V> = Dict(keys: seq<K>, vals: map<K, V>)

  /** The keys are listed once each, and exactly the keys of the mapping are listed. */
  ghost predicate Valid<K, V>(d: Dict<K, V>) {
    && (forall i, j :: 0 <= i < j < |d.keys| ==> d.keys[i] != d.keys[j])
    && (forall k :: k in d.vals ==> k in d.keys)
    && (forall i :: 0 <= i < |d.keys| ==> d.keys[i] in d.vals)
  }

  /** Every listed key has a value: what reading `d.items()` in order needs. */
  ghost predicate Listed<K, V>(d: Dict<K, V>) {
    forall i :: 0 <= i < |d.keys| ==> d.keys[i] in d.vals
  }

  /** `{}` */
  function Empty<K, V>(): (d: Dict<K, V>)
    ensures Valid(d) && d.keys == [] && d.vals == map[]
  {
    Dict([], map[])
  }

  /** `d[k] = v` */
  function Put<K, V>(d: Dict<K, V>, k: K, v: V): (r: Dict<K, V>)
    ensures Valid(d) ==> Valid(r)
    ensures r.vals == d.vals[k := v]
    ensures k in d.vals ==> r.keys == d.keys
    ensures k !in d.vals ==> r.keys == d.keys + [k]
  {
    if k in d.vals then Dict(d.keys, d.vals[k := v]) else Dict(d.keys + [k], d.vals[k := v])
  }

  /** `d.get(k, default)` */
  function Get<K, V>(d: Dict<K, V>, k: K, default: V): V {
    if k in d.vals then d.vals[k] else default
  }

  /** The same keys in the same order, each value passed through `f`. */
  function MapValues<K, V, W>(d: Dict<K, V>, f: V -> W): (r: Dict<K, W>)
    ensures r.keys == d.keys && r.vals.Keys == d.vals.Keys
    ensures forall k :: k in d.vals ==> r.vals[k] == f(d.vals[k])
    ensures Valid(d) ==> Valid(r)
  {
    Dict(d.keys, map k | k in d.vals :: f(d.vals[k]))
  }
}
