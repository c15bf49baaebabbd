/** A Python dictionary (or JSON object) from strings to strings: its
    contents and the insertion order in which Python iterates its keys. */
module Dicts {
  import opened Seqs

  datatype Dict = Dict(keys: seq<string>, values: map<string, string>) {
    /** Every key occurs once in the order, and the order lists exactly the keys. */
    ghost predicate Valid() {
      Distinct(keys) && (forall k :: k in values <==> k in keys)
    }
  }

  /** `d[k] = v`: an existing key keeps its place, a new key goes last. */
  function Put(d: Dict, k: string, v: string): (r: Dict)
    requires d.Valid()
    ensures r.Valid()
    ensures r.values == d.values[k := v]
    ensures r.keys == if k in d.values then d.keys else d.keys + [k]
    ensures |r.values| == if k in d.values then |d.values| else |d.values| + 1
  {
    Dict(if k in d.values then d.keys else d.keys + [k], d.values[k := v])
  }

  /** `del d[k]`, which Python only allows for a present key. */
  function Del(d: Dict, k: string): (r: Dict)
    requires d.Valid() && k in d.values
    ensures r.Valid()
    ensures r.values == d.values - {k}
    ensures r.keys == Without(d.keys, k)
    ensures |r.values| == |d.values| - 1
  {
    var m := d.values - {k};
    assert m.Keys == d.values.Keys - {k};
    Dict(Without(d.keys, k), m)
  }

  /** `d[n] = d[o]; del d[o]` for a present `o` and an absent `n`: the
      value moves to the new key, which goes last; the size is kept. */
  function Move(d: Dict, o: string, n: string): (r: Dict)
    requires d.Valid() && o in d.values && n !in d.values
    ensures r.Valid()
    ensures r.values == d.values[n := d.values[o]] - {o}
    ensures r.keys == Without(d.keys, o) + [n]
    ensures |r.values| == |d.values|
  {
    WithoutAppend(d.keys, o, n);
    Del(Put(d, n, d.values[o]), o)
  }
}
