/** A string-to-string dictionary that remembers insertion order: the runtime
    dictionary enumerates its keys (and values) in insertion order as long as
    nothing is removed, and setting an existing key keeps its position. */
module OrderedDict {
  import opened Seqs

  datatype Dict = Dict(keys: seq<string>, m: map<string, string>)

  ghost predicate Valid(d: Dict) {
    NoDup(d.keys) && forall k :: k in d.m <==> k in d.keys
  }

  /** `d[k] = v`. */
  function Put(d: Dict, k: string, v: string): (r: Dict)
    requires Valid(d)
    ensures Valid(r)
    ensures r.m == d.m[k := v]
    ensures r.keys == if k in d.m then d.keys else d.keys + [k]
  {
    if k in d.m then Dict(d.keys, d.m[k := v]) else Dict(d.keys + [k], d.m[k := v])
  }

  /** The values of `m` in the order of `keys` (the `Values` enumeration). */
  function ValuesOf(keys: seq<string>, m: map<string, string>): (vals: seq<string>)
    requires forall k :: k in keys ==> k in m
    ensures |vals| == |keys|
    ensures forall i :: 0 <= i < |keys| ==> vals[i] == m[keys[i]]
  {
    if keys == [] then [] else [m[keys[0]]] + ValuesOf(keys[1..], m)
  }
}
