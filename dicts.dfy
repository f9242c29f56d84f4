/** Python's insertion-ordered dict with string keys: the keys in order of first insertion, and the mapping. */
module Dicts {

  datatype Dict<V> = Dict(order: seq<string>, entries: map<string, V>)

  /** The order lists every key exactly once. */
  ghost predicate WellFormed<V>(d: Dict<V>) {
    && (forall i, j :: 0 <= i < j < |d.order| ==> d.order[i] != d.order[j])
    && (forall k :: k in d.entries <==> k in d.order)
  }

  /** `d.setdefault(k, []).append(v)`. */
  function AppendTo<T>(d: Dict<seq<T>>, k: string, v: T): Dict<seq<T>> {
    if k in d.entries then Dict(d.order, d.entries[k := d.entries[k] + [v]])
    else Dict(d.order + [k], d.entries[k := [v]])
  }

  /** `d[k] = v`. */
  function Put<V>(d: Dict<V>, k: string, v: V): Dict<V> {
    if k in d.entries then Dict(d.order, d.entries[k := v]) else Dict(d.order + [k], d.entries[k := v])
  }

  /** `{k: f(k, v) for k, v in d.items()}`. */
  function MapValues<U, V>(d: Dict<U>, f: (string, U) -> V): Dict<V> {
    Dict(d.order, map k | k in d.entries :: f(k, d.entries[k]))
  }

  /** The first `i` keys of `d` with their values. */
  function Prefix<U>(d: Dict<U>, i: nat): Dict<U>
    requires i <= |d.order|
  {
    Dict(d.order[..i], map k | k in d.order[..i] && k in d.entries :: d.entries[k])
  }

  /** Walking the keys in order and storing `f` of each entry builds MapValues one key at a time. */
  lemma MapValuesPrefixStep<U, V>(d: Dict<U>, f: (string, U) -> V, i: nat)
    requires WellFormed(d) && i < |d.order|
    ensures d.order[i] in d.entries
    ensures MapValues(Prefix(d, i + 1), f)
         == Put(MapValues(Prefix(d, i), f), d.order[i], f(d.order[i], d.entries[d.order[i]]))
  {
    var k := d.order[i];
    assert d.order[..i + 1] == d.order[..i] + [k];
    assert k !in d.order[..i];
    var before := Prefix(d, i);
    var after := Prefix(d, i + 1);
    assert after.entries == before.entries[k := d.entries[k]];
    MapValuesUpdate(before.entries, after.entries, f, k, d.entries[k]);
  }

  lemma MapValuesUpdate<U, V>(m: map<string, U>, m': map<string, U>, f: (string, U) -> V, k: string, v: U)
    requires m' == m[k := v]
    ensures (map j | j in m' :: f(j, m'[j])) == (map j | j in m :: f(j, m[j]))[k := f(k, v)]
  {
  }

  lemma PrefixAll<U>(d: Dict<U>)
    requires WellFormed(d)
    ensures Prefix(d, |d.order|) == d
  {
    assert d.order[..|d.order|] == d.order;
  }
}
