/** Python's `dict`: a finite map whose keys remember the order in which they were first inserted.
    Iteration (`items()`, `values()`, a comprehension) follows that order. */
module Dicts {

  /** Every dict of the script is keyed by strings (card ids or card names). */
  type K = string

  datatype Dict<V> = Dict(order: seq<K>, store: map<K, V>)

  predicate Distinct(s: seq<K>) {
    forall i, j :: 0 <= i < j < |s| ==> s[i] != s[j]
  }

  /** Every key is listed exactly once in `order`. Every Python dict satisfies this. */
  ghost predicate Valid<V>(d: Dict<V>) {
    Distinct(d.order) && forall k :: k in d.store <==> k in d.order
  }

  /** `{}` */
  function Empty<V>(): (d: Dict<V>)
    ensures Valid(d) && d.store == map[]
  {
    Dict([], map[])
  }

  /** `d[k] = v`: a new key goes to the end of the order, an existing key keeps its place. */
  function Set<V>(d: Dict<V>, k: K, v: V): (r: Dict<V>)
    requires Valid(d)
    ensures Valid(r)
    ensures r.store == d.store[k := v]
  {
    Dict(if k in d.store then d.order else d.order + [k], d.store[k := v])
  }

  /** The order of a dict into which the elements of `s` are inserted as keys one after the other. */
  function FirstOccurrences(s: seq<K>): (r: seq<K>)
    ensures Distinct(r)
    ensures forall k :: k in r <==> k in s
  {
    if s == [] then []
    else
      var p := FirstOccurrences(s[..|s| - 1]);
      if s[|s| - 1] in s[..|s| - 1] then p else p + [s[|s| - 1]]
  }

  /** The keys of `keys` that are in `s` (when `inside`) or not in `s` (otherwise), in order. */
  function FilterKeys(keys: seq<K>, s: set<K>, inside: bool): (r: seq<K>)
    ensures forall k :: k in r <==> k in keys && (k in s) == inside
    ensures Distinct(keys) ==> Distinct(r)
  {
    if keys == [] then []
    else
      var rest := FilterKeys(keys[1..], s, inside);
      assert Distinct(keys) ==> keys[0] !in keys[1..];
      if (keys[0] in s) == inside then [keys[0]] + rest else rest
  }

  /** `{k: v for k, v in d.items() if k in s}` (when `inside`) or `... if k not in s` (otherwise). */
  function Select<V>(d: Dict<V>, s: set<K>, inside: bool): (r: Dict<V>)
    requires Valid(d)
    ensures Valid(r)
    ensures forall k :: k in r.store <==> k in d.store && (k in s) == inside
    ensures forall k :: k in r.store ==> r.store[k] == d.store[k]
  {
    Dict(FilterKeys(d.order, s, inside), map k | k in d.store && (k in s) == inside :: d.store[k])
  }

  /** The pairs `(k, store[k])` for the keys `keys`, in order. */
  function ItemsOf<V>(keys: seq<K>, store: map<K, V>): (r: seq<(K, V)>)
    requires forall k :: k in keys ==> k in store
    ensures |r| == |keys|
    ensures forall i :: 0 <= i < |keys| ==> r[i] == (keys[i], store[keys[i]])
  {
    if keys == [] then [] else [(keys[0], store[keys[0]])] + ItemsOf(keys[1..], store)
  }

  /** `d.items()` */
  function Items<V>(d: Dict<V>): (r: seq<(K, V)>)
    requires Valid(d)
    ensures |r| == |d.order|
    ensures forall i :: 0 <= i < |r| ==> r[i] == (d.order[i], d.store[d.order[i]])
  {
    ItemsOf(d.order, d.store)
  }
}
