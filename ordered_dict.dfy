/**
 A Python `dict` as the tracker uses it: key/value pairs kept in insertion order,
 where assigning to an existing key replaces its value in place and assigning to a
 new key appends it. `ToMap` gives the mathematical map the dict stands for.
 */
module OrderedDict {
  import opened Lists

  datatype Option<T> = None | Some(value: T)

  type Dict<K, V> = seq<(K, V)>

  function Keys<K, V>(d: Dict<K, V>): (ks: seq<K>)
    ensures |ks| == |d|
    ensures forall i :: 0 <= i < |d| ==> ks[i] == d[i].0
  {
    seq(|d|, i requires 0 <= i < |d| => d[i].0)
  }

  /** Every key occurs once, as in a real `dict`. */
  predicate DistinctKeys<K(==), V>(d: Dict<K, V>) {
    NoDuplicates(Keys(d))
  }

  /** `d[k]` when present. */
  function Get<K(==), V>(d: Dict<K, V>, k: K): (r: Option<V>)
    ensures r.Some? <==> k in Keys(d)
    ensures r.Some? ==> (k, r.value) in d
    ensures DistinctKeys(d) ==> forall i :: 0 <= i < |d| && d[i].0 == k ==> r == Some(d[i].1)
  {
    if d == [] then None
    else if d[0].0 == k then Some(d[0].1)
    else
      assert Keys(d) == [d[0].0] + Keys(d[1..]);
      Get(d[1..], k)
  }

  /** `d.get(k, default)`. */
  function GetOr<K(==), V>(d: Dict<K, V>, k: K, default: V): (r: V)
    ensures k in Keys(d) ==> Get(d, k) == Some(r)
    ensures k !in Keys(d) ==> r == default
  {
    match Get(d, k)
    case Some(v) => v
    case None => default
  }

  /** `d[k] = v`. */
  function Put<K(==), V>(d: Dict<K, V>, k: K, v: V): (r: Dict<K, V>)
    ensures |d| <= |r| <= |d| + 1
    ensures (k, v) in r
  {
    if d == [] then [(k, v)]
    else if d[0].0 == k then [(k, v)] + d[1..]
    else [d[0]] + Put(d[1..], k, v)
  }

  /** `d[k] = v`: an existing key keeps its place, a new key goes last. */
  lemma {:induction false} PutKeys<K, V>(d: Dict<K, V>, k: K, v: V)
    ensures k in Keys(d) ==> Keys(Put(d, k, v)) == Keys(d)
    ensures k !in Keys(d) ==> Keys(Put(d, k, v)) == Keys(d) + [k]
  {
    if d != [] {
      assert d == [d[0]] + d[1..];
      KeysCons(d[0], d[1..]);
      if d[0].0 == k {
        KeysCons((k, v), d[1..]);
      } else {
        PutKeys(d[1..], k, v);
        KeysCons(d[0], Put(d[1..], k, v));
      }
    }
  }

  lemma KeysCons<K, V>(x: (K, V), d: Dict<K, V>)
    ensures Keys([x] + d) == [x.0] + Keys(d)
  {
    assert forall i :: 0 < i <= |d| ==> ([x] + d)[i] == d[i - 1];
  }

  /** After `d[k] = v`, `k` holds `v` and every other key holds what it held. */
  lemma {:induction false} PutGet<K, V>(d: Dict<K, V>, k: K, v: V, k': K)
    ensures Get(Put(d, k, v), k') == if k' == k then Some(v) else Get(d, k')
  {
    if d != [] && d[0].0 != k {
      PutGet(d[1..], k, v, k');
      assert Put(d, k, v) == [d[0]] + Put(d[1..], k, v);
    }
  }

  /** `d[k] = v` never gives a key a second entry. */
  lemma PutKeepsKeysDistinct<K, V>(d: Dict<K, V>, k: K, v: V)
    requires DistinctKeys(d)
    ensures DistinctKeys(Put(d, k, v))
  {
    PutKeys(d, k, v);
    if k !in Keys(d) {
      AppendFreshKeepsDistinct(Keys(d), k);
    }
  }

  /** The map a dict denotes; the first pair for a key wins, as `Get` reads it. */
  function ToMap<K, V>(d: Dict<K, V>): (m: map<K, V>)
    ensures forall i :: 0 <= i < |d| ==> d[i].0 in m
    ensures forall k :: k in m ==> k in Keys(d)
  {
    if d == [] then map[]
    else
      assert Keys(d) == [d[0].0] + Keys(d[1..]);
      ToMap(d[1..])[d[0].0 := d[0].1]
  }

  /** Looking a key up in the dict agrees with looking it up in the map it denotes. */
  lemma {:induction false} GetAgreesWithMap<K, V>(d: Dict<K, V>, k: K)
    ensures Get(d, k) == if k in ToMap(d) then Some(ToMap(d)[k]) else None
  {
    if d != [] && d[0].0 != k {
      GetAgreesWithMap(d[1..], k);
    }
  }

  /** On the map a dict denotes, `d[k] = v` is the map update `m[k := v]`. */
  lemma {:induction false} PutIsMapUpdate<K, V>(d: Dict<K, V>, k: K, v: V)
    ensures ToMap(Put(d, k, v)) == ToMap(d)[k := v]
  {
    if d != [] && d[0].0 != k {
      PutIsMapUpdate(d[1..], k, v);
      assert Put(d, k, v) == [d[0]] + Put(d[1..], k, v);
    }
  }
}
