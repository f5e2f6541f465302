/** Python dictionaries keep their keys in insertion order, and assigning to
    an existing key updates its entry in place. The model represents such a
    dictionary as a list of key/value pairs with distinct keys. */
module Dicts {
  import opened Outcomes

  type Dict<K, V> = seq<(K, V)>

  predicate UniqueKeys<K(==), V>(d: Dict<K, V>)
  {
    forall i, j :: 0 <= i < j < |d| ==> d[i].0 != d[j].0
  }

  /** The keys in insertion order (Python iteration order). */
  function Keys<K, V>(d: Dict<K, V>): (r: seq<K>)
    ensures |r| == |d|
    ensures forall i :: 0 <= i < |d| ==> r[i] == d[i].0
  {
    seq(|d|, i requires 0 <= i < |d| => d[i].0)
  }

  /** `d.get(k)`. */
  function Get<K(==), V>(d: Dict<K, V>, k: K): (r: Option<V>)
    ensures r.None? <==> k !in Keys(d)
    ensures UniqueKeys(d) ==> forall i :: 0 <= i < |d| && d[i].0 == k ==> r == Some(d[i].1)
  {
    if d == [] then None
    else if d[0].0 == k then Some(d[0].1)
    else
      assert Keys(d) == [d[0].0] + Keys(d[1..]);
      Get(d[1..], k)
  }

  /** `d[k] = v`: an existing entry of `k` is updated where it stands,
      otherwise the pair is appended. */
  function Put<K(==), V>(d: Dict<K, V>, k: K, v: V): (r: Dict<K, V>)
    requires UniqueKeys(d)
    ensures UniqueKeys(r)
    ensures Keys(r) == if k in Keys(d) then Keys(d) else Keys(d) + [k]
  {
    if k in Keys(d) then
      var r := seq(|d|, i requires 0 <= i < |d| => if d[i].0 == k then (k, v) else d[i]);
      assert forall i :: 0 <= i < |d| ==> r[i].0 == d[i].0;
      assert Keys(r) == Keys(d);
      r
    else
      var r := d + [(k, v)];
      assert Keys(r) == Keys(d) + [k];
      r
  }

  /** After `d[k] = v`, `k` maps to `v` and every other key is unaffected. */
  lemma {:induction false} PutGet<K, V>(d: Dict<K, V>, k: K, v: V, k': K)
    requires UniqueKeys(d)
    ensures Get(Put(d, k, v), k') == if k' == k then Some(v) else Get(d, k')
  {
    if d != [] {
      var r := Put(d, k, v);
      if d[0].0 == k {
        assert r[1..] == d[1..];
      } else {
        assert r[1..] == Put(d[1..], k, v);
        PutGet(d[1..], k, v, k');
      }
    }
  }

  /** The key of the last entry whose value is `v` (a reference definition,
      scanning from the end). */
  function LastKeyWithValue<K, V(==)>(d: Dict<K, V>, v: V): Option<K>
  {
    if d == [] then None
    else if d[|d| - 1].1 == v then Some(d[|d| - 1].0)
    else LastKeyWithValue(d[..|d| - 1], v)
  }

  /** `{v: k for k, v in d.items()}`: iterates in insertion order, so the
      last key carrying a value wins. */
  function Invert<K, V(==)>(d: Dict<K, V>): (r: Dict<V, K>)
    ensures UniqueKeys(r)
  {
    if d == [] then [] else Put(Invert(d[..|d| - 1]), d[|d| - 1].1, d[|d| - 1].0)
  }

  /** Looking a value up in the inverted dictionary finds the last key that
      carried it. */
  lemma {:induction false} InvertLookup<K, V>(d: Dict<K, V>, v: V)
    ensures Get(Invert(d), v) == LastKeyWithValue(d, v)
  {
    if d != [] {
      InvertLookup(d[..|d| - 1], v);
      PutGet(Invert(d[..|d| - 1]), d[|d| - 1].1, d[|d| - 1].0, v);
    }
  }

  /** When the values are distinct, inverting undoes the lookup. */
  lemma InvertInjective<K, V>(d: Dict<K, V>, i: nat)
    requires i < |d|
    requires forall a, b :: 0 <= a < b < |d| ==> d[a].1 != d[b].1
    ensures Get(Invert(d), d[i].1) == Some(d[i].0)
  {
    InvertLookup(d, d[i].1);
    LastKeyIsUnique(d, i);
  }

  lemma {:induction false} LastKeyIsUnique<K, V>(d: Dict<K, V>, i: nat)
    requires i < |d|
    requires forall a, b :: 0 <= a < b < |d| ==> d[a].1 != d[b].1
    ensures LastKeyWithValue(d, d[i].1) == Some(d[i].0)
  {
    if i < |d| - 1 {
      LastKeyIsUnique(d[..|d| - 1], i);
    }
  }
}
