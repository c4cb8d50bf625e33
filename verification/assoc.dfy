/**
 * Python dictionaries as association lists in insertion order: assigning to
 * an existing key replaces its value in place, a new key goes at the end.
 */
module AssocList {
  import opened Wrappers

  type Assoc<K(==,!new), V> = seq<(K, V)>

  /** No key occurs twice. */
  predicate DistinctKeys<K(==,!new), V>(m: Assoc<K, V>)
  {
    forall i, j :: 0 <= i < j < |m| ==> m[i].0 != m[j].0
  }

  function Keys<K(==,!new), V>(m: Assoc<K, V>): (ks: seq<K>)
    ensures |ks| == |m|
    ensures forall i :: 0 <= i < |m| ==> ks[i] == m[i].0
  {
    if |m| == 0 then [] else [m[0].0] + Keys(m[1..])
  }

  /** `d.get(k)`: the value of the first pair with key k. */
  function Get<K(==,!new), V>(m: Assoc<K, V>, k: K): (r: Option<V>)
    ensures r.None? <==> forall i :: 0 <= i < |m| ==> m[i].0 != k
    ensures r.Some? ==> exists i :: 0 <= i < |m| && m[i] == (k, r.value)
  {
    if |m| == 0 then None
    else if m[0].0 == k then Some(m[0].1)
    else Get(m[1..], k)
  }

  /** `d[k] = v`. */
  function Put<K(==,!new), V>(m: Assoc<K, V>, k: K, v: V): (r: Assoc<K, V>)
    ensures Get(r, k) == Some(v)
    ensures forall k' :: k' != k ==> Get(r, k') == Get(m, k')
    ensures Get(m, k).None? ==> r == m + [(k, v)]
    ensures Get(m, k).Some? ==> |r| == |m| && Keys(r) == Keys(m)
    ensures DistinctKeys(m) ==> DistinctKeys(r)
  {
    if |m| == 0 then [(k, v)]
    else if m[0].0 == k then
      GetCons((k, v), m[1..]);
      [(k, v)] + m[1..]
    else
      var rest := Put(m[1..], k, v);
      GetCons(m[0], rest);
      OthersCons(m, k, rest);
      DistinctTail(m);
      DistinctCons(m[0], rest);
      ConsAppend(m, (k, v));
      [m[0]] + rest
  }

  lemma ConsAppend<K(!new), V>(m: Assoc<K, V>, x: (K, V))
    requires |m| > 0
    ensures [m[0]] + (m[1..] + [x]) == m + [x]
  {
  }

  /** Putting k behind a first pair with another key leaves the other keys' values alone. */
  lemma OthersCons<K(!new), V>(m: Assoc<K, V>, k: K, rest: Assoc<K, V>)
    requires |m| > 0 && m[0].0 != k
    requires forall k' :: k' != k ==> Get(rest, k') == Get(m[1..], k')
    ensures forall k' :: k' != k ==> Get([m[0]] + rest, k') == Get(m, k')
  {
    GetCons(m[0], rest);
  }

  /** Looking up in a list with one more pair in front. */
  lemma GetCons<K(!new), V>(x: (K, V), rest: Assoc<K, V>)
    ensures forall k :: Get([x] + rest, k) == if x.0 == k then Some(x.1) else Get(rest, k)
  {
    assert ([x] + rest)[1..] == rest;
  }

  lemma DistinctTail<K(!new), V>(m: Assoc<K, V>)
    requires |m| > 0
    ensures DistinctKeys(m) ==> DistinctKeys(m[1..]) && Get(m[1..], m[0].0).None?
  {
    if DistinctKeys(m) {
      assert forall i :: 0 <= i < |m| - 1 ==> m[1..][i] == m[i + 1];
    }
  }

  /** A pair whose key the rest lacks keeps the keys distinct. */
  lemma DistinctCons<K(!new), V>(x: (K, V), rest: Assoc<K, V>)
    ensures DistinctKeys(rest) && Get(rest, x.0).None? ==> DistinctKeys([x] + rest)
  {
    if DistinctKeys(rest) && Get(rest, x.0).None? {
      assert forall i :: 0 < i <= |rest| ==> ([x] + rest)[i] == rest[i - 1];
    }
  }

  /** Reading back after a sequence of assignments gives the last value assigned to the key. */
  lemma PutOverwrites<K(!new), V>(m: Assoc<K, V>, k: K, v1: V, v2: V)
    ensures Put(Put(m, k, v1), k, v2) == Put(m, k, v2)
  {
    if |m| > 0 && m[0].0 != k {
      PutOverwrites(m[1..], k, v1, v2);
    }
  }
}
