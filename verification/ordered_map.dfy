/**
 * Python's `dict` as the script uses it: an insertion-ordered mapping.
 * It is a sequence of key/value pairs with distinct keys. Assigning to an
 * existing key replaces its value in place and keeps the key's position;
 * assigning to a new key appends it.
 */
module OrderedMap {
  import opened Basics

  /** The keys in iteration order. */
  function Keys<K, V>(d: seq<(K, V)>): (ks: seq<K>)
    ensures |ks| == |d|
    ensures forall i :: 0 <= i < |d| ==> ks[i] == d[i].0
  {
    seq(|d|, i requires 0 <= i < |d| => d[i].0)
  }

  /** No key occurs twice, as in every Python `dict`. */
  predicate DistinctKeys<K(==,!new), V>(d: seq<(K, V)>)
  {
    forall i, j :: 0 <= i < j < |d| ==> d[i].0 != d[j].0
  }

  /** The position of `k` among the keys, if it is one of them. */
  function Find<K(==), V>(d: seq<(K, V)>, k: K): (r: Option<nat>)
    ensures r.None? <==> k !in Keys(d)
    ensures r.Some? ==> r.value < |d| && d[r.value].0 == k
    ensures r.Some? ==> forall j :: 0 <= j < r.value ==> d[j].0 != k
  {
    if d == [] then None
    else if d[0].0 == k then Some(0)
    else
      assert Keys(d) == [d[0].0] + Keys(d[1..]);
      match Find(d[1..], k)
      case None => None
      case Some(i) => Some(i + 1)
  }

  /** With distinct keys, the position of a stored key is the one it is stored at. */
  lemma FindAt<K(!new), V>(d: seq<(K, V)>, i: nat)
    requires DistinctKeys(d) && i < |d|
    ensures Find(d, d[i].0) == Some(i)
  {
    var j := Find(d, d[i].0).value;
    assert d[j].0 == d[i].0;
  }

  /** `d.get(k)`: the value stored under `k`, if any. */
  function Get<K(==), V>(d: seq<(K, V)>, k: K): (r: Option<V>)
    ensures r.None? <==> k !in Keys(d)
    ensures r.Some? ==> exists i :: 0 <= i < |d| && d[i] == (k, r.value)
  {
    match Find(d, k)
    case None => None
    case Some(i) => Some(d[i].1)
  }

  /**
   * `d[k] = v`: afterwards `k` maps to `v`, every other key keeps its value,
   * and the key order is unchanged except that a new key goes last.
   */
  function Put<K(==,!new), V>(d: seq<(K, V)>, k: K, v: V): (r: seq<(K, V)>)
    requires DistinctKeys(d)
    ensures DistinctKeys(r)
    ensures Get(r, k) == Some(v)
    ensures forall k' :: k' != k ==> Get(r, k') == Get(d, k')
    ensures Keys(r) == if k in Keys(d) then Keys(d) else Keys(d) + [k]
    ensures k !in Keys(d) ==> r == d + [(k, v)]
  {
    match Find(d, k)
    case None =>
      var r := d + [(k, v)];
      assert Keys(r) == Keys(d) + [k];
      FindAt(r, |d|);
      forall k' | k' != k ensures Get(r, k') == Get(d, k') {
        if k' in Keys(d) {
          var i := Find(d, k').value;
          FindAt(d, i);
          FindAt(r, i);
        }
      }
      r
    case Some(i) =>
      var r := d[i := (k, v)];
      assert Keys(r) == Keys(d);
      FindAt(r, i);
      forall k' | k' != k ensures Get(r, k') == Get(d, k') {
        if k' in Keys(d) {
          var j := Find(d, k').value;
          FindAt(d, j);
          FindAt(r, j);
        }
      }
      r
  }
}
