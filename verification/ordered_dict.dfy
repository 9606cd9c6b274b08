/** Python dictionaries keep their keys in insertion order. This module models a
    dict as a list of (key, value) pairs and gives the operations the connectors
    use: lookup, `d[k] = v`, `d.update(other)` and `d.pop(k)`. */
module OrderedDict {
  import opened Wrappers

  type Dict<K, V> = seq<(K, V)>

  function Keys<K, V>(d: Dict<K, V>): (ks: seq<K>)
    ensures |ks| == |d|
    ensures forall i :: 0 <= i < |d| ==> ks[i] == d[i].0
  {
    if |d| == 0 then [] else [d[0].0] + Keys(d[1..])
  }

  lemma KeysAppend<K, V>(a: Dict<K, V>, b: Dict<K, V>)
    ensures Keys(a + b) == Keys(a) + Keys(b)
  {
  }

  /** No key occurs twice, as in every Python dict. */
  predicate UniqueKeys<K(==), V>(d: Dict<K, V>) {
    |d| == 0 || (d[0].0 !in Keys(d[1..]) && UniqueKeys(d[1..]))
  }

  /** `d.get(k)`: the value stored under `k`, if any. */
  function Get<K(==, !new), V>(d: Dict<K, V>, k: K): (r: Option<V>)
    ensures r.Some? <==> k in Keys(d)
    ensures r.Some? ==> exists i :: 0 <= i < |d| && d[i] == (k, r.value)
  {
    if |d| == 0 then None
    else if d[0].0 == k then Some(d[0].1)
    else
      var r := Get(d[1..], k);
      assert Keys(d) == [d[0].0] + Keys(d[1..]);
      assert r.Some? ==> exists i :: 0 <= i < |d[1..]| && d[1..][i] == (k, r.value);
      r
  }

  /** The value of the last pair with key `k`; this is what building a dict from
      the pairs in order leaves under `k`. */
  function GetLast<K(==, !new), V>(d: Dict<K, V>, k: K): (r: Option<V>)
    ensures r.Some? <==> k in Keys(d)
    ensures r.Some? ==> exists i :: 0 <= i < |d| && d[i] == (k, r.value)
  {
    if |d| == 0 then None
    else if d[|d| - 1].0 == k then Some(d[|d| - 1].1)
    else
      var init := d[..|d| - 1];
      var r := GetLast(init, k);
      assert Keys(d) == Keys(init) + [d[|d| - 1].0];
      assert r.Some? ==> exists i :: 0 <= i < |init| && init[i] == (k, r.value);
      assert forall i :: 0 <= i < |init| ==> init[i] == d[i];
      r
  }

  /** Unique keys are pairwise distinct, position by position. */
  lemma {:induction false} UniqueKeysDistinct<K, V>(d: Dict<K, V>)
    requires UniqueKeys(d)
    ensures forall i, j :: 0 <= i < j < |d| ==> d[i].0 != d[j].0
  {
    if |d| > 0 {
      var tail := d[1..];
      UniqueKeysDistinct(tail);
      forall i, j | 0 <= i < j < |d| ensures d[i].0 != d[j].0 {
        assert d[j] == tail[j - 1];
        if i == 0 {
          assert Keys(tail)[j - 1] == d[j].0;
        } else {
          assert d[i] == tail[i - 1];
        }
      }
    }
  }

  /** A pair of a dict with distinct keys is what its key looks up. */
  lemma {:induction false} GetAt<K(!new), V>(d: Dict<K, V>, i: nat)
    requires UniqueKeys(d) && i < |d|
    ensures Get(d, d[i].0) == Some(d[i].1)
  {
    if i > 0 {
      var tail := d[1..];
      GetAt(tail, i - 1);
      assert tail[i - 1] == d[i];
      assert Keys(tail)[i - 1] == d[i].0;
    }
  }

  /** With unique keys the first and the last pair with a key are the same pair. */
  lemma GetLastUnique<K(!new), V>(d: Dict<K, V>, k: K)
    requires UniqueKeys(d)
    ensures GetLast(d, k) == Get(d, k)
  {
    UniqueKeysDistinct(d);
    if Get(d, k).Some? {
      var i :| 0 <= i < |d| && d[i] == (k, Get(d, k).value);
      var j :| 0 <= j < |d| && d[j] == (k, GetLast(d, k).value);
      assert i == j;
    }
  }

  /** `d[k] = v`: an existing key keeps its position, a new key goes last. */
  function Put<K(==, !new), V>(d: Dict<K, V>, k: K, v: V): (r: Dict<K, V>)
    ensures Get(r, k) == Some(v)
    ensures forall k' :: k' != k ==> Get(r, k') == Get(d, k')
    ensures Keys(r) == if k in Keys(d) then Keys(d) else Keys(d) + [k]
    ensures UniqueKeys(d) ==> UniqueKeys(r)
  {
    if |d| == 0 then [(k, v)]
    else if d[0].0 == k then
      assert Keys(d) == [k] + Keys(d[1..]);
      [(k, v)] + d[1..]
    else
      var rest := Put(d[1..], k, v);
      PutBehindGet(d, k, v, rest);
      PutBehindOthers(d, k, rest);
      PutBehindKeys(d, k, rest);
      PutBehindUnique(d, k, rest);
      [d[0]] + rest
  }

  // Storing `k` behind a first pair with another key leaves that pair first;
  // one lemma per clause of `Put`'s contract keeps each step small.

  lemma PutBehindGet<K(!new), V>(d: Dict<K, V>, k: K, v: V, rest: Dict<K, V>)
    requires |d| > 0 && d[0].0 != k && Get(rest, k) == Some(v)
    ensures Get([d[0]] + rest, k) == Some(v)
  {
    assert ([d[0]] + rest)[1..] == rest;
  }

  lemma PutBehindOthers<K(!new), V>(d: Dict<K, V>, k: K, rest: Dict<K, V>)
    requires |d| > 0 && forall k' :: k' != k ==> Get(rest, k') == Get(d[1..], k')
    ensures forall k' :: k' != k ==> Get([d[0]] + rest, k') == Get(d, k')
  {
    assert ([d[0]] + rest)[1..] == rest;
  }

  lemma PutBehindKeys<K(!new), V>(d: Dict<K, V>, k: K, rest: Dict<K, V>)
    requires |d| > 0 && d[0].0 != k
    requires Keys(rest) == if k in Keys(d[1..]) then Keys(d[1..]) else Keys(d[1..]) + [k]
    ensures Keys([d[0]] + rest) == if k in Keys(d) then Keys(d) else Keys(d) + [k]
  {
    assert Keys(d) == [d[0].0] + Keys(d[1..]);
    KeysAppend([d[0]], rest);
  }

  lemma PutBehindUnique<K(!new), V>(d: Dict<K, V>, k: K, rest: Dict<K, V>)
    requires |d| > 0 && d[0].0 != k
    requires Keys(rest) == if k in Keys(d[1..]) then Keys(d[1..]) else Keys(d[1..]) + [k]
    requires UniqueKeys(d[1..]) ==> UniqueKeys(rest)
    ensures UniqueKeys(d) ==> UniqueKeys([d[0]] + rest)
  {
    assert ([d[0]] + rest)[1..] == rest;
  }

  /** `d[k] = v` stores nothing but the old pairs and the new one. */
  lemma {:induction false} PutEntries<K(!new), V>(d: Dict<K, V>, k: K, v: V)
    ensures forall e :: e in Put(d, k, v) ==> e in d || e == (k, v)
  {
    if |d| > 0 && d[0].0 != k {
      PutEntries(d[1..], k, v);
      assert Put(d, k, v) == [d[0]] + Put(d[1..], k, v);
    }
  }

  /** `d.update(r)`: the pairs of `r` are stored in order, so the last pair of
      `r` with a given key decides its value. */
  function Update<K(==, !new), V>(d: Dict<K, V>, r: Dict<K, V>): (u: Dict<K, V>)
    ensures forall k :: Get(u, k) == if k in Keys(r) then GetLast(r, k) else Get(d, k)
    ensures forall k :: k in Keys(u) <==> k in Keys(d) || k in Keys(r)
    ensures UniqueKeys(d) ==> UniqueKeys(u)
  {
    if |r| == 0 then d
    else
      var init := r[..|r| - 1];
      var last := r[|r| - 1];
      assert Keys(r) == Keys(init) + [last.0];
      Put(Update(d, init), last.0, last.1)
  }

  lemma UpdateLast<K(!new), V>(d: Dict<K, V>, r: Dict<K, V>)
    requires |r| > 0
    ensures Update(d, r) == Put(Update(d, r[..|r| - 1]), r[|r| - 1].0, r[|r| - 1].1)
  {
  }

  lemma DropLast<T>(s: seq<T>)
    requires |s| > 0
    ensures s == s[..|s| - 1] + [s[|s| - 1]]
  {
  }

  /** `d.pop(k)` on a key that is present: the first pair with key `k` goes. */
  function Remove<K(==, !new), V>(d: Dict<K, V>, k: K): (r: Dict<K, V>)
    ensures UniqueKeys(d) ==> UniqueKeys(r) && Get(r, k) == None
    ensures forall k' :: k' != k ==> Get(r, k') == Get(d, k')
    ensures forall k' :: k' in Keys(r) ==> k' in Keys(d)
  {
    if |d| == 0 then []
    else if d[0].0 == k then
      assert UniqueKeys(d) ==> k !in Keys(d[1..]);
      d[1..]
    else
      var rest := Remove(d[1..], k);
      var r := [d[0]] + rest;
      assert r[1..] == rest;
      assert Keys(d) == [d[0].0] + Keys(d[1..]);
      assert Keys(r) == [d[0].0] + Keys(rest);
      r
  }
}

