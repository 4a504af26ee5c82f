/** A JavaScript object used as a dictionary. Its keys come back in
    insertion order (for keys that are not array indices, which symbol ids,
    compound names and paths are not), and assigning to a key that is
    already present changes the value but keeps the key's position. */
module OrderedMaps {
  import opened Optional

  /** Entries in insertion order; a well-formed map has distinct keys. */
  type OrderedMap<V> = seq<(string, V)>

  predicate DistinctKeys<V>(m: OrderedMap<V>) {
    forall i, j :: 0 <= i < j < |m| ==> m[i].0 != m[j].0
  }

  /** `Object.keys`. */
  function Keys<V>(m: OrderedMap<V>): (ks: seq<string>)
    ensures |ks| == |m|
    ensures forall i :: 0 <= i < |m| ==> ks[i] == m[i].0
  {
    seq(|m|, i requires 0 <= i < |m| => m[i].0)
  }

  /** `Object.values`. */
  function Values<V>(m: OrderedMap<V>): (vs: seq<V>)
    ensures |vs| == |m|
    ensures forall i :: 0 <= i < |m| ==> vs[i] == m[i].1
  {
    seq(|m|, i requires 0 <= i < |m| => m[i].1)
  }

  /** The position of key `k`, if present. */
  function Find<V>(m: OrderedMap<V>, k: string): (r: Option<nat>)
    ensures r.Some? ==> r.value < |m| && m[r.value].0 == k
    ensures r.None? <==> forall i :: 0 <= i < |m| ==> m[i].0 != k
  {
    if |m| == 0 then None
    else if m[|m| - 1].0 == k then Some(|m| - 1)
    else Find(m[..|m| - 1], k)
  }

  /** `m[k]`, `undefined` when the key is absent. */
  function Get<V>(m: OrderedMap<V>, k: string): Option<V>
  {
    match Find(m, k)
    case None => None
    case Some(i) => Some(m[i].1)
  }

  /** `m[k] = v`. */
  function Put<V>(m: OrderedMap<V>, k: string, v: V): (r: OrderedMap<V>)
    requires DistinctKeys(m)
    ensures DistinctKeys(r)
    ensures Get(r, k) == Some(v)
    ensures forall k' :: k' != k ==> Get(r, k') == Get(m, k')
    ensures Find(m, k).Some? ==> Keys(r) == Keys(m)
    ensures Find(m, k).None? ==> Keys(r) == Keys(m) + [k]
  {
    match Find(m, k)
    case None =>
      var r := m + [(k, v)];
      assert forall k' :: k' != k ==> Find(r, k') == Find(m, k') by {
        forall k' | k' != k
          ensures Find(r, k') == Find(m, k')
        {
          assert r[..|r| - 1] == m;
        }
      }
      r
    case Some(i) =>
      var r := m[i := (k, v)];
      FindUnique(r, k, i);
      assert forall k' :: k' != k ==> Get(r, k') == Get(m, k') by {
        forall k' | k' != k
          ensures Get(r, k') == Get(m, k')
        {
          FindSameKeys(m, r, k');
        }
      }
      r
  }

  lemma FindUnique<V>(m: OrderedMap<V>, k: string, i: nat)
    requires DistinctKeys(m)
    requires i < |m| && m[i].0 == k
    ensures Find(m, k) == Some(i)
  {
    if m[|m| - 1].0 != k {
      FindUnique(m[..|m| - 1], k, i);
    }
  }

  /** Find only looks at the keys. */
  lemma {:induction false} FindSameKeys<V>(m: OrderedMap<V>, r: OrderedMap<V>, k: string)
    requires |m| == |r|
    requires forall j :: 0 <= j < |m| ==> m[j].0 == r[j].0
    requires forall j :: 0 <= j < |m| && m[j].0 == k ==> m[j].1 == r[j].1
    ensures Find(m, k) == Find(r, k)
    ensures Get(m, k) == Get(r, k)
    decreases |m|
  {
    if |m| > 0 && m[|m| - 1].0 != k {
      FindSameKeys(m[..|m| - 1], r[..|r| - 1], k);
    }
  }

  /** Assign every entry of `entries` in order. */
  function PutAll<V>(m: OrderedMap<V>, entries: seq<(string, V)>): (r: OrderedMap<V>)
    requires DistinctKeys(m)
    ensures DistinctKeys(r)
    decreases |entries|
  {
    if |entries| == 0 then m
    else
      var last := entries[|entries| - 1];
      Put(PutAll(m, entries[..|entries| - 1]), last.0, last.1)
  }

  /** The position of the last entry with key `k`. */
  function LastWithKey<V>(entries: seq<(string, V)>, k: string): (r: Option<nat>)
    ensures r.Some? ==> r.value < |entries| && entries[r.value].0 == k
    ensures r.Some? ==> forall j :: r.value < j < |entries| ==> entries[j].0 != k
    ensures r.None? ==> forall j :: 0 <= j < |entries| ==> entries[j].0 != k
  {
    if |entries| == 0 then None
    else if entries[|entries| - 1].0 == k then Some(|entries| - 1)
    else LastWithKey(entries[..|entries| - 1], k)
  }

  /** After assigning a list of entries, every key holds the value of its
      LAST entry: a later duplicate overwrites an earlier one. Keys the list
      does not mention keep their old value. */
  lemma {:induction false} PutAllLastWins<V>(m: OrderedMap<V>, entries: seq<(string, V)>, k: string)
    requires DistinctKeys(m)
    ensures Get(PutAll(m, entries), k) ==
      match LastWithKey(entries, k)
      case Some(j) => Some(entries[j].1)
      case None => Get(m, k)
    decreases |entries|
  {
    if |entries| > 0 {
      PutAllLastWins(m, entries[..|entries| - 1], k);
    }
  }
}
