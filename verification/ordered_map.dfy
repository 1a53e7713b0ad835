/** Python's `dict` as the inventory code uses it: keys kept in first
    insertion order, assignment to an existing key replacing its value in
    place. */
module OrderedMap {
  import opened Base

  /** Entries in insertion order. */
  type Dict<K, V> = seq<(K, V)>

  function Keys<K, V>(d: Dict<K, V>): (ks: seq<K>)
    ensures |ks| == |d|
    ensures forall i :: 0 <= i < |d| ==> ks[i] == d[i].0
  {
    seq(|d|, i requires 0 <= i < |d| => d[i].0)
  }

  function Values<K, V>(d: Dict<K, V>): (vs: seq<V>)
    ensures |vs| == |d|
    ensures forall i :: 0 <= i < |d| ==> vs[i] == d[i].1
  {
    seq(|d|, i requires 0 <= i < |d| => d[i].1)
  }

  predicate UniqueKeys<K(==), V>(d: Dict<K, V>) {
    forall i, j :: 0 <= i < j < |d| ==> d[i].0 != d[j].0
  }

  /** Position of key `k` at or after `from`. */
  function PositionFrom<K(==), V>(d: Dict<K, V>, k: K, from: nat): (r: Option<nat>)
    requires from <= |d|
    ensures r.Some? ==> from <= r.value < |d| && d[r.value].0 == k
    ensures r.Some? ==> forall j :: from <= j < r.value ==> d[j].0 != k
    ensures r.None? ==> forall j :: from <= j < |d| ==> d[j].0 != k
    decreases |d| - from
  {
    if from == |d| then None
    else if d[from].0 == k then Some(from)
    else PositionFrom(d, k, from + 1)
  }

  /** Position of key `k` in insertion order, if present. */
  function Position<K(==), V>(d: Dict<K, V>, k: K): Option<nat> {
    PositionFrom(d, k, 0)
  }

  /** Python `d.get(k)`. */
  function Get<K(==), V>(d: Dict<K, V>, k: K): Option<V> {
    match Position(d, k)
    case Some(p) => Some(d[p].1)
    case None => None
  }

  /** With unique keys, a key's position is the one index that holds it. */
  lemma PositionUnique<K, V>(d: Dict<K, V>, i: nat)
    requires UniqueKeys(d)
    requires i < |d|
    ensures Position(d, d[i].0) == Some(i)
  {
  }

  /** A key missing from the key list has no value. */
  lemma AbsentGet<K, V>(d: Dict<K, V>, k: K)
    requires k !in Keys(d)
    ensures Get(d, k).None?
  {
  }

  /** Python `d[k] = v`: an existing key keeps its place and gets the new
      value; a new key is appended. */
  function Put<K(==), V>(d: Dict<K, V>, k: K, v: V): Dict<K, V> {
    match Position(d, k)
    case Some(p) => d[p := (k, v)]
    case None => d + [(k, v)]
  }

  /** After `d[k] = v`, `k` maps to `v` and every other key keeps its value. */
  lemma PutGet<K(!new), V>(d: Dict<K, V>, k: K, v: V)
    ensures Get(Put(d, k, v), k) == Some(v)
    ensures forall k' :: k' != k ==> Get(Put(d, k, v), k') == Get(d, k')
  {
    var r := Put(d, k, v);
    match Position(d, k)
    case Some(p) =>
      PositionAgree(d, r, k, 0);
      forall k' | k' != k ensures Position(r, k') == Position(d, k') {
        PositionAgree(d, r, k', 0);
      }
    case None =>
      SkipAbsent(r, k, 0, |d|);
      forall k' | k' != k ensures Position(r, k') == Position(d, k') {
        PositionAgree(d, r, k', 0);
      }
  }

  /** `d[k] = v` keeps keys unique, keeps every other entry in its place,
      and changes the key order only by appending a new key. */
  lemma PutShape<K, V>(d: Dict<K, V>, k: K, v: V)
    ensures UniqueKeys(d) ==> UniqueKeys(Put(d, k, v))
    ensures k in Keys(d) ==> Keys(Put(d, k, v)) == Keys(d)
    ensures k !in Keys(d) ==> Keys(Put(d, k, v)) == Keys(d) + [k]
    ensures forall i :: 0 <= i < |d| && d[i].0 != k ==> Put(d, k, v)[i] == d[i]
  {
    PutKeys(d, k, v);
  }

  /** `d[k] = v` leaves the key order alone or appends `k`. */
  lemma PutKeys<K, V>(d: Dict<K, V>, k: K, v: V)
    ensures k in Keys(d) ==> Keys(Put(d, k, v)) == Keys(d)
    ensures k !in Keys(d) ==> Keys(Put(d, k, v)) == Keys(d) + [k]
  {
    var r := Put(d, k, v);
    match Position(d, k)
    case Some(p) =>
      assert Keys(r) == Keys(d);
    case None =>
      assert k !in Keys(d);
      assert Keys(r) == Keys(d) + [k];
  }

  /** Two dicts that agree on every key equal to `k`'s position-wise and
      differ only at entries whose key is not `k` locate `k` identically. */
  lemma PositionAgree<K, V>(d: Dict<K, V>, r: Dict<K, V>, k: K, from: nat)
    requires from <= |d| <= |r|
    requires forall i :: from <= i < |d| ==> (d[i].0 == k <==> r[i].0 == k)
    requires forall i :: |d| <= i < |r| ==> r[i].0 != k
    ensures PositionFrom(r, k, from) == PositionFrom(d, k, from)
    decreases |d| - from
  {
    if from < |d| && d[from].0 != k {
      PositionAgree(d, r, k, from + 1);
    } else if from == |d| && from < |r| {
      NotPresentFrom(r, k, from);
    }
  }

  /** Dicts with the same keys in the same order locate every key alike. */
  lemma {:induction false} SameKeysPosition<K, V, W>(d: Dict<K, V>, r: Dict<K, W>, k: K, from: nat)
    requires |d| == |r| && from <= |d|
    requires forall i :: 0 <= i < |d| ==> d[i].0 == r[i].0
    ensures PositionFrom(r, k, from) == PositionFrom(d, k, from)
    decreases |d| - from
  {
    if from < |d| {
      SameKeysPosition(d, r, k, from + 1);
    }
  }

  lemma SkipAbsent<K, V>(r: Dict<K, V>, k: K, from: nat, to: nat)
    requires from <= to <= |r|
    requires forall i :: from <= i < to ==> r[i].0 != k
    ensures PositionFrom(r, k, from) == PositionFrom(r, k, to)
    decreases (to as int) - (from as int)
  {
    if from < to {
      SkipAbsent(r, k, from + 1, to);
    }
  }

  lemma NotPresentFrom<K, V>(r: Dict<K, V>, k: K, from: nat)
    requires from <= |r|
    requires forall i :: from <= i < |r| ==> r[i].0 != k
    ensures PositionFrom(r, k, from).None?
  {
  }
}
