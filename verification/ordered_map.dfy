/** A JavaScript `Map`: an association list kept in insertion order.
    `set` on a present key replaces its value in place; on a new key it
    appends. */
module OrderedMap {
  import opened Wrappers

  predicate HasKey<V>(m: seq<(int, V)>, k: int) {
    exists i :: 0 <= i < |m| && m[i].0 == k
  }

  predicate KeysDistinct<V>(m: seq<(int, V)>) {
    forall i, j :: 0 <= i < j < |m| ==> m[i].0 != m[j].0
  }

  /** Position of the first entry with key `k`. */
  function Find<V>(m: seq<(int, V)>, k: int, from: nat): (r: Option<nat>)
    requires from <= |m|
    ensures r.Some? ==> from <= r.value < |m| && m[r.value].0 == k
    ensures r.Some? ==> forall j :: from <= j < r.value ==> m[j].0 != k
    ensures r.None? ==> forall j :: from <= j < |m| ==> m[j].0 != k
    decreases |m| - from
  {
    if from == |m| then None
    else if m[from].0 == k then Some(from)
    else Find(m, k, from + 1)
  }

  /** `map.get(k)`: the value stored under `k`, or `undefined`. */
  function Get<V>(m: seq<(int, V)>, k: int): (r: Option<V>)
    ensures r.Some? <==> HasKey(m, k)
    ensures KeysDistinct(m) ==> forall i :: 0 <= i < |m| && m[i].0 == k ==> r == Some(m[i].1)
  {
    match Find(m, k, 0)
    case None => None
    case Some(i) => Some(m[i].1)
  }

  /** Two lists with the same keys position by position find a key at the
      same position. */
  lemma {:induction false} FindSameKeys<V>(m: seq<(int, V)>, r: seq<(int, V)>, k: int, from: nat)
    requires |m| == |r| && from <= |m|
    requires forall j :: 0 <= j < |m| ==> r[j].0 == m[j].0
    ensures Find(r, k, from) == Find(m, k, from)
    decreases |m| - from
  {
    if from < |m| && m[from].0 != k {
      FindSameKeys(m, r, k, from + 1);
    }
  }

  /** Appending an entry for `k` does not move any other key. */
  lemma {:induction false} FindAppend<V>(m: seq<(int, V)>, k: int, v: V, k': int, from: nat)
    requires k' != k && from <= |m|
    ensures Find(m + [(k, v)], k', from) == Find(m, k', from)
    decreases |m| - from
  {
    var r := m + [(k, v)];
    if from < |m| {
      assert r[from] == m[from];
      if m[from].0 != k' {
        FindAppend(m, k, v, k', from + 1);
      }
    }
  }

  /** `map.set(k, v)` */
  function Set<V>(m: seq<(int, V)>, k: int, v: V): (r: seq<(int, V)>)
    ensures !HasKey(m, k) ==> r == m + [(k, v)]
    ensures HasKey(m, k) ==> |r| == |m|
    ensures KeysDistinct(m) ==> KeysDistinct(r)
    ensures Get(r, k) == Some(v)
    ensures forall k' :: k' != k ==> Get(r, k') == Get(m, k')
  {
    match Find(m, k, 0)
    case None =>
      var r := m + [(k, v)];
      assert r[|m|].0 == k;
      assert forall k' :: k' != k ==> Find(r, k', 0) == Find(m, k', 0) by {
        forall k' | k' != k
          ensures Find(r, k', 0) == Find(m, k', 0)
        {
          FindAppend(m, k, v, k', 0);
        }
      }
      r
    case Some(i) =>
      var r := m[i := (k, v)];
      assert forall k' :: Find(r, k', 0) == Find(m, k', 0) by {
        forall k'
          ensures Find(r, k', 0) == Find(m, k', 0)
        {
          FindSameKeys(m, r, k', 0);
        }
      }
      r
  }

  /** `Array.from(map.values())`: the values in insertion order. */
  function Values<V>(m: seq<(int, V)>): (vs: seq<V>)
    ensures |vs| == |m| && forall i :: 0 <= i < |m| ==> vs[i] == m[i].1
  {
    seq(|m|, i requires 0 <= i < |m| => m[i].1)
  }
}
