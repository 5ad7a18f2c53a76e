/** Python dicts as insertion-ordered lists of items. Keys keep the position of
    their first insertion; assigning to an existing key replaces its value. */
module Dicts {
  import opened Wrappers
  import opened Seqs

  /** A dict as its `items()` in iteration order. */
  type Dict<K, V> = seq<(K, V)>

  /** The dict's `keys()`, in iteration order. */
  function Keys<K, V>(d: Dict<K, V>): seq<K> {
    seq(|d|, i requires 0 <= i < |d| => d[i].0)
  }

  lemma KeysAppend<K, V>(d: Dict<K, V>, e: Dict<K, V>)
    ensures Keys(d + e) == Keys(d) + Keys(e)
  {
  }

  /** `d.get(k)`: the value stored under `k`, or None. */
  function Get<K(==), V>(d: Dict<K, V>, k: K): Option<V> {
    if d == [] then None
    else if d[0].0 == k then Some(d[0].1)
    else Get(d[1..], k)
  }

  /** `d[k] = v`: an existing key keeps its position and takes the new value,
      a new key is appended. */
  function Put<K(==,!new), V>(d: Dict<K, V>, k: K, v: V): (r: Dict<K, V>)
    ensures Keys(r) == if k in Keys(d) then Keys(d) else Keys(d) + [k]
    ensures Get(r, k) == Some(v)
    ensures forall k' :: k' != k ==> Get(r, k') == Get(d, k')
  {
    if d == [] then [(k, v)]
    else
      KeysAppend([d[0]], d[1..]);
      assert d == [d[0]] + d[1..];
      if d[0].0 == k then
        KeysAppend([(k, v)], d[1..]);
        assert Keys(d)[0] == k;
        assert Keys([(k, v)]) == Keys([d[0]]);
        [(k, v)] + d[1..]
      else
        var rest := Put(d[1..], k, v);
        KeysAppend([d[0]], rest);
        [d[0]] + rest
  }

  /** The dict that a sequence of assignments `d[k] = v` builds from `{}`. */
  function FoldPut<K(==,!new), V>(writes: seq<(K, V)>): Dict<K, V> {
    if writes == [] then []
    else
      var last := writes[|writes| - 1];
      Put(FoldPut(writes[..|writes| - 1]), last.0, last.1)
  }

  /** The value of the last assignment to `k` among `writes`, if any. */
  function LastValue<K(==,!new), V>(writes: seq<(K, V)>, k: K): (r: Option<V>)
    ensures r.None? <==> k !in Keys(writes)
    ensures forall i :: (0 <= i < |writes| && writes[i].0 == k &&
                         forall j :: i < j < |writes| ==> writes[j].0 != k) ==> r == Some(writes[i].1)
  {
    if writes == [] then None
    else
      var n := |writes| - 1;
      KeysAppend(writes[..n], [writes[n]]);
      assert writes == writes[..n] + [writes[n]];
      if writes[n].0 == k then
        assert Keys(writes)[n] == k;
        Some(writes[n].1)
      else
        assert forall i :: 0 <= i < n ==> writes[..n][i] == writes[i];
        LastValue(writes[..n], k)
  }

  /** Unfolds `FoldPut` at the last assignment. */
  lemma FoldPutLast<K(!new), V>(writes: seq<(K, V)>)
    requires writes != []
    ensures FoldPut(writes) == Put(FoldPut(writes[..|writes| - 1]), writes[|writes| - 1].0, writes[|writes| - 1].1)
    ensures Keys(writes) == Keys(writes[..|writes| - 1]) + [writes[|writes| - 1].0]
  {
    var n := |writes| - 1;
    var ks, init := Keys(writes), Keys(writes[..n]);
    assert forall i :: 0 <= i < n ==> ks[i] == init[i];
    assert ks == init + [writes[n].0];
  }

  /** Filling a dict from `{}` by a sequence of assignments gives it the
      assigned keys in first-assignment order. */
  lemma {:induction false} FoldPutKeys<K(!new), V>(writes: seq<(K, V)>)
    ensures Keys(FoldPut(writes)) == FirstSeen(Keys(writes))
  {
    if writes != [] {
      var n := |writes| - 1;
      FoldPutKeys(writes[..n]);
      FoldPutLast(writes);
      var ks := Keys(writes);
      assert ks[..|ks| - 1] == Keys(writes[..n]);
    }
  }

  /** Filling a dict from `{}` by a sequence of assignments leaves each key
      holding the value of its last assignment. */
  lemma {:induction false} FoldPutValues<K(!new), V>(writes: seq<(K, V)>)
    ensures forall k :: Get(FoldPut(writes), k) == LastValue(writes, k)
  {
    if writes != [] {
      var n := |writes| - 1;
      FoldPutValues(writes[..n]);
      FoldPutLast(writes);
      forall k
        ensures Get(FoldPut(writes), k) == LastValue(writes, k)
      {
        assert LastValue(writes, k) == if writes[n].0 == k then Some(writes[n].1) else LastValue(writes[..n], k);
      }
    }
  }
}
