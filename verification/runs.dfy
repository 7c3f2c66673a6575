/**
 * Positions within runs of equal keys: the counter that identity assignment
 * keeps, stated over the sequence of keys alone.
 */
module Runs {
  import opened Wrappers

  /**
   * The counter at position `i`: 0 when the key differs from the previous
   * one (or there is none), one more than the previous counter otherwise.
   */
  function RunIndex<K(==)>(keys: seq<K>, i: nat): (r: nat)
    requires i < |keys|
    ensures r <= i
  {
    if i == 0 || keys[i] != keys[i - 1] then 0 else RunIndex(keys, i - 1) + 1
  }

  /** The key of every item, in order. */
  function Keys<T, K>(items: seq<T>, key: T -> K): (keys: seq<K>)
    ensures |keys| == |items|
    ensures forall i {:trigger keys[i]} :: 0 <= i < |items| ==> keys[i] == key(items[i])
  {
    seq(|items|, i requires 0 <= i < |items| => key(items[i]))
  }

  /**
   * The single-pass fold that marks every item with its key and counter: the
   * previous key starts out missing (so it never equals the first item's), the
   * counter is bumped when the key repeats the previous one and reset to 0
   * otherwise.
   */
  method LabelRuns<T, K(==)>(items: seq<T>, key: T -> K, mark: (T, K, nat) -> T) returns (out: seq<T>)
    ensures |out| == |items|
    ensures forall i {:trigger out[i]} :: 0 <= i < |items| ==>
              out[i] == mark(items[i], key(items[i]), RunIndex(Keys(items, key), i))
  {
    ghost var keys := Keys(items, key);
    var last: Option<K> := None;
    var count: nat := 0;
    out := [];
    var i := 0;
    while i < |items|
      invariant 0 <= i <= |items|
      invariant |out| == i
      invariant forall k {:trigger out[k]} :: 0 <= k < i ==> out[k] == mark(items[k], keys[k], RunIndex(keys, k))
      invariant last == if i == 0 then None else Some(keys[i - 1])
      invariant i > 0 ==> count == RunIndex(keys, i - 1)
    {
      var item := items[i];
      var current := key(item);
      if Some(current) == last {
        count := count + 1;
      } else {
        count := 0;
      }
      last := Some(current);
      out := out + [mark(item, current, count)];
      i := i + 1;
    }
  }

  /**
   * The counter at `i` is the distance from the start of the maximal run of
   * equal keys containing `i`: the `r` keys before it equal it, and the one
   * before those, if any, does not.
   */
  lemma {:induction false} RunIndexIsRunDistance<K>(keys: seq<K>, i: nat)
    requires i < |keys|
    ensures var r := RunIndex(keys, i);
            && (forall k :: i - r <= k <= i ==> keys[k] == keys[i])
            && (r == i || keys[i - r - 1] != keys[i])
  {
    if i > 0 && keys[i] == keys[i - 1] {
      RunIndexIsRunDistance(keys, i - 1);
    }
  }

  /** Across a stretch of equal keys the counter grows by one per position. */
  lemma {:induction false} RunIndexAcross<K>(keys: seq<K>, i: nat, j: nat)
    requires i <= j < |keys|
    requires forall k :: i <= k <= j ==> keys[k] == keys[i]
    ensures RunIndex(keys, j) == RunIndex(keys, i) + (j - i)
    decreases j
  {
    if j > i {
      RunIndexAcross(keys, i, j - 1);
    }
  }

  /**
   * In a maximal run of equal keys starting at `s` (its predecessor, if any,
   * holds a different key) the counters are 0, 1, 2, ...
   */
  lemma RunIndicesCountFromZero<K>(keys: seq<K>, s: nat, e: nat)
    requires s < e <= |keys|
    requires forall k :: s <= k < e ==> keys[k] == keys[s]
    requires s == 0 || keys[s - 1] != keys[s]
    ensures forall k :: s <= k < e ==> RunIndex(keys, k) == k - s
  {
    forall k | s <= k < e
      ensures RunIndex(keys, k) == k - s
    {
      RunIndexAcross(keys, s, k);
    }
  }

  /** The first position of a run has counter 0 and the run's key. */
  lemma RunStartIndexZero<K>(keys: seq<K>, i: nat)
    requires i < |keys|
    ensures RunIndex(keys, i - RunIndex(keys, i)) == 0
    ensures keys[i - RunIndex(keys, i)] == keys[i]
  {
    RunIndexIsRunDistance(keys, i);
  }

  /** The counter at a position depends only on the keys up to it. */
  lemma {:induction false} RunIndexPrefix<K>(keys: seq<K>, n: nat, i: nat)
    requires i < n <= |keys|
    ensures RunIndex(keys[..n], i) == RunIndex(keys, i)
  {
    if i > 0 {
      RunIndexPrefix(keys, n, i - 1);
    }
  }

  /** Every key occupies a single contiguous stretch of the sequence. */
  ghost predicate Contiguous<K>(keys: seq<K>) {
    forall i, k, j :: 0 <= i < k < j < |keys| && keys[i] == keys[j] ==> keys[k] == keys[i]
  }

  /** No two positions carry both the same key and the same counter. */
  ghost predicate DistinctKeyIndexPairs<K>(keys: seq<K>) {
    forall i, j :: 0 <= i < j < |keys| && keys[i] == keys[j] ==> RunIndex(keys, i) != RunIndex(keys, j)
  }

  /**
   * Key and counter together single out a position exactly when every key
   * forms one contiguous run; a key that comes back after another one starts
   * again at 0.
   */
  lemma DistinctPairsIffContiguous<K>(keys: seq<K>)
    ensures DistinctKeyIndexPairs(keys) <==> Contiguous(keys)
  {
    if Contiguous(keys) {
      forall i, j | 0 <= i < j < |keys| && keys[i] == keys[j]
        ensures RunIndex(keys, i) != RunIndex(keys, j)
      {
        RunIndexAcross(keys, i, j);
      }
    } else {
      var i, k, j :| 0 <= i < k < j < |keys| && keys[i] == keys[j] && keys[k] != keys[i];
      var si := i - RunIndex(keys, i);
      var sj := j - RunIndex(keys, j);
      RunStartIndexZero(keys, i);
      RunStartIndexZero(keys, j);
      RunIndexIsRunDistance(keys, j);
      assert si < k < sj;
      assert keys[si] == keys[sj] && RunIndex(keys, si) == RunIndex(keys, sj);
    }
  }
}
